/**
 * The case converter page: `convertCase(caseType)` over the input text,
 * with `toUpperCase`/`toLowerCase` restricted to the ASCII letters.
 *
 * Title and sentence case are modelled as the source writes them (split,
 * map each piece, join) and are each proved equal to a character-by-
 * character reference definition.
 */
module CaseConverter {
  import Text

  /** `piece.charAt(0).toUpperCase() + piece.slice(1)`. */
  function CapFirst(p: string): (r: string)
    ensures |r| == |p|
  {
    if |p| == 0 then "" else Text.Upper(p[..1]) + p[1..]
  }

  /** `sentence.charAt(0).toUpperCase() + sentence.slice(1).toLowerCase()`. */
  function CapSentence(p: string): (r: string)
    ensures |r| == |p|
  {
    if |p| == 0 then "" else Text.Upper(p[..1]) + Text.Lower(p[1..])
  }

  function MapCapFirst(ps: seq<string>): (rs: seq<string>)
    ensures |rs| == |ps|
    decreases |ps|
  {
    if |ps| == 0 then [] else [CapFirst(ps[0])] + MapCapFirst(ps[1..])
  }

  function MapCapSentence(ps: seq<string>): (rs: seq<string>)
    ensures |rs| == |ps|
    decreases |ps|
  {
    if |ps| == 0 then [] else [CapSentence(ps[0])] + MapCapSentence(ps[1..])
  }

  /** `text.toLowerCase().split(' ').map(capitalise).join(' ')`: equal to
      the character-wise reference, so spaces stay in place, the first
      character of each space-separated word is upper-cased and every other
      character lower-cased. */
  function TitleCase(text: string): (r: string)
    ensures r == TitleRef(text)
  {
    var t := Text.Lower(text);
    SplitMapJoinWords(t);
    assert UpperWordStarts(t) == TitleRef(text) by {
      forall i | 0 <= i < |text| ensures UpperWordStarts(t)[i] == TitleRef(text)[i] {
        LowerKeepsWordStart(text, i);
      }
    }
    Text.Join(MapCapFirst(Text.Split(t, " ")), " ")
  }

  /** `text.split('. ').map(capitaliseSentence).join('. ')`: equal to the
      character-wise reference, so every ". " stays, the first character of
      the text and each one after ". " is upper-cased and every other
      character lower-cased. */
  function SentenceCase(text: string): (r: string)
    ensures r == SentenceRef(text)
  {
    SplitMapJoinSentences(text);
    Text.Join(MapCapSentence(Text.Split(text, ". ")), ". ")
  }

  /** `char === char.toUpperCase() ? char.toLowerCase() : char.toUpperCase()`. */
  function InverseChar(c: char): char {
    if c == Text.UpperChar(c) then Text.LowerChar(c) else Text.UpperChar(c)
  }

  /** `text.split('').map(InverseChar).join('')`: swaps the case of letters
      and leaves every other character where and as it is. */
  function InverseCase(text: string): (r: string)
    ensures |r| == |text|
    ensures forall i :: 0 <= i < |text| && Text.IsAsciiUpper(text[i]) ==> r[i] == Text.LowerChar(text[i])
    ensures forall i :: 0 <= i < |text| && Text.IsAsciiLower(text[i]) ==> r[i] == Text.UpperChar(text[i])
    ensures forall i :: 0 <= i < |text| && !Text.IsAsciiUpper(text[i]) && !Text.IsAsciiLower(text[i]) ==> r[i] == text[i]
  {
    seq(|text|, i requires 0 <= i < |text| => InverseChar(text[i]))
  }

  // ---------------------------------------------------------------------
  // Reference definitions
  // ---------------------------------------------------------------------

  /** Position `i` of `s` begins a space-separated word. */
  predicate WordStart(s: string, i: int)
    requires 0 <= i < |s|
  {
    i == 0 || s[i - 1] == ' '
  }

  /** Title case, character by character: the first character of each
      space-separated word upper-cased, every other character lower-cased. */
  function TitleRef(s: string): (r: string)
    ensures |r| == |s|
  {
    seq(|s|, i requires 0 <= i < |s| => if WordStart(s, i) then Text.UpperChar(s[i]) else Text.LowerChar(s[i]))
  }

  /** Position `i` of `s` begins a ". "-separated sentence. */
  predicate SentenceStart(s: string, i: int)
    requires 0 <= i < |s|
  {
    i == 0 || (i >= 2 && s[i - 2] == '.' && s[i - 1] == ' ')
  }

  /** Sentence case, character by character. */
  function SentenceRef(s: string): (r: string)
    ensures |r| == |s|
  {
    seq(|s|, i requires 0 <= i < |s| => if SentenceStart(s, i) then Text.UpperChar(s[i]) else Text.LowerChar(s[i]))
  }

  /** Upper-cases word starts of `t` and keeps every other character. */
  function UpperWordStarts(t: string): (r: string)
    ensures |r| == |t|
  {
    seq(|t|, i requires 0 <= i < |t| => if WordStart(t, i) then Text.UpperChar(t[i]) else t[i])
  }

  /** No space occurs before `j`. */
  predicate NoSpaceBefore(t: string, j: int) {
    forall k :: 0 <= k < j && k < |t| ==> t[k] != ' '
  }

  /** Word starts after the first space are those of the remainder. */
  lemma WordTail(t: string, j: int, k: int)
    requires 0 <= j < |t| && t[j] == ' '
    requires 0 <= k < |t| - j - 1
    ensures WordStart(t, j + 1 + k) == WordStart(t[j + 1..], k)
    ensures t[j + 1..][k] == t[j + 1 + k]
  {
    if k >= 1 {
      assert t[j + 1..][k - 1] == t[j + k];
    }
  }

  /** The first word ends at the first space; the reference then restarts. */
  lemma WordsAtSpace(t: string, j: int)
    requires 0 <= j < |t| && t[j] == ' '
    requires NoSpaceBefore(t, j)
    ensures UpperWordStarts(t) == CapFirst(t[..j]) + " " + UpperWordStarts(t[j + 1..])
  {
    var head := CapFirst(t[..j]);
    var rr := UpperWordStarts(t[j + 1..]);
    var lhs := head + " " + rr;
    var r := UpperWordStarts(t);
    forall i | 0 <= i < j ensures lhs[i] == r[i] {
      assert lhs[i] == head[i];
      if i >= 1 { assert t[i - 1] != ' '; }
    }
    assert lhs[j] == r[j];
    forall i | j + 1 <= i < |t| ensures lhs[i] == r[i] {
      WordTail(t, j, i - j - 1);
    }
  }

  /** Without a space the text is one word. */
  lemma WordsNoSpace(t: string)
    requires NoSpaceBefore(t, |t|)
    ensures UpperWordStarts(t) == CapFirst(t)
  {
    var r := UpperWordStarts(t);
    forall i | 0 <= i < |t| ensures r[i] == CapFirst(t)[i] {
      if i >= 1 { assert t[i - 1] != ' '; }
    }
  }

  /** Mapping and joining a split that starts with piece `p`. */
  lemma MapJoinWordsCons(p: string, ps: seq<string>)
    requires |ps| >= 1
    ensures Text.Join(MapCapFirst([p] + ps), " ") == CapFirst(p) + " " + Text.Join(MapCapFirst(ps), " ")
  {
    assert ([p] + ps)[1..] == ps;
  }

  lemma {:induction false} SplitMapJoinWords(t: string)
    ensures Text.Join(MapCapFirst(Text.Split(t, " ")), " ") == UpperWordStarts(t)
    decreases |t|
  {
    var j := Text.IndexOf(t, " ");
    Text.SplitNone(t, " ", j);
    Text.SplitUnfold(t, " ", j);
    forall k | 0 <= k < j ensures t[k] != ' ' {
      assert !Text.OccursAt(t, " ", k);
      assert t[k..k + 1] == [t[k]];
    }
    if j == |t| {
      assert MapCapFirst([t]) == [CapFirst(t)];
      WordsNoSpace(t);
    } else {
      var rest := t[j + 1..];
      assert t[j..j + 1] == " ";
      MapJoinWordsCons(t[..j], Text.Split(rest, " "));
      SplitMapJoinWords(rest);
      WordsAtSpace(t, j);
    }
  }

  /** Lower-casing moves no word start, and upper-casing a lower-cased
      letter gives the upper-case letter. */
  lemma LowerKeepsWordStart(text: string, i: int)
    requires 0 <= i < |text|
    ensures UpperWordStarts(Text.Lower(text))[i] == TitleRef(text)[i]
  {
    var t := Text.Lower(text);
    if i > 0 { assert t[i - 1] == ' ' <==> text[i - 1] == ' '; }
    assert WordStart(t, i) == WordStart(text, i);
    UpperOfLower(text[i]);
  }

  lemma UpperOfLower(c: char)
    ensures Text.UpperChar(Text.LowerChar(c)) == Text.UpperChar(c)
  {
    if Text.IsAsciiUpper(c) {
      assert Text.LowerChar(c) as int == c as int + 32;
    }
  }

  /** No ". " starts before `j`. */
  predicate NoStopBefore(s: string, j: int) {
    forall k :: 0 <= k < j && k + 2 <= |s| ==> !(s[k] == '.' && s[k + 1] == ' ')
  }

  /** The first piece ends at the first ". "; the reference then restarts. */
  lemma SentenceRefAtStop(s: string, j: int)
    requires 0 <= j && j + 2 <= |s| && s[j] == '.' && s[j + 1] == ' '
    requires NoStopBefore(s, j)
    ensures SentenceRef(s) == CapSentence(s[..j]) + ". " + SentenceRef(s[j + 2..])
  {
    var r := SentenceRef(s);
    RefHead(s, j);
    StopKept(s, j);
    RefTail(s, j);
    assert r == r[..j] + r[j..j + 2] + r[j + 2..];
  }

  /** Up to the first ". " the reference is one capitalised sentence. */
  lemma RefHead(s: string, j: int)
    requires 0 <= j <= |s|
    requires NoStopBefore(s, j)
    ensures SentenceRef(s)[..j] == CapSentence(s[..j])
  {
    forall i | 0 <= i < j ensures SentenceRef(s)[..j][i] == CapSentence(s[..j])[i] {
      HeadStart(s, j, i);
    }
  }

  /** After a ". " the reference restarts on the remainder. */
  lemma RefTail(s: string, j: int)
    requires 0 <= j && j + 2 <= |s| && s[j] == '.' && s[j + 1] == ' '
    ensures SentenceRef(s)[j + 2..] == SentenceRef(s[j + 2..])
  {
    var a := SentenceRef(s)[j + 2..];
    var b := SentenceRef(s[j + 2..]);
    forall k | 0 <= k < |b| ensures a[k] == b[k] {
      TailStart(s, j, k);
    }
  }

  /** The reference keeps the separator ". " itself. */
  lemma StopKept(s: string, j: int)
    requires 0 <= j && j + 2 <= |s| && s[j] == '.' && s[j + 1] == ' '
    ensures SentenceRef(s)[j..j + 2] == ". "
  {
    assert !SentenceStart(s, j + 1);
    if SentenceStart(s, j) {
      assert Text.UpperChar('.') == '.';
    }
  }

  /** Before the first ". " only position 0 starts a sentence. */
  lemma HeadStart(s: string, j: int, i: int)
    requires 0 <= i < j <= |s|
    requires NoStopBefore(s, j)
    ensures SentenceRef(s)[i] == CapSentence(s[..j])[i]
  {
    CapSentenceAt(s[..j], i);
    assert s[..j][i] == s[i];
    if i >= 2 { assert !(s[i - 2] == '.' && s[i - 1] == ' '); }
    assert SentenceStart(s, i) <==> i == 0;
  }

  /** `CapSentence` upper-cases position 0 and lower-cases the rest. */
  lemma CapSentenceAt(p: string, i: int)
    requires 0 <= i < |p|
    ensures CapSentence(p)[i] == if i == 0 then Text.UpperChar(p[0]) else Text.LowerChar(p[i])
  {
    var a := Text.Upper(p[..1]);
    var b := Text.Lower(p[1..]);
    assert CapSentence(p) == a + b;
    if i > 0 {
      assert (a + b)[i] == b[i - 1];
      assert p[1..][i - 1] == p[i];
    }
  }

  lemma TailStart(s: string, j: int, k: int)
    requires 0 <= j && j + 2 <= |s| && s[j] == '.' && s[j + 1] == ' '
    requires 0 <= k < |s| - j - 2
    ensures SentenceStart(s, j + 2 + k) == SentenceStart(s[j + 2..], k)
    ensures s[j + 2..][k] == s[j + 2 + k]
  {
    if k >= 2 {
      assert s[j + 2..][k - 2] == s[j + k] && s[j + 2..][k - 1] == s[j + k + 1];
    }
  }

  /** Without any ". " the reference capitalises the whole text as one sentence. */
  lemma SentenceRefNoStop(s: string)
    requires NoStopBefore(s, |s|)
    ensures SentenceRef(s) == CapSentence(s)
  {
    var r := SentenceRef(s);
    forall i | 0 <= i < |s| ensures r[i] == CapSentence(s)[i] {
      if i >= 2 { assert !(s[i - 2] == '.' && s[i - 1] == ' '); }
    }
  }

  lemma {:induction false} SplitMapJoinSentences(s: string)
    ensures Text.Join(MapCapSentence(Text.Split(s, ". ")), ". ") == SentenceRef(s)
    decreases |s|
  {
    var j := Text.IndexOf(s, ". ");
    var lhs := Text.Join(MapCapSentence(Text.Split(s, ". ")), ". ");
    forall k | 0 <= k < j && k + 2 <= |s| ensures !(s[k] == '.' && s[k + 1] == ' ') {
      assert !Text.OccursAt(s, ". ", k);
      assert s[k..k + 2] == [s[k], s[k + 1]];
    }
    if j == |s| {
      assert Text.Split(s, ". ") == [s];
      assert MapCapSentence([s]) == [CapSentence(s)];
      assert lhs == CapSentence(s);
      SentenceRefNoStop(s);
    } else {
      var rest := s[j + 2..];
      assert s[j..j + 2] == ". ";
      assert s[j] == '.' && s[j + 1] == ' ' by { assert s[j..j + 2][0] == s[j]; assert s[j..j + 2][1] == s[j + 1]; }
      assert Text.Split(s, ". ") == [s[..j]] + Text.Split(rest, ". ");
      var tail := MapCapSentence(Text.Split(rest, ". "));
      assert MapCapSentence(Text.Split(s, ". ")) == [CapSentence(s[..j])] + tail;
      assert lhs == CapSentence(s[..j]) + ". " + Text.Join(tail, ". ");
      SplitMapJoinSentences(rest);
      SentenceRefAtStop(s, j);
    }
  }

  // ---------------------------------------------------------------------
  // convertCase
  // ---------------------------------------------------------------------

  predicate KnownCaseType(caseType: string) {
    caseType == "upper" || caseType == "lower" || caseType == "title"
    || caseType == "sentence" || caseType == "inverse"
  }

  /** `convertCase(caseType)`: every mode keeps the length; an unknown mode
      returns the text unchanged. */
  function ConvertCase(caseType: string, text: string): (r: string)
    ensures |r| == |text|
    ensures !KnownCaseType(caseType) ==> r == text
    ensures caseType == "title" ==> r == TitleRef(text)
    ensures caseType == "sentence" ==> r == SentenceRef(text)
  {
    if caseType == "upper" then Text.Upper(text)
    else if caseType == "lower" then Text.Lower(text)
    else if caseType == "title" then TitleCase(text)
    else if caseType == "sentence" then SentenceCase(text)
    else if caseType == "inverse" then InverseCase(text)
    else text
  }

  /** Upper-casing and lower-casing are idempotent. */
  lemma UpperLowerIdempotent(text: string)
    ensures ConvertCase("upper", ConvertCase("upper", text)) == ConvertCase("upper", text)
    ensures ConvertCase("lower", ConvertCase("lower", text)) == ConvertCase("lower", text)
  {
  }

  /** On ASCII text, inverting the case twice gives the text back. */
  lemma InverseInvolution(text: string)
    requires Text.IsAscii(text)
    ensures ConvertCase("inverse", ConvertCase("inverse", text)) == text
  {
  }
}
