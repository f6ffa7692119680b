/**
 * The character count page: the three figures it shows for a text —
 * `text.length`, the number of words and the number of lines.
 */
module CharacterCount {
  import Text

  /** `s.split(/\s+/)`: cuts at every maximal run of whitespace. A leading
      run yields an empty first piece and a trailing run an empty last one. */
  function SplitWs(t: string): (r: seq<string>)
    ensures |r| >= 1
    ensures forall k, i :: 0 <= k < |r| && 0 <= i < |r[k]| ==> !Text.IsWs(r[k][i])
    decreases |t|
  {
    if |t| == 0 then [""]
    else if Text.IsWs(t[0]) then [""] + SplitWs(Text.TrimStart(t[1..]))
    else
      var rest := SplitWs(t[1..]);
      var r := [[t[0]] + rest[0]] + rest[1..];
      assert forall i :: 1 <= i < |r[0]| ==> r[0][i] == rest[0][i - 1];
      assert forall k :: 1 <= k < |r| ==> r[k] == rest[k];
      r
  }

  /** Reference word count: the number of non-whitespace characters that
      stand at the start, or right after a whitespace character (`afterWs`
      says whether the text so far ended in whitespace). */
  function WordStarts(s: string, afterWs: bool): (n: nat)
    ensures n <= |s|
    decreases |s|
  {
    if |s| == 0 then 0
    else (if afterWs && !Text.IsWs(s[0]) then 1 else 0) + WordStarts(s[1..], Text.IsWs(s[0]))
  }

  /** `text.trim() === '' ? 0 : text.trim().split(/\s+/).length`. */
  function WordCount(text: string): (n: nat)
    ensures n == 0 <==> Text.AllWs(text)
  {
    var t := Text.Trim(text);
    if t == [] then 0 else |SplitWs(t)|
  }

  /** `text.split('\n').length`. */
  function LineCount(text: string): (n: nat)
    ensures n == Text.Count(text, '\n') + 1
  {
    Text.SplitCharCount(text, '\n');
    |Text.Split(text, "\n")|
  }

  datatype Stats = Stats(characters: nat, words: nat, lines: nat)

  /** The three figures the page shows. `text.length` counts UTF-16 code
      units, so an astral character counts twice. */
  function Count(text: string): (st: Stats)
    ensures st.characters == Text.Utf16Length(text) && |text| <= st.characters
    ensures st.words == WordStarts(text, true) && st.words <= |text|
    ensures st.lines == Text.Count(text, '\n') + 1 && st.lines >= 1
  {
    WordCountIsWordStarts(text);
    Stats(Text.Utf16Length(text), WordCount(text), LineCount(text))
  }

  /** A single emoji is two characters on the page: one scalar value, two
      code units. */
  lemma EmojiCountsTwo()
    ensures |"\U{1F600}"| == 1
    ensures Count("\U{1F600}").characters == 2
  {
    assert Text.IsAstral("\U{1F600}"[0]);
  }

  // ---------------------------------------------------------------------
  // Word count against the reference
  // ---------------------------------------------------------------------

  lemma {:induction false} WordStartsAppend(a: string, b: string, afterWs: bool)
    ensures WordStarts(a + b, afterWs)
         == WordStarts(a, afterWs) + WordStarts(b, if a == [] then afterWs else Text.IsWs(a[|a| - 1]))
    decreases |a|
  {
    if a == [] {
      assert a + b == b;
    } else {
      assert (a + b)[0] == a[0];
      assert (a + b)[1..] == a[1..] + b;
      WordStartsAppend(a[1..], b, Text.IsWs(a[0]));
      if |a| > 1 { assert a[1..][|a| - 2] == a[|a| - 1]; }
    }
  }

  lemma {:induction false} WordStartsAllWs(w: string, afterWs: bool)
    requires Text.AllWs(w)
    ensures WordStarts(w, afterWs) == 0
    decreases |w|
  {
    if w != [] {
      assert Text.IsWs(w[0]);
      WordStartsAllWs(w[1..], true);
    }
  }

  /** A text that starts and ends outside whitespace has one more piece
      under `split(/\s+/)` than it has word starts after whitespace. */
  lemma {:induction false} SplitWsWordStarts(u: string, afterWs: bool)
    requires |u| > 0 && !Text.IsWs(u[|u| - 1])
    ensures WordStarts(u, afterWs) + 1 == |SplitWs(u)| + (if afterWs && !Text.IsWs(u[0]) then 1 else 0)
    decreases |u|
  {
    if Text.IsWs(u[0]) {
      var r := Text.TrimStart(u[1..]);
      var d := |u| - 1 - |r|;
      assert u[1..] == u[1..][..d] + r;
      WordStartsAllWs(u[1..][..d], true);
      WordStartsAppend(u[1..][..d], r, true);
      assert r != [];
      assert r[|r| - 1] == u[|u| - 1];
      SplitWsWordStarts(r, true);
    } else if |u| > 1 {
      SplitWsWordStarts(u[1..], false);
    }
  }

  /** Leading whitespace starts no word. */
  lemma WordStartsTrimStart(text: string)
    ensures WordStarts(text, true) == WordStarts(Text.TrimStart(text), true)
  {
    var t := Text.TrimStart(text);
    var lead := text[..|text| - |t|];
    assert text == lead + t;
    WordStartsAllWs(lead, true);
    WordStartsAppend(lead, t, true);
    if lead != [] {
      assert Text.IsWs(lead[|lead| - 1]);
    }
  }

  /** Trailing whitespace starts no word. */
  lemma WordStartsTrimEnd(t: string)
    ensures WordStarts(t, true) == WordStarts(Text.TrimEnd(t), true)
  {
    var r := Text.TrimEnd(t);
    assert t == r + t[|r|..];
    WordStartsAllWs(t[|r|..], if r == [] then true else Text.IsWs(r[|r| - 1]));
    WordStartsAppend(r, t[|r|..], true);
  }

  /** The page's word count equals the number of word starts. */
  lemma WordCountIsWordStarts(text: string)
    ensures WordCount(text) == WordStarts(text, true)
  {
    var r := Text.Trim(text);
    assert r == Text.TrimEnd(Text.TrimStart(text));
    WordStartsTrimStart(text);
    WordStartsTrimEnd(Text.TrimStart(text));
    if r != [] {
      SplitWsWordStarts(r, true);
    }
  }

  /** Joining two texts with a space adds their word counts. */
  lemma WordCountJoin(a: string, b: string)
    ensures WordCount(a + " " + b) == WordCount(a) + WordCount(b)
  {
    WordCountIsWordStarts(a + " " + b);
    WordCountIsWordStarts(a);
    WordCountIsWordStarts(b);
    WordStartsAppend(a + " ", b, true);
    WordStartsAppend(a, " ", true);
  }

  /** Whitespace around a text changes neither its word count. */
  lemma WordCountPadding(pre: string, text: string, post: string)
    requires Text.AllWs(pre) && Text.AllWs(post)
    ensures WordCount(pre + text + post) == WordCount(text)
  {
    WordCountIsWordStarts(pre + text + post);
    WordCountIsWordStarts(text);
    WordStartsAppend(pre + text, post, true);
    WordStartsAppend(pre, text, true);
    WordStartsAllWs(pre, true);
    WordStartsAllWs(post, if pre + text == [] then true else Text.IsWs((pre + text)[|pre + text| - 1]));
    if pre != [] && text != [] {
      assert Text.IsWs(pre[|pre| - 1]);
    }
    if text == [] {
      assert pre + text == pre;
    }
  }

  /** Joining two texts with a newline adds their line counts. */
  lemma LineCountJoin(a: string, b: string)
    ensures LineCount(a + "\n" + b) == LineCount(a) + LineCount(b)
  {
    Text.CountAppend(a + "\n", b, '\n');
    Text.CountAppend(a, "\n", '\n');
    assert Text.Count("\n", '\n') == 1;
  }
}
