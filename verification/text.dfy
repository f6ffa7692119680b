/**
 * String primitives the tool pages borrow from ECMAScript: the `\s` /
 * `String.prototype.trim` whitespace set, ASCII case mapping, `split` and
 * `join` with a literal separator, and `includes`.
 *
 * Strings are `seq<char>`; every page that only looks at ASCII structure
 * (spaces, digits, letters) is modelled over them. A `char` is a Unicode
 * scalar value, whereas `length` counts UTF-16 code units, so lengths the
 * pages show or compare go through `Utf16Length`.
 */
module Text {

  /** WhiteSpace and LineTerminator code points (ECMA-262 sections 12.2 and
      12.3): exactly the characters `\s` matches and `trim` removes. */
  predicate IsWs(c: char) {
    var n := c as int;
    || n == 0x09 || n == 0x0A || n == 0x0B || n == 0x0C || n == 0x0D || n == 0x20
    || n == 0xA0 || n == 0x1680 || (0x2000 <= n <= 0x200A)
    || n == 0x2028 || n == 0x2029 || n == 0x202F || n == 0x205F
    || n == 0x3000 || n == 0xFEFF
  }

  /** LineTerminator (ECMA-262 section 12.3): what `.` refuses and what `^`
      and `$` look at under the `m` flag. */
  predicate IsLineTerminator(c: char) {
    c == '\n' || c == '\r' || c as int == 0x2028 || c as int == 0x2029
  }

  predicate AllWs(s: string) {
    forall i :: 0 <= i < |s| ==> IsWs(s[i])
  }

  predicate IsAsciiLower(c: char) { 'a' <= c <= 'z' }
  predicate IsAsciiUpper(c: char) { 'A' <= c <= 'Z' }

  predicate IsAscii(s: string) {
    forall i :: 0 <= i < |s| ==> s[i] as int < 128
  }

  /** `toUpperCase` on one character, restricted to the ASCII letters. */
  function UpperChar(c: char): (r: char)
    ensures IsAsciiLower(c) ==> IsAsciiUpper(r) && r as int - c as int == -32
    ensures !IsAsciiLower(c) ==> r == c
  {
    if IsAsciiLower(c) then (c as int - 32) as char else c
  }

  /** `toLowerCase` on one character, restricted to the ASCII letters. */
  function LowerChar(c: char): (r: char)
    ensures IsAsciiUpper(c) ==> IsAsciiLower(r) && r as int - c as int == 32
    ensures !IsAsciiUpper(c) ==> r == c
  {
    if IsAsciiUpper(c) then (c as int + 32) as char else c
  }

  function Upper(s: string): (r: string)
    ensures |r| == |s|
    ensures forall i :: 0 <= i < |s| ==> r[i] == UpperChar(s[i])
  {
    seq(|s|, i requires 0 <= i < |s| => UpperChar(s[i]))
  }

  function Lower(s: string): (r: string)
    ensures |r| == |s|
    ensures forall i :: 0 <= i < |s| ==> r[i] == LowerChar(s[i])
  {
    seq(|s|, i requires 0 <= i < |s| => LowerChar(s[i]))
  }

  /** `trimStart`: the longest suffix of `s` that does not begin with whitespace. */
  function TrimStart(s: string): (r: string)
    ensures |r| <= |s| && r == s[|s| - |r|..]
    ensures r == [] || !IsWs(r[0])
    ensures AllWs(s[..|s| - |r|])
    decreases |s|
  {
    if |s| > 0 && IsWs(s[0]) then TrimStart(s[1..]) else s
  }

  /** `trimStart` removes exactly a whitespace prefix that is followed by a
      non-whitespace character or by nothing. */
  lemma {:induction false} TrimStartAfterWs(w: string, t: string)
    requires AllWs(w)
    requires t == [] || !IsWs(t[0])
    ensures TrimStart(w + t) == t
    decreases |w|
  {
    if w == [] {
      assert w + t == t;
    } else {
      assert (w + t)[0] == w[0];
      assert (w + t)[1..] == w[1..] + t;
      TrimStartAfterWs(w[1..], t);
    }
  }

  /** `trimEnd`: the longest prefix of `s` that does not end with whitespace. */
  function TrimEnd(s: string): (r: string)
    ensures |r| <= |s| && r == s[..|r|]
    ensures r == [] || !IsWs(r[|r| - 1])
    ensures AllWs(s[|r|..])
    decreases |s|
  {
    if |s| > 0 && IsWs(s[|s| - 1]) then TrimEnd(s[..|s| - 1]) else s
  }

  /** `String.prototype.trim`. */
  function Trim(s: string): (r: string)
    ensures r == [] || (!IsWs(r[0]) && !IsWs(r[|r| - 1]))
    ensures r == [] <==> AllWs(s)
  {
    var t := TrimStart(s);
    var r := TrimEnd(t);
    if r == [] then
      assert t[|r|..] == t;
      assert s[..|s| - |t|] == s;
      r
    else
      assert r[0] == s[|s| - |t|];
      r
  }

  /** `sep` occurs in `s` starting at index `k`. */
  predicate OccursAt(s: string, sep: string, k: int) {
    0 <= k && k + |sep| <= |s| && s[k..k + |sep|] == sep
  }

  /** Index of the leftmost occurrence of `sep` in `s`, or `|s|` when there is none. */
  function IndexOf(s: string, sep: string): (j: nat)
    requires |sep| > 0
    ensures j <= |s|
    ensures j < |s| ==> OccursAt(s, sep, j)
    ensures forall k :: 0 <= k < j ==> !OccursAt(s, sep, k)
    decreases |s|
  {
    if |s| < |sep| then |s|
    else if s[..|sep|] == sep then 0
    else
      var j := IndexOf(s[1..], sep);
      assert forall k :: 1 <= k < 1 + j ==> !OccursAt(s, sep, k) by {
        forall k | 1 <= k < 1 + j ensures !OccursAt(s, sep, k) {
          if OccursAt(s, sep, k) {
            assert s[k..k + |sep|] == s[1..][k - 1..k - 1 + |sep|];
            assert OccursAt(s[1..], sep, k - 1);
          }
        }
      }
      assert j < |s| - 1 ==> OccursAt(s, sep, 1 + j) by {
        if j < |s| - 1 { assert s[1 + j..1 + j + |sep|] == s[1..][j..j + |sep|]; }
      }
      1 + j
  }

  /** `s.split(sep)` for a non-empty literal separator: the pieces between
      successive leftmost occurrences of `sep`. */
  function Split(s: string, sep: string): (parts: seq<string>)
    requires |sep| > 0
    ensures |parts| >= 1
    decreases |s|
  {
    var j := IndexOf(s, sep);
    if j == |s| then [s] else [s[..j]] + Split(s[j + |sep|..], sep)
  }

  /** `split` with no occurrence of `sep` is the whole string. */
  lemma SplitNone(s: string, sep: string, j: nat)
    requires |sep| > 0 && j == IndexOf(s, sep)
    ensures j == |s| ==> Split(s, sep) == [s]
  {
  }

  /** One step of `split`: the first piece ends at the leftmost occurrence `j`. */
  lemma SplitUnfold(s: string, sep: string, j: nat)
    requires |sep| > 0 && j == IndexOf(s, sep)
    ensures j < |s| ==> Split(s, sep) == [s[..j]] + Split(s[j + |sep|..], sep)
  {
  }

  /** `parts.join(sep)`. */
  function Join(parts: seq<string>, sep: string): string
    requires |parts| >= 1
    decreases |parts|
  {
    if |parts| == 1 then parts[0] else parts[0] + sep + Join(parts[1..], sep)
  }

  /** Joining a piece in front of at least one other piece. */
  lemma JoinCons(p: string, ps: seq<string>, sep: string)
    requires |ps| >= 1
    ensures Join([p] + ps, sep) == p + sep + Join(ps, sep)
  {
    assert ([p] + ps)[1..] == ps;
  }

  /** An occurrence of `sep` at `j` cuts `s` into three pieces. */
  lemma CutAt(s: string, sep: string, j: nat)
    requires OccursAt(s, sep, j)
    ensures s == s[..j] + sep + s[j + |sep|..]
  {
    assert s == s[..j] + s[j..j + |sep|] + s[j + |sep|..];
  }

  /** Splitting and re-joining with the same separator is the identity. */
  lemma {:induction false} JoinSplit(s: string, sep: string)
    requires |sep| > 0
    ensures Join(Split(s, sep), sep) == s
    decreases |s|
  {
    var j := IndexOf(s, sep);
    SplitNone(s, sep, j);
    SplitUnfold(s, sep, j);
    if j < |s| {
      var rest := s[j + |sep|..];
      JoinCons(s[..j], Split(rest, sep), sep);
      JoinSplit(rest, sep);
      CutAt(s, sep, j);
    }
  }

  /** Number of occurrences of `c` in `s`. */
  function Count(s: string, c: char): nat
    decreases |s|
  {
    if |s| == 0 then 0 else (if s[0] == c then 1 else 0) + Count(s[1..], c)
  }

  /** Splitting on a one-character separator yields one more piece than the
      separator has occurrences. */
  lemma {:induction false} SplitCharCount(s: string, c: char)
    ensures |Split(s, [c])| == Count(s, c) + 1
    decreases |s|
  {
    var j := IndexOf(s, [c]);
    forall k | 0 <= k < j ensures s[..j][k] != c {
      assert !OccursAt(s, [c], k);
      assert s[k..k + 1] == [s[k]];
    }
    CountNoOccurrence(s[..j], c);
    if j < |s| {
      SplitCharCount(s[j + 1..], c);
      assert Split(s, [c]) == [s[..j]] + Split(s[j + 1..], [c]);
      assert s[j..j + 1] == [c];
      assert s == s[..j] + ([c] + s[j + 1..]);
      CountAppend(s[..j], [c] + s[j + 1..], c);
      CountAppend([c], s[j + 1..], c);
    } else {
      assert s[..j] == s;
    }
  }

  lemma {:induction false} CountNoOccurrence(s: string, c: char)
    requires forall k :: 0 <= k < |s| ==> s[k] != c
    ensures Count(s, c) == 0
    decreases |s|
  {
    if |s| > 0 {
      CountNoOccurrence(s[1..], c);
    }
  }

  lemma {:induction false} CountAppend(a: string, b: string, c: char)
    ensures Count(a + b, c) == Count(a, c) + Count(b, c)
    decreases |a|
  {
    if |a| > 0 {
      CountAppend(a[1..], b, c);
      assert (a + b)[0] == a[0];
      assert (a + b)[1..] == a[1..] + b;
    } else {
      assert a + b == b;
    }
  }

  /** `s.includes(q)`: some occurrence of `q` starts in `s`. */
  function Contains(s: string, q: string): (b: bool)
    ensures b <==> exists k :: OccursAt(s, q, k)
    decreases |s|
  {
    if |q| > |s| then false
    else if s[..|q|] == q then assert OccursAt(s, q, 0); true
    else
      var b := Contains(s[1..], q);
      assert b ==> exists k :: OccursAt(s, q, k) by {
        if b {
          var k :| OccursAt(s[1..], q, k);
          assert s[k + 1..k + 1 + |q|] == s[1..][k..k + |q|];
          assert OccursAt(s, q, k + 1);
        }
      }
      assert (exists k :: OccursAt(s, q, k)) ==> b by {
        if exists k :: OccursAt(s, q, k) {
          var k :| OccursAt(s, q, k);
          assert k != 0;
          assert s[1..][k - 1..k - 1 + |q|] == s[k..k + |q|];
          assert OccursAt(s[1..], q, k - 1);
        }
      }
      b
  }
  /** A character outside the Basic Multilingual Plane, which UTF-16
      writes as a surrogate pair. */
  predicate IsAstral(c: char) { c as int >= 0x1_0000 }

  /** `s.length`: the number of UTF-16 code units, two for each astral
      character and one for every other. */
  function Utf16Length(s: string): (n: nat)
    ensures |s| <= n <= 2 * |s|
    ensures n == |s| <==> forall i :: 0 <= i < |s| ==> !IsAstral(s[i])
    ensures n == 2 * |s| <==> forall i :: 0 <= i < |s| ==> IsAstral(s[i])
    decreases |s|
  {
    if |s| == 0 then 0
    else
      assert forall i :: 1 <= i < |s| ==> s[i] == s[1..][i - 1];
      (if IsAstral(s[0]) then 2 else 1) + Utf16Length(s[1..])
  }

  /** The code units of a concatenation are those of its parts. */
  lemma {:induction false} Utf16LengthAppend(a: string, b: string)
    ensures Utf16Length(a + b) == Utf16Length(a) + Utf16Length(b)
    decreases |a|
  {
    if a == [] {
      assert a + b == b;
    } else {
      assert (a + b)[0] == a[0];
      assert (a + b)[1..] == a[1..] + b;
      Utf16LengthAppend(a[1..], b);
    }
  }
}
