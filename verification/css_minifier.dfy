/**
 * The CSS minifier page: `minifyCss` applies six fixed regular-expression
 * replacements in sequence. Each is written out here as a front-to-back
 * scan with the same leftmost-first, continue-after-the-match behaviour as
 * `String.prototype.replace` with the `g` flag.
 */
module CssMinifier {
  import Text

  // ---------------------------------------------------------------------
  // Step 1: /\/\*[\s\S]*?\*\/|([^:]|^)\/\/.*$/gm  ->  ''
  // ---------------------------------------------------------------------

  /** The first `*` `/` pair at or after `from`, or `|s|` when there is none:
      where the lazy `[\s\S]*?\*\/` stops. */
  function CloseAt(s: string, from: nat): (k: nat)
    requires from <= |s|
    ensures from <= k <= |s|
    ensures k < |s| ==> k + 1 < |s| && s[k] == '*' && s[k + 1] == '/'
    ensures forall j :: from <= j < k && j + 1 < |s| ==> !(s[j] == '*' && s[j + 1] == '/')
    decreases |s| - from
  {
    if from + 1 >= |s| then |s|
    else if s[from] == '*' && s[from + 1] == '/' then from
    else CloseAt(s, from + 1)
  }

  /** The first line terminator at or after `from`, or `|s|`: where the
      greedy `.*` stops and `$` holds under the `m` flag. */
  function LineEnd(s: string, from: nat): (k: nat)
    requires from <= |s|
    ensures from <= k <= |s|
    ensures k < |s| ==> Text.IsLineTerminator(s[k])
    ensures forall j :: from <= j < k ==> !Text.IsLineTerminator(s[j])
    decreases |s| - from
  {
    if from == |s| || Text.IsLineTerminator(s[from]) then from else LineEnd(s, from + 1)
  }

  /** Comment removal over the rest `s` of the input; `bol` says whether `^`
      holds at its start (start of input, or just after a line terminator).
      At each position the alternatives are tried in the regex's order: a
      block comment, then any non-':' character followed by `//` up to the
      end of the line, then `//` at a line start. The scan steps over
      characters, where the page's `[^:]` takes one UTF-16 code unit. */
  function StripComments(s: string, bol: bool): (r: string)
    ensures |r| <= |s|
    decreases |s|
  {
    if |s| == 0 then []
    else if |s| >= 2 && s[0] == '/' && s[1] == '*' && CloseAt(s, 2) < |s| then
      StripComments(s[CloseAt(s, 2) + 2..], false)
    else if |s| >= 3 && s[0] != ':' && s[1] == '/' && s[2] == '/' then
      StripComments(s[LineEnd(s, 3)..], false)
    else if bol && |s| >= 2 && s[0] == '/' && s[1] == '/' then
      StripComments(s[LineEnd(s, 2)..], false)
    else
      [s[0]] + StripComments(s[1..], Text.IsLineTerminator(s[0]))
  }

  /** `body` holds no `*` `/` pair. */
  predicate NoClose(body: string) {
    forall j :: 0 <= j < |body| - 1 ==> !(body[j] == '*' && body[j + 1] == '/')
  }

  /** A block comment is removed up to the FIRST closing `*` `/` (the lazy
      match), and scanning resumes right after it. */
  lemma BlockCommentRemoved(body: string, rest: string, bol: bool)
    requires NoClose(body)
    ensures StripComments("/*" + body + "*/" + rest, bol) == StripComments(rest, false)
  {
    var s := "/*" + body + "*/" + rest;
    var k := 2 + |body|;
    assert s[k] == '*' && s[k + 1] == '/';
    forall j | 2 <= j < k && j + 1 < |s| ensures !(s[j] == '*' && s[j + 1] == '/') {
      if j < k - 1 {
        assert s[j] == body[j - 2] && s[j + 1] == body[j - 1];
      } else {
        assert s[j + 1] == '*';
      }
    }
    assert CloseAt(s, 2) == k;
    assert s[k + 2..] == rest;
  }

  /** `([^:])\/\/.*$`: a `//` comment is removed up to the end of its line
      together with the one character before it, when that is not ':'. */
  lemma LineCommentRemoved(x: char, line: string, rest: string, bol: bool)
    requires x != ':'
    requires forall j :: 0 <= j < |line| ==> !Text.IsLineTerminator(line[j])
    requires rest == [] || Text.IsLineTerminator(rest[0])
    ensures StripComments([x] + "//" + line + rest, bol) == StripComments(rest, false)
  {
    var s := [x] + "//" + line + rest;
    assert s[1] == '/' && s[2] == '/';
    forall j | 3 <= j < 3 + |line| ensures !Text.IsLineTerminator(s[j]) {
      assert s[j] == line[j - 3];
    }
    if rest != [] { assert s[3 + |line|] == rest[0]; }
    assert LineEnd(s, 3) == 3 + |line|;
    assert s[3 + |line|..] == rest;
  }

  /** A `//` right after ':' (as in `url(http://...)`) is kept, provided the
      text after it does not itself start another comment. */
  lemma ColonProtectsSlashes(t: string, bol: bool)
    requires t == [] || (t[0] != '/' && t[0] != '*')
    ensures StripComments("://" + t, bol) == "://" + StripComments(t, false)
  {
    var s := "://" + t;
    assert s[1..] == "//" + t;
    assert s[2..] == "/" + t;
    assert s[3..] == t;
    assert StripComments(s, bol) == [':'] + StripComments(s[1..], false);
    assert StripComments(s[1..], false) == ['/'] + StripComments(s[2..], false);
    assert StripComments(s[2..], false) == ['/'] + StripComments(t, false);
  }

  // ---------------------------------------------------------------------
  // Steps 2-6: whitespace
  // ---------------------------------------------------------------------

  /** Adjacent pairs the minified output must not contain. */
  datatype Rule = DoubleWs | WsAfter(c: char) | WsBefore(c: char)

  predicate Bad(rule: Rule, a: char, b: char) {
    match rule
    case DoubleWs => Text.IsWs(a) && Text.IsWs(b)
    case WsAfter(c) => a == c && Text.IsWs(b)
    case WsBefore(c) => Text.IsWs(a) && b == c
  }

  predicate Avoids(s: string, rule: Rule) {
    forall i :: 0 <= i < |s| - 1 ==> !Bad(rule, s[i], s[i + 1])
  }

  /** The non-whitespace characters of `s`, in order. */
  function NonWs(s: string): (r: string)
    ensures |r| <= |s|
    decreases |s|
  {
    if |s| == 0 then [] else (if Text.IsWs(s[0]) then [] else [s[0]]) + NonWs(s[1..])
  }

  lemma AvoidsCons(x: char, t: string, rule: Rule)
    ensures Avoids([x] + t, rule) <==> Avoids(t, rule) && (|t| > 0 ==> !Bad(rule, x, t[0]))
  {
    var s := [x] + t;
    if Avoids(t, rule) && (|t| > 0 ==> !Bad(rule, x, t[0])) {
      forall i | 0 <= i < |s| - 1 ensures !Bad(rule, s[i], s[i + 1]) {
        if i > 0 { assert s[i] == t[i - 1] && s[i + 1] == t[i]; }
      }
    }
    if Avoids(s, rule) {
      if |t| > 0 { assert s[0] == x && s[1] == t[0]; }
      forall i | 0 <= i < |t| - 1 ensures !Bad(rule, t[i], t[i + 1]) {
        assert s[i + 1] == t[i] && s[i + 2] == t[i + 1];
      }
    }
  }

  lemma AvoidsSuffix(s: string, k: nat, rule: Rule)
    requires k <= |s| && Avoids(s, rule)
    ensures Avoids(s[k..], rule)
  {
    forall i | 0 <= i < |s[k..]| - 1 ensures !Bad(rule, s[k..][i], s[k..][i + 1]) {
      assert s[k..][i] == s[k + i] && s[k..][i + 1] == s[k + i + 1];
    }
  }

  /** Dropping leading whitespace keeps the non-whitespace characters. */
  lemma {:induction false} NonWsTrimStart(s: string)
    ensures NonWs(Text.TrimStart(s)) == NonWs(s)
    decreases |s|
  {
    if |s| > 0 && Text.IsWs(s[0]) {
      NonWsTrimStart(s[1..]);
    }
  }

  lemma NonWsCons(x: char, t: string)
    ensures NonWs([x] + t) == (if Text.IsWs(x) then [] else [x]) + NonWs(t)
  {
    assert ([x] + t)[1..] == t;
  }

  /** `/\s+/g -> ' '`: every maximal whitespace run becomes one space. */
  function CollapseWs(s: string): (r: string)
    ensures |r| <= |s|
    ensures |s| > 0 ==> |r| > 0 && (Text.IsWs(r[0]) <==> Text.IsWs(s[0]))
    ensures forall i :: 0 <= i < |r| && Text.IsWs(r[i]) ==> r[i] == ' '
    decreases |s|
  {
    if |s| == 0 then []
    else if Text.IsWs(s[0]) then [' '] + CollapseWs(Text.TrimStart(s))
    else [s[0]] + CollapseWs(s[1..])
  }

  /** After collapsing, no two whitespace characters are adjacent, and the
      non-whitespace characters are those of the input, in order. */
  lemma {:induction false} CollapseWsProperties(s: string)
    ensures Avoids(CollapseWs(s), DoubleWs)
    ensures NonWs(CollapseWs(s)) == NonWs(s)
    decreases |s|
  {
    if |s| > 0 {
      if Text.IsWs(s[0]) {
        var t := Text.TrimStart(s);
        CollapseWsProperties(t);
        AvoidsCons(' ', CollapseWs(t), DoubleWs);
        NonWsTrimStart(s);
        assert NonWs(CollapseWs(s)) == NonWs(CollapseWs(t));
      } else {
        CollapseWsProperties(s[1..]);
        AvoidsCons(s[0], CollapseWs(s[1..]), DoubleWs);
      }
    }
  }

  /** `c\s+ -> c` with `c` one of `{`, `:`: whitespace right after `c` goes. */
  function StripAfter(s: string, c: char): (r: string)
    requires !Text.IsWs(c)
    ensures |r| <= |s|
    ensures |s| > 0 ==> |r| > 0 && r[0] == s[0]
    decreases |s|
  {
    if |s| == 0 then []
    else if s[0] == c && |s| > 1 && Text.IsWs(s[1]) then [c] + StripAfter(Text.TrimStart(s[1..]), c)
    else [s[0]] + StripAfter(s[1..], c)
  }

  /** After `StripAfter(s, c)` no whitespace follows `c`. */
  lemma {:induction false} StripAfterClears(s: string, c: char)
    requires !Text.IsWs(c)
    ensures Avoids(StripAfter(s, c), WsAfter(c))
    decreases |s|
  {
    if |s| > 0 {
      if s[0] == c && |s| > 1 && Text.IsWs(s[1]) {
        var t := Text.TrimStart(s[1..]);
        StripAfterClears(t, c);
        AvoidsCons(c, StripAfter(t, c), WsAfter(c));
      } else {
        StripAfterClears(s[1..], c);
        AvoidsCons(s[0], StripAfter(s[1..], c), WsAfter(c));
      }
    }
  }

  /** `StripAfter` keeps every pair rule its input kept. */
  lemma {:induction false} StripAfterPreserves(s: string, c: char, rule: Rule)
    requires !Text.IsWs(c)
    requires Avoids(s, rule)
    ensures Avoids(StripAfter(s, c), rule)
    decreases |s|
  {
    if |s| > 0 {
      if s[0] == c && |s| > 1 && Text.IsWs(s[1]) {
        var t := Text.TrimStart(s[1..]);
        AvoidsSuffix(s, |s| - |t|, rule);
        assert s[|s| - |t|..] == t;
        StripAfterPreserves(t, c, rule);
        AvoidsCons(c, StripAfter(t, c), rule);
      } else {
        AvoidsTail(s, rule);
        StripAfterPreserves(s[1..], c, rule);
        AvoidsCons(s[0], StripAfter(s[1..], c), rule);
      }
    }
  }

  /** `StripAfter` keeps the non-whitespace characters, in order. */
  lemma {:induction false} StripAfterNonWs(s: string, c: char)
    requires !Text.IsWs(c)
    ensures NonWs(StripAfter(s, c)) == NonWs(s)
    decreases |s|
  {
    if |s| > 0 {
      if s[0] == c && |s| > 1 && Text.IsWs(s[1]) {
        var t := Text.TrimStart(s[1..]);
        StripAfterNonWs(t, c);
        NonWsTrimStart(s[1..]);
      } else {
        StripAfterNonWs(s[1..], c);
      }
    }
  }

  /** `s` starts with a whitespace run that is followed by `c`. */
  predicate RunThen(s: string, c: char) {
    |s| > 0 && Text.IsWs(s[0]) && var t := Text.TrimStart(s); |t| > 0 && t[0] == c
  }

  /** `\s+c -> c` with `c` one of `}`, `;`: whitespace right before `c` goes. */
  function StripBefore(s: string, c: char): (r: string)
    requires !Text.IsWs(c)
    ensures |r| <= |s|
    ensures |s| > 0 ==> |r| > 0 && r[0] == (if RunThen(s, c) then c else s[0])
    decreases |s|
  {
    if |s| == 0 then []
    else if RunThen(s, c) then [c] + StripBefore(Text.TrimStart(s)[1..], c)
    else [s[0]] + StripBefore(s[1..], c)
  }

  /** A whitespace run starting at `s[0]` is the one starting at `s[1]`. */
  lemma RunThenTail(s: string, c: char)
    requires |s| > 1 && Text.IsWs(s[0])
    ensures Text.TrimStart(s) == Text.TrimStart(s[1..])
    ensures RunThen(s[1..], c) ==> RunThen(s, c)
  {
  }

  /** After `StripBefore(s, c)` no whitespace precedes `c`. */
  lemma {:induction false} StripBeforeClears(s: string, c: char)
    requires !Text.IsWs(c)
    ensures Avoids(StripBefore(s, c), WsBefore(c))
    decreases |s|
  {
    if |s| > 0 {
      if RunThen(s, c) {
        var u := Text.TrimStart(s)[1..];
        StripBeforeClears(u, c);
        AvoidsCons(c, StripBefore(u, c), WsBefore(c));
      } else {
        var u := s[1..];
        StripBeforeClears(u, c);
        AvoidsCons(s[0], StripBefore(u, c), WsBefore(c));
        if |u| > 0 && Text.IsWs(s[0]) {
          RunThenTail(s, c);
        }
      }
    }
  }

  /** A string that keeps a pair rule keeps it after its first character,
      and its first pair is not bad. */
  lemma AvoidsTail(s: string, rule: Rule)
    requires |s| > 0 && Avoids(s, rule)
    ensures Avoids(s[1..], rule)
    ensures |s| > 1 ==> !Bad(rule, s[0], s[1])
  {
    AvoidsSuffix(s, 1, rule);
  }

  /** What `StripBefore` keeps after dropping a whitespace run and `c`. */
  lemma RunThenAvoids(s: string, c: char, rule: Rule)
    requires RunThen(s, c) && Avoids(s, rule)
    ensures var u := Text.TrimStart(s)[1..];
      Avoids(u, rule) && (|u| > 0 ==> !Bad(rule, c, u[0]))
  {
    var t := Text.TrimStart(s);
    AvoidsSuffix(s, |s| - |t|, rule);
    assert s[|s| - |t|..] == t;
    AvoidsTail(t, rule);
  }

  /** `StripBefore` keeps every pair rule its input kept. */
  lemma {:induction false} StripBeforePreserves(s: string, c: char, rule: Rule)
    requires !Text.IsWs(c)
    requires Avoids(s, rule)
    ensures Avoids(StripBefore(s, c), rule)
    decreases |s|
  {
    if |s| > 0 {
      if RunThen(s, c) {
        var u := Text.TrimStart(s)[1..];
        RunThenAvoids(s, c, rule);
        StripBeforePreserves(u, c, rule);
        AvoidsCons(c, StripBefore(u, c), rule);
      } else {
        var u := s[1..];
        AvoidsTail(s, rule);
        StripBeforePreserves(u, c, rule);
        AvoidsCons(s[0], StripBefore(u, c), rule);
        if |u| > 0 && Text.IsWs(s[0]) { RunThenTail(s, c); }
      }
    }
  }

  /** `StripBefore` keeps the non-whitespace characters, in order. */
  lemma {:induction false} StripBeforeNonWs(s: string, c: char)
    requires !Text.IsWs(c)
    ensures NonWs(StripBefore(s, c)) == NonWs(s)
    decreases |s|
  {
    if |s| > 0 {
      if RunThen(s, c) {
        var t := Text.TrimStart(s);
        var u := t[1..];
        StripBeforeNonWs(u, c);
        NonWsCons(c, StripBefore(u, c));
        NonWsTrimStart(s);
        assert t == [c] + u;
        NonWsCons(c, u);
      } else {
        StripBeforeNonWs(s[1..], c);
        NonWsCons(s[0], StripBefore(s[1..], c));
        NonWsCons(s[0], s[1..]);
        assert [s[0]] + s[1..] == s;
      }
    }
  }

  // ---------------------------------------------------------------------
  // minifyCss
  // ---------------------------------------------------------------------

  /** `minifyCss`: the six replacements in the source's order. */
  function Minify(css: string): (out: string)
    ensures |out| <= |css|
  {
    var s1 := StripComments(css, true);
    var s2 := CollapseWs(s1);
    var s3 := StripAfter(s2, '{');
    var s4 := StripBefore(s3, '}');
    var s5 := StripAfter(s4, ':');
    StripBefore(s5, ';')
  }

  /** The minified output has no two adjacent whitespace characters, none
      after `{` or `:`, none before `}` or `;`, and keeps the non-whitespace
      characters that survive comment removal, in order. */
  lemma MinifyProperties(css: string)
    ensures var out := Minify(css);
      && Avoids(out, DoubleWs)
      && Avoids(out, WsAfter('{')) && Avoids(out, WsAfter(':'))
      && Avoids(out, WsBefore('}')) && Avoids(out, WsBefore(';'))
      && NonWs(out) == NonWs(StripComments(css, true))
  {
    var s1 := StripComments(css, true);
    var s2 := CollapseWs(s1);
    var s3 := StripAfter(s2, '{');
    var s4 := StripBefore(s3, '}');
    var s5 := StripAfter(s4, ':');
    var s6 := StripBefore(s5, ';');
    CollapseWsProperties(s1);
    StripAfterClears(s2, '{');
    StripAfterPreserves(s2, '{', DoubleWs);
    StripAfterNonWs(s2, '{');
    StripBeforeClears(s3, '}');
    StripBeforePreserves(s3, '}', DoubleWs);
    StripBeforePreserves(s3, '}', WsAfter('{'));
    StripBeforeNonWs(s3, '}');
    StripAfterClears(s4, ':');
    StripAfterPreserves(s4, ':', DoubleWs);
    StripAfterPreserves(s4, ':', WsAfter('{'));
    StripAfterPreserves(s4, ':', WsBefore('}'));
    StripAfterNonWs(s4, ':');
    StripBeforeClears(s5, ';');
    StripBeforePreserves(s5, ';', DoubleWs);
    StripBeforePreserves(s5, ';', WsAfter('{'));
    StripBeforePreserves(s5, ';', WsBefore('}'));
    StripBeforePreserves(s5, ';', WsAfter(':'));
    StripBeforeNonWs(s5, ';');
  }
}
