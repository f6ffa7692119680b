/**
 * The regex tester page: the flags box filter (`handleFlagsChange`) and the
 * match/highlight computation (`updateMatches`) for the global and
 * non-global cases and the invalid-pattern case.
 *
 * The ECMAScript RegExp engine is not modelled. `new RegExp(pattern, flags)`
 * is a parameter `compile` that either fails with a message or yields an
 * `Exec`: the result of `regex.exec(subject)` as a function of the regex's
 * `lastIndex`. The only facts assumed about it are those RegExpBuiltinExec
 * (section 22.2.7.2 of ECMA-262) guarantees, collected in `WellBehaved`.
 */
module RegexTester {
  import opened Wrappers
  import Text

  // ---------------------------------------------------------------------
  // Flags box
  // ---------------------------------------------------------------------

  /** The characters `[^gimyus]` does not remove. */
  predicate IsFlagChar(c: char) {
    c == 'g' || c == 'i' || c == 'm' || c == 'y' || c == 'u' || c == 's'
  }

  /** `a` can be obtained from `b` by deleting characters. */
  predicate IsSubsequence(a: string, b: string)
    decreases |b|
  {
    if |a| == 0 then true
    else if |b| == 0 then false
    else if a[0] == b[0] then IsSubsequence(a[1..], b[1..])
    else IsSubsequence(a, b[1..])
  }

  /** `value.replace(/[^gimyus]/g, '')`: keeps every flag character, in
      order, with its multiplicity, and nothing else. */
  function SanitizeFlags(input: string): (flags: string)
    ensures forall i :: 0 <= i < |flags| ==> IsFlagChar(flags[i])
    ensures IsSubsequence(flags, input)
    ensures forall c :: Text.Count(flags, c) == if IsFlagChar(c) then Text.Count(input, c) else 0
    decreases |input|
  {
    if |input| == 0 then []
    else
      var rest := SanitizeFlags(input[1..]);
      if IsFlagChar(input[0]) then [input[0]] + rest else rest
  }

  /** Filtering an already filtered flag string changes nothing. */
  lemma {:induction false} SanitizeFlagsIdempotent(input: string)
    ensures SanitizeFlags(SanitizeFlags(input)) == SanitizeFlags(input)
    decreases |input|
  {
    if |input| > 0 {
      SanitizeFlagsIdempotent(input[1..]);
      var rest := SanitizeFlags(input[1..]);
      if IsFlagChar(input[0]) {
        assert ([input[0]] + rest)[1..] == rest;
      }
    }
  }

  // ---------------------------------------------------------------------
  // The abstract matcher
  // ---------------------------------------------------------------------

  /** What `regex.exec(subject)` reports on success: the start of the match
      (`match.index`), its length (`match[0].length`), both counted in
      characters of the subject here, and the
      capture groups `match.slice(1)`, `None` for a group that did not
      participate. */
  datatype ExecResult = ExecResult(index: nat, length: nat, groups: seq<Option<string>>)

  /** `regex.exec(subject)` with `regex.lastIndex == from`. */
  type Exec = (string, nat) -> Option<ExecResult>

  /** Outcome of `new RegExp(pattern, flags)`: a compiled matcher, or the
      message of the thrown `SyntaxError`. */
  datatype Compiled = Compiled(exec: Exec) | SyntaxError(message: string)

  /** The guarantee of RegExpBuiltinExec for one search from `from`: it fails
      when `from` is past the end of the subject, and a match starts at or
      after `from` and ends inside the subject. */
  predicate ExecStep(r: Option<ExecResult>, from: nat, n: nat) {
    && (from > n ==> r.None?)
    && (r.Some? ==> from <= r.value.index && r.value.index + r.value.length <= n)
  }

  ghost predicate WellBehaved(exec: Exec, subject: string) {
    forall from: nat :: ExecStep(exec(subject, from), from, |subject|)
  }

  // ---------------------------------------------------------------------
  // Results
  // ---------------------------------------------------------------------

  /** One entry of `matchResults`. */
  datatype MatchRecord = MatchRecord(fullMatch: string, index: nat, groups: seq<Option<string>>)

  /** One entry of `parts`: a plain substring or a `<mark>` around a match. */
  datatype Part = Gap(text: string) | Mark(text: string)

  /** `highlightedText`: the bare subject, or the fragment of `parts`. */
  datatype Highlighted = Plain(text: string) | Parts(parts: seq<Part>)

  /** The page state `updateMatches` sets: `regexError`, `matchResults`,
      `highlightedText`. */
  datatype View = View(error: string, matches: seq<MatchRecord>, highlighted: Highlighted)

  /** The text the parts show, markers stripped. */
  function Concat(parts: seq<Part>): string
    decreases |parts|
  {
    if |parts| == 0 then "" else parts[0].text + Concat(parts[1..])
  }

  lemma {:induction false} ConcatAppend(a: seq<Part>, b: seq<Part>)
    ensures Concat(a + b) == Concat(a) + Concat(b)
    decreases |a|
  {
    if |a| > 0 {
      assert (a + b)[1..] == a[1..] + b;
      ConcatAppend(a[1..], b);
    } else {
      assert a + b == b;
    }
  }

  lemma SliceSplit(s: string, a: nat, b: nat, c: nat)
    requires a <= b <= c <= |s|
    ensures s[a..c] == s[a..b] + s[b..c]
  {
  }

  lemma ConcatSingle(p: Part)
    ensures Concat([p]) == p.text
  {
    assert [p][1..] == [];
  }

  /** The texts of the `<mark>` parts, in order. */
  function MarkTexts(parts: seq<Part>): seq<string>
    decreases |parts|
  {
    if |parts| == 0 then []
    else (if parts[0].Mark? then [parts[0].text] else []) + MarkTexts(parts[1..])
  }

  lemma {:induction false} MarkTextsAppend(a: seq<Part>, b: seq<Part>)
    ensures MarkTexts(a + b) == MarkTexts(a) + MarkTexts(b)
    decreases |a|
  {
    if |a| > 0 {
      assert (a + b)[1..] == a[1..] + b;
      MarkTextsAppend(a[1..], b);
    } else {
      assert a + b == b;
    }
  }

  function MatchTexts(ms: seq<MatchRecord>): (texts: seq<string>)
    ensures |texts| == |ms|
    decreases |ms|
  {
    if |ms| == 0 then [] else [ms[0].fullMatch] + MatchTexts(ms[1..])
  }

  /** The text shown in the highlight box, markers stripped. */
  function Rendered(h: Highlighted): string {
    match h
    case Plain(t) => t
    case Parts(ps) => Concat(ps)
  }

  /** The match's text is the subject substring at its index. */
  predicate LocatedAt(m: MatchRecord, s: string) {
    m.index + |m.fullMatch| <= |s| && s[m.index..m.index + |m.fullMatch|] == m.fullMatch
  }

  predicate Located(ms: seq<MatchRecord>, s: string) {
    forall k :: 0 <= k < |ms| ==> LocatedAt(ms[k], s)
  }

  /** Match starts strictly increase and each match starts at or after the
      end of the previous one. */
  predicate Ordered(ms: seq<MatchRecord>) {
    forall k :: 0 <= k < |ms| - 1 ==>
      && ms[k].index < ms[k + 1].index
      && ms[k].index + |ms[k].fullMatch| <= ms[k + 1].index
  }

  // ---------------------------------------------------------------------
  // updateMatches
  // ---------------------------------------------------------------------

  /** What the global loop has produced from a given point on. */
  datatype ScanResult = ScanResult(matches: seq<MatchRecord>, parts: seq<Part>, last: nat)

  /** The `while ((match = regex.exec(s)) !== null)` loop, entered with
      `regex.lastIndex == pos` and the local `lastIndex == last` (the end of
      the previous match). After a zero-length match the search position is
      bumped by one, so `|s| + 1 - pos` decreases and the loop terminates;
      it records at most one match per remaining search position. */
  function Scan(exec: Exec, s: string, pos: nat, last: nat): (r: ScanResult)
    requires WellBehaved(exec, s)
    requires last <= pos <= |s| + 1 && last <= |s|
    ensures last <= r.last <= |s|
    ensures forall k :: 0 <= k < |r.matches| ==> pos <= r.matches[k].index
    ensures |r.matches| <= |s| + 1 - pos
    decreases |s| + 1 - pos
  {
    assert ExecStep(exec(s, pos), pos, |s|);
    match exec(s, pos)
    case None => ScanResult([], [], last)
    case Some(m) =>
      var end := m.index + m.length;
      var text := s[m.index..end];
      var gap := if m.index > last then [Gap(s[last..m.index])] else [];
      var next := if m.length == 0 then end + 1 else end;
      var rest := Scan(exec, s, next, end);
      ScanResult([MatchRecord(text, m.index, m.groups)] + rest.matches, gap + [Mark(text)] + rest.parts, rest.last)
  }

  /** The gaps and marks the loop emits tile the subject from `last` on, and
      the marks are the recorded matches, in order. */
  lemma {:induction false} ScanTiles(exec: Exec, s: string, pos: nat, last: nat)
    requires WellBehaved(exec, s)
    requires last <= pos <= |s| + 1 && last <= |s|
    ensures var r := Scan(exec, s, pos, last);
      && Concat(r.parts) == s[last..r.last]
      && MarkTexts(r.parts) == MatchTexts(r.matches)
    decreases |s| + 1 - pos
  {
    var res := exec(s, pos);
    assert ExecStep(res, pos, |s|);
    if res.Some? {
      var m := res.value;
      var end := m.index + m.length;
      var text := s[m.index..end];
      var gap := if m.index > last then [Gap(s[last..m.index])] else [];
      var next := if m.length == 0 then end + 1 else end;
      var rest := Scan(exec, s, next, end);
      var rec := MatchRecord(text, m.index, m.groups);
      var r := Scan(exec, s, pos, last);
      assert r == ScanResult([rec] + rest.matches, gap + [Mark(text)] + rest.parts, rest.last);
      ScanTiles(exec, s, next, end);
      TilesCons(s, last, m.index, end, rest.last, rest.parts);
      assert ([rec] + rest.matches)[1..] == rest.matches;
    }
  }

  /** One iteration of the loop extends the tiling: the gap before the
      match, then the marked match, then whatever tiles the rest. */
  lemma TilesCons(s: string, last: nat, index: nat, end: nat, restLast: nat, restParts: seq<Part>)
    requires last <= index <= end <= restLast <= |s|
    requires Concat(restParts) == s[end..restLast]
    ensures var gap := if index > last then [Gap(s[last..index])] else [];
      && Concat(gap + [Mark(s[index..end])] + restParts) == s[last..restLast]
      && MarkTexts(gap + [Mark(s[index..end])] + restParts) == [s[index..end]] + MarkTexts(restParts)
  {
    var text := s[index..end];
    var gap := if index > last then [Gap(s[last..index])] else [];
    ConcatAppend(gap + [Mark(text)], restParts);
    ConcatAppend(gap, [Mark(text)]);
    ConcatSingle(Mark(text));
    if index > last {
      ConcatSingle(Gap(s[last..index]));
      SliceSplit(s, last, index, end);
    } else {
      assert gap == [];
      assert Concat(gap) == [];
      assert index == last;
    }
    SliceSplit(s, last, end, restLast);
    MarkTextsAppend(gap + [Mark(text)], restParts);
    MarkTextsAppend(gap, [Mark(text)]);
    assert MarkTexts(gap) == [];
    assert MarkTexts([Mark(text)]) == [text] by { assert [Mark(text)][1..] == []; }
  }

  /** Every match the loop records is the subject substring at its index. */
  lemma {:induction false} ScanLocated(exec: Exec, s: string, pos: nat, last: nat)
    requires WellBehaved(exec, s)
    requires last <= pos <= |s| + 1 && last <= |s|
    ensures Located(Scan(exec, s, pos, last).matches, s)
    decreases |s| + 1 - pos
  {
    var res := exec(s, pos);
    assert ExecStep(res, pos, |s|);
    if res.Some? {
      var m := res.value;
      var end := m.index + m.length;
      var next := if m.length == 0 then end + 1 else end;
      ScanLocated(exec, s, next, end);
      var rest := Scan(exec, s, next, end).matches;
      var rec := MatchRecord(s[m.index..end], m.index, m.groups);
      assert Scan(exec, s, pos, last).matches == [rec] + rest;
      LocatedCons(rec, rest, s);
    }
  }

  lemma LocatedCons(rec: MatchRecord, rest: seq<MatchRecord>, s: string)
    requires rec.index + |rec.fullMatch| <= |s| && rec.fullMatch == s[rec.index..rec.index + |rec.fullMatch|]
    requires Located(rest, s)
    ensures Located([rec] + rest, s)
  {
    var ms := [rec] + rest;
    assert LocatedAt(ms[0], s);
    forall k | 0 < k < |ms| ensures LocatedAt(ms[k], s) {
      assert ms[k] == rest[k - 1];
    }
  }

  /** Match starts strictly increase and no match overlaps the previous one. */
  lemma {:induction false} ScanOrdered(exec: Exec, s: string, pos: nat, last: nat)
    requires WellBehaved(exec, s)
    requires last <= pos <= |s| + 1 && last <= |s|
    ensures Ordered(Scan(exec, s, pos, last).matches)
    decreases |s| + 1 - pos
  {
    var res := exec(s, pos);
    assert ExecStep(res, pos, |s|);
    if res.Some? {
      var m := res.value;
      var end := m.index + m.length;
      var next := if m.length == 0 then end + 1 else end;
      ScanOrdered(exec, s, next, end);
      var rest := Scan(exec, s, next, end).matches;
      var rec := MatchRecord(s[m.index..end], m.index, m.groups);
      assert Scan(exec, s, pos, last).matches == [rec] + rest;
      assert |rec.fullMatch| == m.length;
      OrderedCons(rec, rest, next);
    }
  }

  /** A match that ends by `next`, put in front of matches that start at or
      after `next`. */
  lemma OrderedCons(rec: MatchRecord, rest: seq<MatchRecord>, next: nat)
    requires rec.index < next && rec.index + |rec.fullMatch| <= next
    requires forall k :: 0 <= k < |rest| ==> next <= rest[k].index
    requires Ordered(rest)
    ensures Ordered([rec] + rest)
  {
    var ms := [rec] + rest;
    forall k | 0 <= k < |ms| - 1
      ensures ms[k].index < ms[k + 1].index
      ensures ms[k].index + |ms[k].fullMatch| <= ms[k + 1].index
    {
      assert ms[k + 1] == rest[k];
      if k > 0 {
        assert ms[k] == rest[k - 1];
      }
    }
  }

  /** The subject is shown unmarked when there is nothing to mark. */
  function FinishGlobal(s: string, r: ScanResult): (h: Highlighted)
    requires r.last <= |s|
    requires Concat(r.parts) == s[..r.last]
    ensures Rendered(h) == s
    ensures h.Parts? ==> MarkTexts(h.parts) == MarkTexts(r.parts)
  {
    var parts := if r.last < |s| then r.parts + [Gap(s[r.last..])] else r.parts;
    ConcatAppend(r.parts, [Gap(s[r.last..])]);
    MarkTextsAppend(r.parts, [Gap(s[r.last..])]);
    if |parts| > 0 then Parts(parts) else Plain(s)
  }

  /** The global branch: run the loop from `lastIndex` 0, then append the
      tail after the last match. */
  function GlobalView(exec: Exec, subject: string): (v: View)
    requires WellBehaved(exec, subject)
    ensures v.error == ""
    ensures Rendered(v.highlighted) == subject
    ensures Located(v.matches, subject) && Ordered(v.matches)
    ensures v.highlighted.Parts? ==> MarkTexts(v.highlighted.parts) == MatchTexts(v.matches)
    ensures v.highlighted.Plain? ==> v.matches == []
    ensures |v.matches| <= |subject| + 1
  {
    var r := Scan(exec, subject, 0, 0);
    ScanTiles(exec, subject, 0, 0);
    ScanLocated(exec, subject, 0, 0);
    ScanOrdered(exec, subject, 0, 0);
    assert r.matches != [] ==> MarkTexts(r.parts) != [];
    View("", r.matches, FinishGlobal(subject, r))
  }

  /** The non-global branch: `subject.match(regex)` searches once from 0 and
      shows the subject as prefix, marked match, suffix. */
  function SingleView(exec: Exec, subject: string): (v: View)
    requires WellBehaved(exec, subject)
    ensures v.error == ""
    ensures Rendered(v.highlighted) == subject
    ensures Located(v.matches, subject)
    ensures v.highlighted.Parts? ==> MarkTexts(v.highlighted.parts) == MatchTexts(v.matches)
    ensures v.highlighted.Plain? ==> v.matches == []
    ensures |v.matches| <= 1
  {
    assert ExecStep(exec(subject, 0), 0, |subject|);
    match exec(subject, 0)
    case None => View("", [], Plain(subject))
    case Some(m) =>
      var end := m.index + m.length;
      var text := subject[m.index..end];
      var before := Gap(subject[..m.index]);
      var after := Gap(subject[end..]);
      var parts := [before] + [Mark(text)] + [after];
      ConcatAppend([before] + [Mark(text)], [after]);
      ConcatAppend([before], [Mark(text)]);
      ConcatSingle(before);
      ConcatSingle(Mark(text));
      ConcatSingle(after);
      MarkTextsAppend([before] + [Mark(text)], [after]);
      MarkTextsAppend([before], [Mark(text)]);
      assert MarkTexts([before]) == [] && MarkTexts([after]) == [];
      assert MarkTexts([Mark(text)]) == [text] by { assert [Mark(text)][1..] == []; }
      assert subject == subject[..m.index] + text + subject[end..];
      var rec := MatchRecord(text, m.index, m.groups);
      assert MatchTexts([rec]) == [text] by { assert [rec][1..] == []; }
      View("", [rec], Parts(parts))
  }

  /** `updateMatches(currentRegex, currentFlags, currentTestString)`. */
  function UpdateMatches(compile: (string, string) -> Compiled, pattern: string, flags: string, subject: string): (v: View)
    requires compile(pattern, flags).Compiled? ==> WellBehaved(compile(pattern, flags).exec, subject)
    // The highlight box always shows the subject, whatever the outcome.
    ensures Rendered(v.highlighted) == subject
    ensures Located(v.matches, subject) && Ordered(v.matches)
    ensures v.highlighted.Parts? ==> MarkTexts(v.highlighted.parts) == MatchTexts(v.matches)
    ensures v.highlighted.Plain? ==> v.matches == []
    // An empty pattern is not an error and matches nothing.
    ensures pattern == "" ==> v == View("", [], Plain(subject))
    // A pattern `new RegExp` rejects clears the matches and reports the error.
    ensures pattern != "" && compile(pattern, flags).SyntaxError? ==>
      v == View("Invalid Regex: " + compile(pattern, flags).message, [], Plain(subject))
    ensures v.error != "" <==> pattern != "" && compile(pattern, flags).SyntaxError?
    // Without the `g` flag at most the first match is recorded.
    ensures 'g' !in flags ==> |v.matches| <= 1
    ensures |v.matches| <= |subject| + 1
  {
    if pattern == "" then View("", [], Plain(subject))
    else
      match compile(pattern, flags)
      case SyntaxError(msg) => View("Invalid Regex: " + msg, [], Plain(subject))
      case Compiled(exec) =>
        if 'g' in flags then GlobalView(exec, subject) else SingleView(exec, subject)
  }

  // ---------------------------------------------------------------------
  // Zero-length matches
  // ---------------------------------------------------------------------

  /** The matcher of a pattern such as `x*` on a subject without `x`: an
      empty match at every search position inside the subject. */
  function EmptyAt(t: string, from: nat): (r: Option<ExecResult>)
    ensures ExecStep(r, from, |t|)
  {
    if from <= |t| then Some(ExecResult(from, 0, [])) else None
  }

  /** With a pattern that matches the empty string everywhere, the global
      loop still terminates, and records exactly one empty match at each of
      the positions `pos .. |s|`: `|s| + 1` of them from the start, counting
      positions in characters. */
  lemma {:induction false} ScanEmptyEverywhere(s: string, pos: nat, last: nat)
    requires last <= pos <= |s| + 1 && last <= |s|
    ensures WellBehaved(EmptyAt, s)
    ensures var r := Scan(EmptyAt, s, pos, last);
      && |r.matches| == |s| + 1 - pos
      && forall k :: 0 <= k < |r.matches| ==> r.matches[k].index == pos + k && r.matches[k].fullMatch == ""
    decreases |s| + 1 - pos
  {
    if pos <= |s| {
      ScanEmptyEverywhere(s, pos + 1, pos);
      var rest := Scan(EmptyAt, s, pos + 1, pos);
      assert EmptyAt(s, pos) == Some(ExecResult(pos, 0, []));
      assert s[pos..pos] == "";
      var r := Scan(EmptyAt, s, pos, last);
      assert r.matches == [MatchRecord("", pos, [])] + rest.matches;
    }
  }

  // ---------------------------------------------------------------------
  // The match list
  // ---------------------------------------------------------------------

  /** `match.fullMatch || '(empty match)'`. */
  function MatchLabel(m: MatchRecord): (shown: string)
    ensures shown != ""
    ensures m.fullMatch != "" ==> shown == m.fullMatch
    ensures m.fullMatch == "" ==> shown == "(empty match)"
  {
    if m.fullMatch == "" then "(empty match)" else m.fullMatch
  }

  /** `group === undefined ? 'undefined' : group || '(empty group)'`: a group
      that did not participate is shown differently from one that matched
      the empty string. */
  function GroupLabel(g: Option<string>): (shown: string)
    ensures shown != ""
    ensures g.Some? && g.value != "" ==> shown == g.value
    ensures g.None? ==> shown == "undefined"
    ensures g == Some("") ==> shown == "(empty group)"
  {
    match g
    case None => "undefined"
    case Some(t) => if t == "" then "(empty group)" else t
  }
}
