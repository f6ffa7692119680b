/**
 * The home page search: `performSearch` normalises the query, filters the
 * `tools` catalog by name and category and navigates to the first match.
 * Navigation is returned as a value; the no-match path, which calls a
 * `showToast` that the page does not define, is the `NoMatch` result.
 */
module ToolSearch {
  import opened Wrappers
  import Text

  datatype Tool = Tool(name: string, url: string, category: string)

  const Catalog: seq<Tool> := [
    Tool("Unix Timestamp Converter", "unix-timestamp", "Date & Time"),
    Tool("Date Difference Calculator", "date-difference", "Date & Time"),
    Tool("World Clock", "world-clock", "Date & Time"),
    Tool("Case Converter", "case-converter", "Text Tools"),
    Tool("Text Diff Checker", "text-diff", "Text Tools"),
    Tool("Character Count", "character-count", "Text Tools"),
    Tool("Unit Converter", "unit-converter", "Converters"),
    Tool("Base64 Encoder/Decoder", "base64-encoder", "Encoders & Decoders"),
    Tool("JSON Formatter", "json-formatter", "Developer Tools"),
    Tool("HTML Encoder/Decoder", "html-encoder", "Encoders & Decoders"),
    Tool("CSS Minifier", "css-minifier", "Developer Tools"),
    Tool("Color Picker", "color-picker", "Design Tools")
  ]

  /** Lower-casing keeps every character's whitespace status. */
  lemma LowerKeepsWs(s: string)
    ensures forall i :: 0 <= i < |s| ==> (Text.IsWs(Text.Lower(s)[i]) <==> Text.IsWs(s[i]))
  {
  }

  /** `searchInput.value.trim().toLowerCase()`: no surrounding whitespace
      and no upper-case letter. */
  function Query(input: string): (q: string)
    ensures |q| <= |input|
    ensures q == [] <==> Text.AllWs(input)
    ensures q == [] || (!Text.IsWs(q[0]) && !Text.IsWs(q[|q| - 1]))
    ensures forall i :: 0 <= i < |q| ==> !Text.IsAsciiUpper(q[i])
  {
    var t := Text.Trim(input);
    LowerKeepsWs(t);
    Text.Lower(t)
  }

  /** No lower-cased text contains an upper-case letter. */
  lemma LowerHasNoUpper(s: string, q: string, k: int)
    requires Text.OccursAt(Text.Lower(s), q, k)
    ensures forall i :: 0 <= i < |q| ==> !Text.IsAsciiUpper(q[i])
  {
    forall i | 0 <= i < |q| ensures !Text.IsAsciiUpper(q[i]) {
      assert q[i] == Text.Lower(s)[k..k + |q|][i] == Text.Lower(s)[k + i];
    }
  }

  /** The filter's test: the lower-cased name or category contains the
      query. The empty query matches every tool; a query with an upper-case
      letter matches none, since both sides are lower-cased. */
  function Matches(tool: Tool, query: string): (b: bool)
    ensures query == [] ==> b
    ensures b ==> |query| <= |tool.name| || |query| <= |tool.category|
    ensures (exists i :: 0 <= i < |query| && Text.IsAsciiUpper(query[i])) ==> !b
  {
    var b := Text.Contains(Text.Lower(tool.name), query) || Text.Contains(Text.Lower(tool.category), query);
    if query == [] then
      assert Text.OccursAt(Text.Lower(tool.name), query, 0);
      b
    else if b then
      if Text.Contains(Text.Lower(tool.name), query) then
        var k :| Text.OccursAt(Text.Lower(tool.name), query, k);
        LowerHasNoUpper(tool.name, query, k);
        b
      else
        var k :| Text.OccursAt(Text.Lower(tool.category), query, k);
        LowerHasNoUpper(tool.category, query, k);
        b
    else b
  }

  /** `tools.filter(...)`: the matching tools, in catalog order. */
  function Filter(tools: seq<Tool>, query: string): (ms: seq<Tool>)
    ensures |ms| <= |tools|
    ensures forall t :: t in ms ==> t in tools && Matches(t, query)
    decreases |tools|
  {
    if |tools| == 0 then []
    else if Matches(tools[0], query) then [tools[0]] + Filter(tools[1..], query)
    else Filter(tools[1..], query)
  }

  /** Reference: the position of the first matching tool. */
  function FirstMatch(tools: seq<Tool>, query: string): (i: Option<nat>)
    ensures i.Some? ==> i.value < |tools| && Matches(tools[i.value], query)
    ensures i.Some? ==> forall j :: 0 <= j < i.value ==> !Matches(tools[j], query)
    ensures i.None? ==> forall j :: 0 <= j < |tools| ==> !Matches(tools[j], query)
    decreases |tools|
  {
    if |tools| == 0 then None
    else if Matches(tools[0], query) then Some(0)
    else
      match FirstMatch(tools[1..], query)
      case None => None
      case Some(k) => Some(k + 1)
  }

  /** The filter result starts with the first matching tool and is empty
      exactly when nothing matches. */
  lemma {:induction false} FilterStartsAtFirstMatch(tools: seq<Tool>, query: string)
    ensures Filter(tools, query) == [] <==> FirstMatch(tools, query).None?
    ensures FirstMatch(tools, query).Some? ==> Filter(tools, query)[0] == tools[FirstMatch(tools, query).value]
    decreases |tools|
  {
    if |tools| > 0 && !Matches(tools[0], query) {
      FilterStartsAtFirstMatch(tools[1..], query);
    }
  }

  datatype Outcome = TooShort | Navigate(url: string) | NoMatch

  /** `performSearch()` over a tool list: one match or several both
      navigate to the first. */
  function Search(tools: seq<Tool>, input: string): (o: Outcome)
    ensures o == TooShort <==> Text.Utf16Length(Query(input)) < 2
    ensures o.Navigate? ==> exists i :: 0 <= i < |tools| && tools[i].url == o.url
    ensures o.Navigate? ==> FirstMatch(tools, Query(input)).Some?
                            && o == Navigate(tools[FirstMatch(tools, Query(input)).value].url)
    ensures o == NoMatch <==> Text.Utf16Length(Query(input)) >= 2 && FirstMatch(tools, Query(input)).None?
  {
    var query := Query(input);
    if Text.Utf16Length(query) < 2 then TooShort
    else
      var matches := Filter(tools, query);
      FilterStartsAtFirstMatch(tools, query);
      if |matches| == 1 then Navigate(matches[0].url)
      else if |matches| > 1 then Navigate(matches[0].url)
      else NoMatch
  }

  /** `performSearch()` on the home page's catalog: it either does nothing,
      shows the warning, or goes to one of the catalog's pages. */
  function PerformSearch(input: string): (o: Outcome)
    ensures o == TooShort <==> Text.Utf16Length(Query(input)) < 2
    ensures o.Navigate? ==> exists i :: 0 <= i < |Catalog| && Catalog[i].url == o.url
  {
    Search(Catalog, input)
  }

  /** A one-emoji query is one scalar value but two code units, so it
      passes the length check and reaches the filter. */
  lemma EmojiQueryReachesFilter(tools: seq<Tool>)
    ensures |Query("\U{1F600}")| == 1
    ensures Search(tools, "\U{1F600}") != TooShort
  {
    var e := "\U{1F600}";
    assert !Text.IsWs(e[0]) && Text.IsAstral(e[0]);
    assert Text.TrimStart(e) == e;
    assert Text.TrimEnd(e) == e;
  }

  /** A tool is found exactly when its lower-cased name or category
      contains the query. */
  lemma FoundIffContains(tools: seq<Tool>, input: string)
    requires Text.Utf16Length(Query(input)) >= 2
    ensures Search(tools, input) != NoMatch
        <==> exists i :: 0 <= i < |tools| && Matches(tools[i], Query(input))
  {
  }

  lemma TrimOfTrimmed(s: string)
    requires s == [] || (!Text.IsWs(s[0]) && !Text.IsWs(s[|s| - 1]))
    ensures Text.Trim(s) == s
  {
    assert Text.TrimStart(s) == s;
  }

  lemma LowerIdempotent(s: string)
    ensures Text.Lower(Text.Lower(s)) == Text.Lower(s)
  {
  }

  /** Normalising twice is normalising once. */
  lemma QueryIdempotent(input: string)
    ensures Query(Query(input)) == Query(input)
  {
    var t := Text.Trim(input);
    var q := Text.Lower(t);
    LowerKeepsWs(t);
    TrimOfTrimmed(q);
    LowerIdempotent(t);
  }

  /** Searching for the normalised query behaves as searching for the raw
      input. */
  lemma SearchNormalised(tools: seq<Tool>, input: string)
    ensures Search(tools, Query(input)) == Search(tools, input)
  {
    QueryIdempotent(input);
  }
}
