# tools-daily pure transforms in Dafny

This project models the small pure transforms that the tools-daily website's
single-page browser tools compute themselves, and proves what each one
promises. It covers:

- the regex tester's flag filter and its match/highlight computation,
  over an abstract matcher;
- the HTML numeric-entity encoder and decoder;
- the CSS minifier's chain of six regular-expression replacements;
- the case converter, the character/word/line counter and the lorem ipsum
  generator;
- the number base converter, built on `parseInt` and `Number.prototype.toString`;
- the colour picker's `hexToRgb` and `rgbToHsl`;
- the unit converter;
- the Unix timestamp page's fixed-unit arithmetic and relative-time text;
- the password generator;
- the home page's tool search, the tool card's icon rule and the FAQ
  accordion.

There is one module per page or component. Two modules are shared:

- `Wrappers` holds `Option`, which stands for `null`, `NaN` and "no result".
- `Text` holds the ECMAScript string primitives the pages use: the `\s` /
  `trim` whitespace set, ASCII case mapping, `split`/`join` with a literal
  separator, and `includes`.

`Numerals` models `parseInt` (section 19.2.5 of ECMA-262) and
`Number.prototype.toString(radix)` (section 21.1.3.6 of ECMA-262) for
radix 2, 10 and 16.

Each operation is paired with something independent of it:

- an inverse: decode after encode, parse after render, hex to RGB and back,
  unit conversion there and back;
- a character-by-character reference definition: title case, sentence case,
  word count;
- an invariant the operation keeps: tiling of the subject by the highlight
  parts, the whitespace rules of the minifier, at most one open FAQ item.

The regex tester model follows `updateMatches` as written:

- Flags are filtered to `g`, `i`, `m`, `y`, `u`, `s`, so the sticky flag `y`
  is kept.
- An invalid pattern always clears the previous matches.
- An empty pattern is handled before compilation and gives zero matches.
- A pattern such as `(?:)` or `x*`, which matches the empty string everywhere,
  gives one empty match at every position of the subject and one at its end
  in global mode (`RegexTester.ScanEmptyEverywhere`). The model counts
  positions in characters, and the page in UTF-16 code units (see
  "## Left out").

## Model

| member | source | states |
|---|---|---|
| RegexTester.SanitizeFlags | src/pages/regex-tester/index.js:21 | the filtered flags contain only g, i, m, y, u, s; they are a subsequence of the input (order kept); every flag character keeps its exact number of occurrences and every other character has none |
| RegexTester.SanitizeFlagsIdempotent | src/pages/regex-tester/index.js:21 | filtering already-filtered flags changes nothing |
| RegexTester.Scan | src/pages/regex-tester/index.js:51-67 | the global exec loop terminates on every well-behaved matcher, zero-length matches included, because the search position is bumped after an empty match; it records at most one match per remaining search position, every match starts at or after the position the loop was entered with, and the end of the last match stays inside the subject |
| RegexTester.ScanTiles | src/pages/regex-tester/index.js:58-62 | the gap and mark parts the loop pushes, concatenated in order, are exactly the subject from the previous match end up to the last match end, and the marked texts are the recorded matches in order |
| RegexTester.ScanLocated | src/pages/regex-tester/index.js:52-56 | every recorded match's text is the subject substring that starts at its recorded index |
| RegexTester.ScanOrdered | src/pages/regex-tester/index.js:51-66 | match start indices strictly increase and each match starts at or after the end of the previous one, so no two matches overlap |
| RegexTester.FinishGlobal | src/pages/regex-tester/index.js:68-71 | appending the tail after the last match makes the shown text exactly the subject; with no parts the bare subject is shown |
| RegexTester.GlobalView | src/pages/regex-tester/index.js:44-71 | global mode: no error; the highlighted view tiles the subject exactly; matches are located in the subject, strictly ordered and non-overlapping; the marks are the matches in order; at most \|subject\|+1 matches |
| RegexTester.SingleView | src/pages/regex-tester/index.js:73-87 | non-global mode: at most one match, located in the subject; prefix, marked match and suffix tile the subject; without a match the subject is shown unmarked |
| RegexTester.UpdateMatches | src/pages/regex-tester/index.js:32-97 | whatever the outcome, the highlight shows exactly the subject. An empty pattern gives no error, no matches and the plain subject. A pattern the RegExp constructor rejects gives "Invalid Regex: " + message, no matches and the plain subject. An error is shown iff the pattern is non-empty and rejected. Without `g`, at most one match is recorded |
| RegexTester.EmptyAt | src/pages/regex-tester/index.js:64-66 | a matcher that matches the empty string at every position inside the subject satisfies the RegExpBuiltinExec guarantees |
| RegexTester.ScanEmptyEverywhere | src/pages/regex-tester/index.js:51-67 | with such a matcher the global loop still stops, and records exactly one empty match at each position 0..\|subject\|, in order |
| RegexTester.MatchLabel | src/pages/regex-tester/index.js:170 | the match list shows the matched text, or '(empty match)' for an empty match; never an empty label |
| RegexTester.GroupLabel | src/pages/regex-tester/index.js:178 | a non-participating group shows 'undefined', an empty group '(empty group)', any other group its text; the two cases stay distinct |
| RegexTester.ConcatAppend | src/pages/regex-tester/index.js:71 | the text of a part list is the texts of its pieces in order |
| RegexTester.MarkTextsAppend | src/pages/regex-tester/index.js:61 | the marked texts of a part list are those of its pieces in order |
| HtmlEncoder.Decimal | src/pages/html-encoder/index.js:17 | the number in a reference is written with decimal digits only, at least one, and no leading zero |
| HtmlEncoder.DecimalValue | src/pages/html-encoder/index.js:17-30 | reading back the decimal digits written for a number gives that number |
| HtmlEncoder.Encode | src/pages/html-encoder/index.js:14-18 | the encoded text contains only '&', '#', ';' and decimal digits, and is at least 4 times as long as the input |
| HtmlEncoder.EncodeAppend | src/pages/html-encoder/index.js:16-18 | encoding emits one reference per code unit, in input order: encoding a concatenation is the concatenation of the encodings |
| HtmlEncoder.DigitRun | src/pages/html-encoder/index.js:25 | `\d+` takes the longest run of digits: everything before the returned length is a digit, the next character is not |
| HtmlEncoder.EntityAt | src/pages/html-encoder/index.js:25 | a positive result means the text starts with '&#', that many digits and ';' |
| HtmlEncoder.Decode | src/pages/html-encoder/index.js:23-31 | decoding yields at most one code unit per 4 input code units; text without a ';' decodes to nothing, since all text outside references is dropped |
| HtmlEncoder.NoEntityDecodesEmpty | src/pages/html-encoder/index.js:25-31 | text in which no `&#digits;` reference starts anywhere decodes to the empty string |
| HtmlEncoder.EntityDecodesNonEmpty | src/pages/html-encoder/index.js:25-31 | text in which a reference starts somewhere decodes to at least one code unit |
| HtmlEncoder.DecodeEmptyIffNoEntity | src/pages/html-encoder/index.js:25-31 | the decoded text is empty exactly when no `&#digits;` reference occurs in the input |
| HtmlEncoder.DecodeEntityPrefix | src/pages/html-encoder/index.js:17-31 | a text starting with the reference of code unit u decodes to u followed by the decoding of the rest |
| HtmlEncoder.DecodeEncode | src/pages/html-encoder/index.js:14-31 | decoding an encoded text gives the original text back |
| HtmlEncoder.EntityDecodes | src/pages/html-encoder/index.js:30 | a reference `&#n;` with n below 2^53 decodes to the code unit n mod 65536 (the ToUint16 of `String.fromCharCode`, section 22.1.2.1 of ECMA-262) |
| HtmlEncoder.EncodeClicked | src/pages/html-encoder/index.js:14-21 | Encode keeps the input, clears the decoded box, and fills the encoded box with a text that decodes back to the input |
| HtmlEncoder.DecodeClicked | src/pages/html-encoder/index.js:23-34 | Decode keeps the input, clears the encoded box, and fills the decoded box with at most a quarter as many code units as the input |
| CssMinifier.CloseAt | src/pages/css-minifier/index.js:18 | the lazy `[\s\S]*?\*\/` stops at the first `*/` after the opening, and no earlier `*/` exists |
| CssMinifier.LineEnd | src/pages/css-minifier/index.js:18 | `.*$` under the `m` flag stops at the first line terminator, or the end of input |
| CssMinifier.StripComments | src/pages/css-minifier/index.js:18 | comment removal never lengthens the text |
| CssMinifier.BlockCommentRemoved | src/pages/css-minifier/index.js:18 | a block comment is removed up to its first closing `*/`, and scanning resumes right after it |
| CssMinifier.LineCommentRemoved | src/pages/css-minifier/index.js:18 | a `//` comment is removed to the end of its line together with the one character before it, when that character is not ':' |
| CssMinifier.ColonProtectsSlashes | src/pages/css-minifier/index.js:18 | a `//` directly after ':' is kept, unless the text after it starts with '/' or '*' (":///x" still loses "//x") |
| CssMinifier.CollapseWs | src/pages/css-minifier/index.js:19 | every whitespace character left by `/\s+/g -> ' '` is a plain space, the output is never longer, and its first character is whitespace iff the input's is |
| CssMinifier.CollapseWsProperties | src/pages/css-minifier/index.js:19 | after collapsing, no two whitespace characters are adjacent, and the non-whitespace characters are those of the input in order |
| CssMinifier.StripAfter | src/pages/css-minifier/index.js:20-22 | removing whitespace after '{' or ':' never lengthens the text and keeps its first character |
| CssMinifier.StripAfterClears | src/pages/css-minifier/index.js:20-22 | afterwards no whitespace directly follows the character |
| CssMinifier.StripAfterPreserves | src/pages/css-minifier/index.js:20-22 | every adjacency rule the input kept (no double whitespace, no whitespace after or before a given character) still holds afterwards |
| CssMinifier.StripAfterNonWs | src/pages/css-minifier/index.js:20-22 | the non-whitespace characters are kept, in order |
| CssMinifier.StripBefore | src/pages/css-minifier/index.js:21-23 | removing whitespace before '}' or ';' never lengthens the text; the first character is the target character when the text starts with whitespace then that character |
| CssMinifier.StripBeforeClears | src/pages/css-minifier/index.js:21-23 | afterwards no whitespace directly precedes the character |
| CssMinifier.StripBeforePreserves | src/pages/css-minifier/index.js:21-23 | every adjacency rule the input kept still holds afterwards |
| CssMinifier.StripBeforeNonWs | src/pages/css-minifier/index.js:21-23 | the non-whitespace characters are kept, in order |
| CssMinifier.Minify | src/pages/css-minifier/index.js:15-30 | the minified text is never longer than the input |
| CssMinifier.MinifyProperties | src/pages/css-minifier/index.js:18-23 | the output has no two adjacent whitespace characters, none after '{' or ':', none before '}' or ';', and keeps exactly the non-whitespace characters surviving comment removal, in order |
| CaseConverter.CapFirst | src/pages/case-converter/index.js:27 | capitalising a word keeps its length |
| CaseConverter.CapSentence | src/pages/case-converter/index.js:35 | capitalising a sentence keeps its length |
| CaseConverter.InverseCase | src/pages/case-converter/index.js:39-45 | inverse case keeps the length, lower-cases upper-case letters, upper-cases lower-case letters, and leaves every uncased character (digits, punctuation, spaces) unchanged |
| CaseConverter.TitleRef | src/pages/case-converter/index.js:22-29 | reference title case keeps the length |
| CaseConverter.SentenceRef | src/pages/case-converter/index.js:31-37 | reference sentence case keeps the length |
| CaseConverter.SplitMapJoinWords | src/pages/case-converter/index.js:26-28 | splitting on ' ', capitalising each piece and joining with ' ' upper-cases exactly the characters at the start of the text or after a space and keeps all others |
| CaseConverter.TitleCase | src/pages/case-converter/index.js:22-29 | title case equals the character-wise reference: spaces kept in place, the first character of each space-separated word upper-cased, every other character lower-cased |
| CaseConverter.SentenceRefAtStop | src/pages/case-converter/index.js:34-36 | the reference of a text is the capitalised first sentence, the kept ". ", then the reference of the rest |
| CaseConverter.SplitMapJoinSentences | src/pages/case-converter/index.js:34-36 | splitting on ". ", capitalising each sentence and joining with ". " is the character-wise sentence reference |
| CaseConverter.SentenceCase | src/pages/case-converter/index.js:31-37 | sentence case equals the character-wise reference: every ". " kept, the first character of the text and of each character after ". " upper-cased, all others lower-cased |
| CaseConverter.ConvertCase | src/pages/case-converter/index.js:14-50 | every mode keeps the length; an unknown mode returns the text unchanged; title and sentence modes equal their references |
| CaseConverter.UpperLowerIdempotent | src/pages/case-converter/index.js:16-21 | upper-casing and lower-casing are idempotent |
| CaseConverter.InverseInvolution | src/pages/case-converter/index.js:39-45 | on ASCII text, inverting the case twice gives the text back |
| CharacterCount.SplitWs | src/pages/character-count/index.js:13 | `split(/\s+/)` yields at least one piece and no piece contains whitespace |
| CharacterCount.WordCount | src/pages/character-count/index.js:13 | the word count is 0 exactly when the text is empty or all whitespace |
| CharacterCount.LineCount | src/pages/character-count/index.js:14 | the line count is the number of '\n' plus one |
| CharacterCount.Count | src/pages/character-count/index.js:12-14 | characters = the number of UTF-16 code units of the text, never fewer than its characters; words = number of maximal non-whitespace runs, never more than the characters; lines = newlines + 1, at least 1 |
| CharacterCount.EmojiCountsTwo | src/pages/character-count/index.js:12 | one emoji is one character but counts 2 on the page |
| CharacterCount.WordCountIsWordStarts | src/pages/character-count/index.js:13 | the page's word count equals the reference count of non-whitespace characters at the start or after whitespace |
| CharacterCount.SplitWsWordStarts | src/pages/character-count/index.js:13 | on a text not ending in whitespace, the pieces of `split(/\s+/)` are the word starts plus one, less one when the text starts with a word |
| CharacterCount.WordStartsTrimStart | src/pages/character-count/index.js:13 | leading whitespace starts no word |
| CharacterCount.WordStartsTrimEnd | src/pages/character-count/index.js:13 | trailing whitespace starts no word |
| CharacterCount.WordCountJoin | src/pages/character-count/index.js:13 | joining two texts with a space adds their word counts |
| CharacterCount.WordCountPadding | src/pages/character-count/index.js:13 | adding whitespace before or after a text does not change its word count |
| CharacterCount.LineCountJoin | src/pages/character-count/index.js:14 | joining two texts with a newline adds their line counts |
| LoremIpsum.Paragraph | src/pages/lorem-ipsum/index.js:20 | a paragraph is "<p>", the text, "</p>": 7 characters longer than the text |
| LoremIpsum.RepeatLength | src/pages/lorem-ipsum/index.js:19-21 | n copies of a block are n times as long as the block |
| LoremIpsum.RepeatBlock | src/pages/lorem-ipsum/index.js:19-21 | copy k of the block sits at offset k times the block length |
| LoremIpsum.RepeatParagraphs | src/pages/lorem-ipsum/index.js:17-21 | the loop gives n copies of the paragraph for n > 0 and the empty string for n <= 0, with length max(n, 0) × (\|passage\| + 7) |
| LoremIpsum.GenerateLoremIpsum | src/pages/lorem-ipsum/index.js:5-21 | `generateLoremIpsum(n)` is n copies of `<p>` + the page's passage + `</p>`, empty for n <= 0, of length max(n, 0) × (\|passage\| + 7) |
| LoremIpsum.ParagraphCount | src/pages/lorem-ipsum/index.js:12 | a count that parses as NaN or 0 becomes 1; every other parsed count, negative ones included, is kept; the result is never 0 |
| LoremIpsum.NegativeCountShowsNothing | src/pages/lorem-ipsum/index.js:12-19 | a negative typed count is kept (it is truthy) and the page then shows nothing |
| Numerals.DigitValue | src/pages/number-base-converter/index.js:28-34 | a digit of any case has a value below 36 |
| Numerals.DigitPrefix | src/pages/number-base-converter/index.js:28-34 | `parseInt` reads the longest prefix of digits valid in the radix: all before it are digits, the next character is not |
| Numerals.StripHexPrefix | src/pages/number-base-converter/index.js:34 | in radix 16 an optional `0x`/`0X` is removed, nothing else |
| Numerals.ParseInt | src/pages/number-base-converter/index.js:26-35 | `parseInt` gives a number only when a digit of the radix occurs somewhere in the input, and a negative number only when a '-' occurs |
| Numerals.Numeral | src/pages/number-base-converter/index.js:49-55 | `toString(radix)` of a magnitude writes at least one lower-case digit of the radix, with no leading zero except for 0 itself |
| Numerals.Render | src/pages/number-base-converter/index.js:49-55 | a rendered number starts with '-' exactly when it is negative, and the rest are lower-case digits of the radix |
| Numerals.ValueNumeral | src/pages/number-base-converter/index.js:49-55 | the value of the digits written for n is n |
| Numerals.ValueUpper | src/pages/number-base-converter/index.js:55 | upper-casing a digit string keeps it a digit string of the same value |
| Numerals.ParseIntReads | src/pages/number-base-converter/index.js:26-35 | parseInt skips leading whitespace, takes an optional sign, reads the longest digit prefix and ignores the rest, giving the signed value of the prefix |
| Numerals.ParseIntSkipsWs | src/pages/number-base-converter/index.js:26-35 | leading whitespace does not change what parseInt reads |
| Numerals.ParseIntHexPrefix | src/pages/number-base-converter/index.js:34 | in radix 16, `0x` or `0X` after the optional sign is skipped before the digits |
| Numerals.ParseIntNoDigits | src/pages/number-base-converter/index.js:26-44 | when no valid digit follows the whitespace and the optional sign, parseInt gives NaN |
| Numerals.ParseIntNoDigit | src/pages/number-base-converter/index.js:26-44 | a text that starts with no digit, whitespace or sign parses as NaN |
| Numerals.ParseIntDigits | src/pages/color-picker/index.js:16-18 | a bare digit run parses to its value |
| Numerals.ParseRender | src/pages/number-base-converter/index.js:28-53 | parseInt of n.toString(radix) in the same radix is n |
| Numerals.ParseRenderUpper | src/pages/number-base-converter/index.js:34-55 | parseInt of n.toString(16).toUpperCase() in radix 16 is n |
| NumberBaseConverter.BaseNamed | src/pages/number-base-converter/index.js:26-39 | exactly the names "binary", "decimal" and "hexadecimal" select a base |
| NumberBaseConverter.Name | src/pages/number-base-converter/index.js:26-39 | each base's select value selects that base |
| NumberBaseConverter.RenderIn | src/pages/number-base-converter/index.js:48-56 | the output has a leading '-' exactly for negative values, then only '0'/'1' in binary, decimal digits in decimal, and upper-case hexadecimal digits in hexadecimal |
| NumberBaseConverter.ConvertNumber | src/pages/number-base-converter/index.js:23-66 | an unknown source base gives 'Invalid input base.'; a NaN parse gives 'Invalid input number.'; an unknown target base gives 'Invalid output base.'; otherwise the result read back in the target base is the value read from the input |
| NumberBaseConverter.ParseRenderIn | src/pages/number-base-converter/index.js:28-55 | reading back what the page writes, in the same base, gives the same value |
| NumberBaseConverter.RoundTrip | src/pages/number-base-converter/index.js:26-60 | converting a canonical numeral from base A to B and back to A gives the same numeral |
| NumberBaseConverter.SameBaseNormalises | src/pages/number-base-converter/index.js:30-53 | converting to the same base writes the canonical numeral of the value read (leading zeros, '+', `0x` and any tail dropped), and doing it again changes nothing |
| NumberBaseConverter.NoDigitRejected | src/pages/number-base-converter/index.js:41-44 | input with no valid digit after whitespace and an optional sign gives 'Invalid input number.' |
| NumberBaseConverter.BinaryStopsAtTwo | src/pages/number-base-converter/index.js:28-52 | binary "12" reads only "1" and converts to decimal "1" |
| NumberBaseConverter.BinaryRejectsTwo | src/pages/number-base-converter/index.js:28-44 | binary "2" is 'Invalid input number.' |
| ColorPicker.HexValue | src/pages/color-picker/index.js:16-18 | a hexadecimal digit of either case has the value parseInt gives it, below 16 |
| ColorPicker.HexChar | src/pages/color-picker/index.js:13 | the lower-case digit written for a value below 16 reads back as that value |
| ColorPicker.PairValue | src/pages/color-picker/index.js:16-18 | a two-digit pair has a value in 0..255 |
| ColorPicker.HexToRgb | src/pages/color-picker/index.js:12-21 | a colour is returned exactly when the text is an optional '#' and six hexadecimal digits; every component lies in 0..255 |
| ColorPicker.Hex2 | src/pages/color-picker/index.js:16-18 | a reference inverse with no counterpart in the page, written for the round trip: the two digits written for a byte read back as that byte through the pair parsing of these lines |
| ColorPicker.RgbToHex | src/pages/color-picker/index.js:13 | a reference inverse with no counterpart in the page, written for the round trip: a colour with byte channels is written as six hexadecimal digits that the pattern of this line accepts |
| ColorPicker.HexToRgbRendersBack | src/pages/color-picker/index.js:13-18 | re-rendering the components as two lower-case digits each reproduces the input lower-cased, without '#' |
| ColorPicker.RgbToHexReadsBack | src/pages/color-picker/index.js:13-18 | every byte colour is read back from its six digits, with or without '#' |
| ColorPicker.PairIsParseInt | src/pages/color-picker/index.js:16-18 | each component equals `parseInt` of its pair in radix 16 |
| ColorPicker.ShorthandRefused | src/pages/color-picker/index.js:13-20 | "#fff" is refused; upper-case "#007BFF" reads as (0, 123, 255) |
| ColorPicker.Round | src/pages/color-picker/index.js:53-55 | `Math.round` gives the whole number within half of x, halves rounded up |
| ColorPicker.Max3 | src/pages/color-picker/index.js:27 | `Math.max` of three is one of them and no smaller than any |
| ColorPicker.Min3 | src/pages/color-picker/index.js:28 | `Math.min` of three is one of them and no larger than any |
| ColorPicker.HueSixths | src/pages/color-picker/index.js:36-48 | for channels that are not all equal, the hue before `h /= 6` lies in [0, 6): within one sixth of 0 (or above 5) when red is largest, in [1, 3] when green is largest and red is not, in [3, 5] when blue alone is largest |
| ColorPicker.RgbToHsl | src/pages/color-picker/index.js:23-57 | for byte channels, hue is a whole number of degrees in 0..360, saturation and lightness whole percentages in 0..100; when r = g = b, hue and saturation are 0 |
| ColorPicker.LightnessMonotone | src/pages/color-picker/index.js:23-57 | a colour at least as large in every channel is at least as light |
| ColorPicker.HueShiftInvariant | src/pages/color-picker/index.js:23-57 | adding the same amount to all three channels leaves the hue unchanged, since the hue depends only on channel differences |
| ColorPicker.Primaries | src/pages/color-picker/index.js:23-57 | red, green and blue sit at 0, 120 and 240 degrees, fully saturated, at half lightness |
| UnitConverter.CategoryOf | src/pages/unit-converter/index.js:12-19 | meters and feet are lengths, kilograms and pounds weights, celsius and fahrenheit temperatures; other units have no category |
| UnitConverter.ToBase | src/pages/unit-converter/index.js:49-71 | the first switch gives a value exactly for the six table units, and a base unit (meters, kilograms, celsius) maps a value to itself |
| UnitConverter.FromBase | src/pages/unit-converter/index.js:76-98 | the second switch gives a value exactly for the six table units, and a base unit maps a value to itself |
| UnitConverter.ConvertUnits | src/pages/unit-converter/index.js:33-101 | non-numeric input gives 'Invalid input value.'; units of different categories are rejected before any arithmetic; a converted value denotes the same amount of the base unit as the input |
| UnitConverter.BackToBase | src/pages/unit-converter/index.js:49-98 | the second switch followed by the first is the identity on every unit of the table |
| UnitConverter.BaseBack | src/pages/unit-converter/index.js:49-98 | the first switch followed by the second is the identity on every unit of the table |
| UnitConverter.SwitchesKeepOrder | src/pages/unit-converter/index.js:49-98 | both switches map a smaller value to a smaller value, for every table unit |
| UnitConverter.ConvertKeepsOrder | src/pages/unit-converter/index.js:41-98 | if a value converts, every larger value converts too, to a larger result |
| UnitConverter.ConvertToSelf | src/pages/unit-converter/index.js:49-98 | over reals, converting a unit to itself returns the input |
| UnitConverter.RoundTrip | src/pages/unit-converter/index.js:49-98 | over reals, converting a to b and the result back to a returns the input |
| UnitConverter.WaterFixedPoints | src/pages/unit-converter/index.js:66-93 | 32 °F is 0 °C, 212 °F is 100 °C, and back |
| UnitConverter.UnsupportedBranches | src/pages/unit-converter/index.js:41-97 | 'Unsupported from unit.' appears exactly when both units are outside the table, and 'Unsupported to unit.' never appears |
| UnitConverter.SameCategoryConverts | src/pages/unit-converter/index.js:41-98 | two units of the table in the same category always convert |
| UnixTimestamp.UnitSeconds | src/pages/unix-timestamp/index.js:304-320 | exactly seconds, minutes, hours, days and weeks have a positive length in seconds |
| UnixTimestamp.PerformOperation | src/pages/unix-timestamp/index.js:300-369 | months and years take the calendar path; otherwise 'add' gives timestamp + value × unit seconds and every other operation timestamp − value × unit seconds |
| UnixTimestamp.UnitFactors | src/pages/unix-timestamp/index.js:305-369 | the factors are 1, 60, 3600, 86400 and 604800 seconds |
| UnixTimestamp.AddThenSubtract | src/pages/unix-timestamp/index.js:365-368 | adding and then subtracting the same value and unit gives the timestamp back |
| UnixTimestamp.OtherOperationsSubtract | src/pages/unix-timestamp/index.js:365-368 | any operation other than 'add' adds the negated value |
| UnixTimestamp.UnknownUnitKeeps | src/pages/unix-timestamp/index.js:304-369 | an unrecognised unit leaves the timestamp unchanged |
| UnixTimestamp.RoundDiv | src/pages/unix-timestamp/index.js:392-395 | `Math.round(a / b)` is the whole number q with 2bq <= 2a + b < 2bq + 2b: the nearest, halves rounded up |
| UnixTimestamp.RelativeTime | src/pages/unix-timestamp/index.js:389-422 | the description always names one of seconds, minutes, hours, days, months or years, and a past one has an amount of at least 1 |
| UnixTimestamp.Describe | src/pages/unix-timestamp/index.js:397-421 | a past text starts with a digit and ends with " ago"; a future text starts with "in " and ends with its unit |
| UnixTimestamp.DescribeReadsAmount | src/pages/unix-timestamp/index.js:397-421 | `parseInt` reads the printed amount back, from the start of a past text and after the "in " of a future one |
| UnixTimestamp.FutureTextNotAgo | src/pages/unix-timestamp/index.js:409-421 | a future text does not end in " ago" |
| UnixTimestamp.RelativeTimeString | src/pages/unix-timestamp/index.js:389-422 | the text ends in " ago" exactly when the timestamp is more than half a second before now |
| UnixTimestamp.PastIffBeforeHalfSecond | src/pages/unix-timestamp/index.js:391-397 | the text says "ago" exactly when the timestamp is more than half a second before now |
| UnixTimestamp.SecondsWindow | src/pages/unix-timestamp/index.js:399-411 | seconds are used exactly for differences in [-59.5 s, 59.5 s) |
| UnixTimestamp.AmountBounds | src/pages/unix-timestamp/index.js:397-421 | each unit prints an amount below the next unit's threshold (seconds ≤ 59, minutes ≤ 59, hours ≤ 23, days ≤ 29, months ≤ 11), and a past amount is never 0 |
| UnixTimestamp.NowIsInZeroSeconds | src/pages/unix-timestamp/index.js:411 | the current instant prints "in 0 seconds" |
| PasswordGenerator.Alphabet | src/pages/password-generator/index.js:20-24 | the alphabet's length is 26, 26, 10 and 27 for each selected set, in the order upper, lower, digits, symbols |
| PasswordGenerator.AlphabetMembers | src/pages/password-generator/index.js:20-24 | a character is in the alphabet exactly when it belongs to a selected set |
| PasswordGenerator.SetsDisjoint | src/pages/password-generator/index.js:15-18 | the four character sets share no character |
| PasswordGenerator.DisabledSetExcluded | src/pages/password-generator/index.js:21-24 | turning a set off removes every one of its characters from the alphabet |
| PasswordGenerator.Pick | src/pages/password-generator/index.js:33 | `Math.floor(Math.random() * length)` is a valid index of the alphabet |
| PasswordGenerator.GeneratePassword | src/pages/password-generator/index.js:14-37 | with no set selected the message is shown, and only then; otherwise the password has exactly `passwordLength` characters (none for a non-positive length), each drawn from the alphabet at the picked index |
| PasswordGenerator.NothingSelected | src/pages/password-generator/index.js:26-29 | with every set off the alphabet is empty and the page shows 'Please select at least one character set.' |
| ToolSearch.Query | src/pages/index.js:43 | the normalised query is no longer than the input, empty exactly when the input is all whitespace, starts and ends with no whitespace, and holds no upper-case letter |
| ToolSearch.Matches | src/pages/index.js:47-50 | the empty query matches every tool; a match needs a name or category at least as long as the query; a query with an upper-case letter matches nothing, since both sides are lower-cased |
| ToolSearch.Filter | src/pages/index.js:47-50 | the filter keeps only catalog tools that match the query |
| ToolSearch.FirstMatch | src/pages/index.js:47-58 | the reference first match: it matches and no earlier tool does; none exactly when no tool matches |
| ToolSearch.FilterStartsAtFirstMatch | src/pages/index.js:47-58 | the filter result is empty exactly when no tool matches, and otherwise starts with the first matching tool in catalog order |
| ToolSearch.Search | src/pages/index.js:42-63 | a normalised query shorter than 2 UTF-16 code units does nothing; otherwise one or more matches navigate to the first matching tool's url, always one of the list's urls, and no match takes the warning path |
| ToolSearch.PerformSearch | src/pages/index.js:42-63 | on the home page's catalog, the search does nothing exactly for a query under 2 code units, and any navigation goes to one of the catalog's pages |
| ToolSearch.EmojiQueryReachesFilter | src/pages/index.js:43-44 | a query of one emoji is one character but two code units, so it passes the length check |
| ToolSearch.FoundIffContains | src/pages/index.js:47-50 | a tool is found exactly when some tool's lower-cased name or category contains the query |
| ToolSearch.QueryIdempotent | src/pages/index.js:43 | trimming and lower-casing a normalised query changes nothing |
| ToolSearch.SearchNormalised | src/pages/index.js:43 | searching for the normalised query behaves as searching for the raw input |
| ToolCard.IconFor | src/components/ToolCard.js:9-21 | the rules are tried in the order clock, code, font, image, lock, exchange: each icon is returned exactly when its rule fires and no earlier rule does, and the hammer exactly when none fires |
| ToolCard.FirstHitWins | src/components/ToolCard.js:13-20 | over the indexed rule table, the icon at position k is returned iff rule k fires and every earlier rule does not |
| ToolCard.CaseInsensitive | src/components/ToolCard.js:10-11 | name and category are compared without regard to case |
| ToolCard.ClockFirst | src/components/ToolCard.js:13 | a name containing 'clock', 'time' or 'date' gets the clock icon, whatever later rules say |
| ToolCard.CategoryOnlyViaDev | src/components/ToolCard.js:14 | the category matters only through the code rule's 'dev' test |
| ToolCard.DevCategoryIsCode | src/components/ToolCard.js:13-14 | a category containing 'dev' gets the code icon unless the clock rule fires first |
| Faq.Toggle | src/components/SEO/FAQ.js:8-10 | toggling the open item closes it; toggling any other item opens that one |
| Faq.Panels | src/components/SEO/FAQ.js:19-38 | item i's answer is shown exactly when the active index is i |
| Faq.AtMostOneOpen | src/components/SEO/FAQ.js:9-38 | at most one answer is ever shown, and exactly one when the active index is an item |
| Faq.ToggleShows | src/components/SEO/FAQ.js:9-38 | after a toggle, the toggled item is shown iff it was hidden, and every other item is hidden |
| Faq.ToggleTwice | src/components/SEO/FAQ.js:9 | toggling the same item twice restores the state when nothing or that item was open, and closes everything when another item was open |
| Text.Upper | src/pages/case-converter/index.js:17 | upper-casing keeps the length and maps each character |
| Text.Lower | src/pages/case-converter/index.js:20 | lower-casing keeps the length and maps each character |
| Text.TrimStart | src/pages/character-count/index.js:13 | what is removed is all whitespace, and what remains does not start with whitespace |
| Text.TrimStartAfterWs | src/pages/character-count/index.js:13 | trimming removes exactly a whitespace prefix followed by a non-whitespace character |
| Text.TrimEnd | src/pages/character-count/index.js:13 | what is removed is all whitespace, and what remains does not end with whitespace |
| Text.Trim | src/pages/index.js:43 | a trimmed text starts and ends with non-whitespace, and is empty exactly when the input is all whitespace |
| Text.IndexOf | src/pages/case-converter/index.js:26-34 | the leftmost occurrence of the separator, or none |
| Text.JoinSplit | src/pages/case-converter/index.js:26-36 | splitting on a separator and joining with it gives the text back |
| Text.SplitCharCount | src/pages/character-count/index.js:14 | splitting on one character gives one more piece than its occurrences |
| Text.Contains | src/pages/index.js:48-49 | `includes` holds exactly when the query occurs at some position |
| Text.Utf16Length | src/pages/character-count/index.js:12 | `length` lies between the number of characters and twice it; it equals the character count exactly when no character is astral, and twice it exactly when all are |
| Text.Utf16LengthAppend | src/pages/character-count/index.js:12 | the code units of a concatenation are those of its parts |

## Left out

- The ECMAScript RegExp engine is not modelled: backtracking and the semantics of `i`, `m`, `s`, `u` and `y`. Compilation is a parameter that yields a matcher or a syntax-error message. The matcher is assumed only to satisfy the guarantees of RegExpBuiltinExec (section 22.2.7.2 of ECMA-262) that the page relies on.
- Capture-group contents are carried through unchanged; nothing is proved about them beyond their labels.
- RegexTester.UpdateMatches: requires the compiled matcher to keep the RegExpBuiltinExec guarantees on the subject, since the engine itself is abstract.
- React state, the DOM, `<mark>` elements and their keys are left out. Views are returned as values.
- The regex tester's `useState` initial call is left out; it is plumbing.
- `generateLoremIpsum` returns a React element. It is modelled as the HTML string it wraps.
- IEEE-754 doubles are not modelled. Colour and unit arithmetic is over exact reals, so float rounding is absent. The `toFixed(2)` text of the unit converter is not modelled.
- `parseFloat` is not modelled: the unit converter takes its result as `Option<real>`, with `None` for NaN.
- HtmlEncoder.Decode: reads a reference's digits as an exact integer. The page converts them with ToNumber first, which rounds numbers of 2^53 and above to a double, so such references can give another code unit: `&#9007199254740993;` gives 0 on the page and 1 here.
- NumberBaseConverter.RoundTrip: requires magnitudes below 2^53, because larger values lose precision as doubles. The model's integers are exact, so other results above 2^53 may differ from the page.
- The unit converter's `conversionTypes` lookup ignores inherited properties such as `toString`: only the six table units have a category.
- The 'Conversion error.' branch of the number base converter is not modelled. `toString` throws only for radices outside 2..36, so it cannot be reached.
- The CSS minifier's error branch is not modelled: none of its replacements can throw.
- The months and years branches of the timestamp operation are only recognised, as `Calendar`. They go through local-time `Date.setMonth`/`setFullYear`, which depend on the time zone.
- All `Date` and `toUTCString` formatting is left out, and so are the timestamp page's event handlers, clipboard use, toasts and URL handling.
- `Date.now()` is a parameter of the relative-time text.
- Case mapping is ASCII only. Unicode mappings that change length (for example 'ß') or touch non-ASCII letters are not modelled.
- CaseConverter.InverseInvolution: requires ASCII text, because full Unicode case mapping is not an involution.
- The text tools work on `char` sequences, that is Unicode scalar values. Lone surrogates cannot occur in them. The character count and the search's length check count UTF-16 code units through `Text.Utf16Length`. The HTML encoder, which can produce lone surrogates, works on UTF-16 code units throughout. The regex tester and the CSS minifier count positions in characters; the three lines below say where that differs from the page.
- RegexTester.UpdateMatches: `match.index`, `match[0].length` and the `lastIndex++` step count characters here, while the page counts UTF-16 code units. The two agree on subjects with no character above U+FFFF. Otherwise indices differ: `/a/` in "\u{1F600}a" is at index 1 here and at index 2 on the page.
- RegexTester.ScanEmptyEverywhere: gives one empty match per character position plus one. On the page a character above U+FFFF is two code units with a position between them, so `(?:)` with flag `g` finds 3 empty matches in "\u{1F600}", and 2 here.
- CssMinifier.StripComments: the `[^:]` before `//` removes one whole character here. Without the `u` flag the page removes one code unit, so before a character above U+FFFF only its low surrogate goes: "a\u{1F600}//x" gives "a" here and "a" followed by a lone high surrogate on the page.
- CssMinifier.LineCommentRemoved: removes the one character before `//`, where the page removes one UTF-16 code unit; the difference shows only for a character above U+FFFF, as for StripComments.
- `Math.random` is replaced by a sequence of draws in [0, 1), one per character. The quality of the randomness is outside the model.
- PasswordGenerator.GeneratePassword: the length is taken as a whole number. A fractional length typed into the field, which the loop would round up, is not modelled.
- PasswordGenerator.GeneratePassword: requires one draw per character, since the draws stand in for `Math.random`.
- ColorPicker.RgbToHsl: requires channels in 0..255, the range `hexToRgb` produces.
- `showToast` is called on the search page's no-match path but is not defined there. It is modelled as the `NoMatch` result.
- The other tools are thin wrappers over built-ins or libraries and are not part of this model: Base64, the JSON formatter, text diff, the markdown editor, image compression, background removal and the moment-based date pages.
- Layout, navigation, SEO, ads and static pages are not part of this model.
