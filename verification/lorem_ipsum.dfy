/**
 * The lorem ipsum page: `generateLoremIpsum(n)` repeats one fixed passage
 * as `n` HTML paragraphs, and the paragraph count typed by the user is
 * read with `parseInt(value, 10) || 1`.
 */
module LoremIpsum {
  import opened Wrappers
  import Numerals

  const Passage := "Lorem ipsum dolor sit amet, consectetur adipiscing elit. Sed do eiusmod tempor incididunt ut labore et dolore magna aliqua. Ut enim ad minim veniam, quis nostrud exercitation ullamco laboris nisi ut aliquip ex ea commodo consequat. Duis aute irure dolor in reprehenderit in voluptate velit esse cillum dolore eu fugiat nulla pariatur. Excepteur sint occaecat cupidatat non proident, sunt in culpa qui officia deserunt mollit anim id est laborum."

  /** `<p>${text}</p>`: the text between an opening and a closing tag. */
  function Paragraph(text: string): (p: string)
    ensures |p| == |text| + 7
    ensures p[..3] == "<p>" && p[3..|text| + 3] == text && p[|text| + 3..] == "</p>"
  {
    "<p>" + text + "</p>"
  }

  /** `n` copies of `s`, one after another. */
  function Repeat(s: string, n: nat): string
    decreases n
  {
    if n == 0 then "" else Repeat(s, n - 1) + s
  }

  lemma {:induction false} RepeatLength(s: string, n: nat)
    ensures |Repeat(s, n)| == n * |s|
    decreases n
  {
    if n > 0 {
      RepeatLength(s, n - 1);
    }
  }

  /** Copy `k` sits at offset k × |s|. */
  lemma {:induction false} RepeatBlock(s: string, n: nat, k: nat)
    requires k < n
    ensures |Repeat(s, n)| == n * |s|
    ensures Repeat(s, n)[k * |s|..(k + 1) * |s|] == s
    decreases n
  {
    RepeatLength(s, n - 1);
    RepeatLength(s, n);
    var r := Repeat(s, n - 1);
    assert Repeat(s, n) == r + s;
    if k == n - 1 {
      assert (n - 1) * |s| == |r|;
      assert (k + 1) * |s| == |r| + |s|;
      assert (r + s)[|r|..|r| + |s|] == s;
    } else {
      RepeatBlock(s, n - 1, k);
      assert (k + 1) * |s| <= (n - 1) * |s| by {
        assert k + 1 <= n - 1;
        MulMono(k + 1, n - 1, |s|);
      }
      assert (r + s)[k * |s|..(k + 1) * |s|] == r[k * |s|..(k + 1) * |s|];
    }
  }

  lemma MulMono(a: nat, b: nat, c: nat)
    requires a <= b
    ensures a * c <= b * c
  {
  }

  /** The loop of `generateLoremIpsum`, over any passage: it runs
      `numParagraphs` times, so a count of zero or below gives the empty
      string. */
  method RepeatParagraphs(text: string, numParagraphs: int) returns (result: string)
    ensures numParagraphs <= 0 ==> result == ""
    ensures numParagraphs > 0 ==> result == Repeat(Paragraph(text), numParagraphs)
    ensures |result| == (if numParagraphs < 0 then 0 else numParagraphs) * (|text| + 7)
  {
    result := "";
    var i := 0;
    while i < numParagraphs
      invariant 0 <= i && (i <= numParagraphs || i == 0)
      invariant result == Repeat(Paragraph(text), i)
    {
      result := result + Paragraph(text);
      i := i + 1;
    }
    RepeatLength(Paragraph(text), i);
  }

  /** `generateLoremIpsum(numParagraphs)` with the page's fixed passage. */
  method GenerateLoremIpsum(numParagraphs: int) returns (result: string)
    ensures numParagraphs <= 0 ==> result == ""
    ensures numParagraphs > 0 ==> result == Repeat(Paragraph(Passage), numParagraphs)
    ensures |result| == (if numParagraphs < 0 then 0 else numParagraphs) * (|Passage| + 7)
  {
    result := RepeatParagraphs(Passage, numParagraphs);
  }

  /** `parseInt(value, 10) || 1`: NaN and 0 are falsy and become 1; every
      other number, negative ones included, is kept. */
  function ParagraphCount(value: string): (n: int)
    ensures n != 0
    ensures Numerals.ParseInt(value, 10).None? ==> n == 1
    ensures Numerals.ParseInt(value, 10) == Some(0) ==> n == 1
    ensures Numerals.ParseInt(value, 10).Some? && Numerals.ParseInt(value, 10).value != 0
            ==> n == Numerals.ParseInt(value, 10).value
  {
    match Numerals.ParseInt(value, 10)
    case None => 1
    case Some(v) => if v == 0 then 1 else v
  }

  /** Typing a negative count keeps it, and the page then shows nothing. */
  method NegativeCountShowsNothing(value: string) returns (result: string)
    requires Numerals.ParseInt(value, 10).Some? && Numerals.ParseInt(value, 10).value < 0
    ensures ParagraphCount(value) < 0
    ensures result == ""
  {
    result := GenerateLoremIpsum(ParagraphCount(value));
  }
}
