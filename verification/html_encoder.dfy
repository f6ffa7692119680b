/**
 * The HTML encoder page: `encodeText` writes every UTF-16 code unit of the
 * input as a decimal numeric character reference `&#n;`; `decodeText` scans
 * the input with `/&#(\d+);/g` and keeps only `String.fromCharCode` of each
 * reference's number, dropping all other text.
 *
 * ECMAScript strings are sequences of UTF-16 code units (which may be lone
 * surrogates), so this page is modelled over `CodeUnit` rather than `char`.
 */
module HtmlEncoder {

  /** A UTF-16 code unit: what `charCodeAt` returns and `fromCharCode` builds. */
  type CodeUnit = x: int | 0 <= x < 0x1_0000

  type JsString = seq<CodeUnit>

  const Amp: CodeUnit := 38   // '&'
  const Hash: CodeUnit := 35  // '#'
  const Semi: CodeUnit := 59  // ';'

  /** `\d`: the ASCII digits '0'..'9'. */
  predicate IsDigit(u: CodeUnit) { 48 <= u <= 57 }

  predicate AllDigits(s: JsString) {
    forall i :: 0 <= i < |s| ==> IsDigit(s[i])
  }

  /** The decimal numeral `String(n)` produces for an integer below 2^53:
      digits only, no leading zero. */
  function Decimal(n: nat): (ds: JsString)
    ensures 1 <= |ds|
    ensures AllDigits(ds)
    ensures |ds| > 1 ==> ds[0] != 48
    decreases n
  {
    if n < 10 then [48 + n] else Decimal(n / 10) + [48 + n % 10]
  }

  /** The number a run of decimal digits denotes. */
  function DigitsValue(ds: JsString): nat
    requires AllDigits(ds)
    decreases |ds|
  {
    if |ds| == 0 then 0 else DigitsValue(ds[..|ds| - 1]) * 10 + (ds[|ds| - 1] - 48)
  }

  /** Reading back a rendered numeral gives the number. */
  lemma {:induction false} DecimalValue(n: nat)
    ensures DigitsValue(Decimal(n)) == n
    decreases n
  {
    if n >= 10 {
      DecimalValue(n / 10);
      var ds := Decimal(n);
      assert ds[..|ds| - 1] == Decimal(n / 10);
    }
  }

  /** `'&#' + text.charCodeAt(i) + ';'`. */
  function Entity(u: CodeUnit): JsString {
    [Amp, Hash] + Decimal(u) + [Semi]
  }

  /** The characters an encoded text can contain. */
  predicate IsEntityChar(u: CodeUnit) {
    u == Amp || u == Hash || u == Semi || IsDigit(u)
  }

  /** `encodeText`: one reference per code unit, in input order. */
  function Encode(text: JsString): (encoded: JsString)
    ensures |encoded| >= 4 * |text|
    ensures forall i :: 0 <= i < |encoded| ==> IsEntityChar(encoded[i])
    decreases |text|
  {
    if |text| == 0 then [] else Entity(text[0]) + Encode(text[1..])
  }

  /** Encoding distributes over concatenation: the output is the references
      of the units, one after another. */
  lemma {:induction false} EncodeAppend(a: JsString, b: JsString)
    ensures Encode(a + b) == Encode(a) + Encode(b)
    decreases |a|
  {
    if |a| == 0 {
      assert a + b == b;
    } else {
      assert (a + b)[0] == a[0];
      assert (a + b)[1..] == a[1..] + b;
      EncodeAppend(a[1..], b);
    }
  }

  /** Length of the run of digits at the start of `s`. */
  function DigitRun(s: JsString): (n: nat)
    ensures n <= |s|
    ensures AllDigits(s[..n])
    ensures n < |s| ==> !IsDigit(s[n])
    decreases |s|
  {
    if |s| > 0 && IsDigit(s[0]) then
      var n := 1 + DigitRun(s[1..]);
      assert s[..n] == [s[0]] + s[1..][..n - 1];
      n
    else 0
  }

  /** The number of digits of the reference `&#\d+;` that starts `s`, if one does. */
  function EntityAt(s: JsString): (d: nat)
    ensures d > 0 ==> 3 + d <= |s| && s[0] == Amp && s[1] == Hash && AllDigits(s[2..2 + d]) && s[2 + d] == Semi
  {
    if |s| >= 3 && s[0] == Amp && s[1] == Hash then
      var d := DigitRun(s[2..]);
      if d > 0 && 2 + d < |s| && s[2 + d] == Semi then
        assert s[2..2 + d] == s[2..][..d];
        d
      else 0
    else 0
  }

  /** `decodeText`: the leftmost-first scan of `/&#(\d+);/g` over `s`; each
      reference becomes `String.fromCharCode(n)`, and everything else is
      dropped. For `n` below 2^53, where ToNumber reads the digits exactly,
      that is the code unit `n` modulo 2^16 (ToUint16); the digits are read
      exactly here for larger `n` too. */
  function Decode(s: JsString): (decoded: JsString)
    ensures 4 * |decoded| <= |s|
    ensures (forall i :: 0 <= i < |s| ==> s[i] != Semi) ==> decoded == []
    decreases |s|
  {
    if |s| == 0 then []
    else
      var d := EntityAt(s);
      if d > 0 then
        var rest := s[3 + d..];
        assert forall i :: 0 <= i < |rest| ==> rest[i] == s[3 + d + i];
        [DigitsValue(s[2..2 + d]) % 0x1_0000] + Decode(rest)
      else
        assert forall i :: 0 <= i < |s| - 1 ==> s[1..][i] == s[1 + i];
        Decode(s[1..])
  }

  /** Text in which no reference starts anywhere decodes to nothing. */
  lemma {:induction false} NoEntityDecodesEmpty(s: JsString)
    requires forall i :: 0 <= i <= |s| ==> EntityAt(s[i..]) == 0
    ensures Decode(s) == []
    decreases |s|
  {
    if |s| > 0 {
      assert s[0..] == s;
      forall i | 0 <= i <= |s| - 1
        ensures EntityAt(s[1..][i..]) == 0
      {
        assert s[1..][i..] == s[1 + i..];
      }
      NoEntityDecodesEmpty(s[1..]);
    }
  }

  /** Text in which a reference starts somewhere decodes to at least one
      code unit: either the scan reaches that reference, or it consumes an
      earlier one first. */
  lemma {:induction false} EntityDecodesNonEmpty(s: JsString, j: nat)
    requires j <= |s| && EntityAt(s[j..]) > 0
    ensures Decode(s) != []
    decreases |s|
  {
    if EntityAt(s) == 0 {
      assert j != 0 by { assert s[0..] == s; }
      assert s[1..][j - 1..] == s[j..];
      EntityDecodesNonEmpty(s[1..], j - 1);
    }
  }

  /** The page's decoder output is empty exactly when no `&#digits;`
      reference occurs in the text. */
  lemma DecodeEmptyIffNoEntity(s: JsString)
    ensures Decode(s) == [] <==> forall i :: 0 <= i <= |s| ==> EntityAt(s[i..]) == 0
  {
    if forall i :: 0 <= i <= |s| ==> EntityAt(s[i..]) == 0 {
      NoEntityDecodesEmpty(s);
    } else {
      var j :| 0 <= j <= |s| && EntityAt(s[j..]) != 0;
      EntityDecodesNonEmpty(s, j);
    }
  }

  /** A digit run followed by a non-digit is read in full. */
  lemma {:induction false} DigitRunStops(ds: JsString, rest: JsString)
    requires AllDigits(ds)
    requires |rest| > 0 && !IsDigit(rest[0])
    ensures DigitRun(ds + rest) == |ds|
    decreases |ds|
  {
    if |ds| == 0 {
      assert ds + rest == rest;
    } else {
      assert (ds + rest)[1..] == ds[1..] + rest;
      DigitRunStops(ds[1..], rest);
    }
  }

  /** `&#`, a digit run, `;`: the scan finds the reference and resumes
      right after it. */
  lemma EntityShape(ds: JsString, rest: JsString)
    requires 1 <= |ds| && AllDigits(ds)
    ensures var s := [Amp, Hash] + ds + [Semi] + rest;
      && EntityAt(s) == |ds| && s[2..2 + |ds|] == ds && s[3 + |ds|..] == rest
  {
    var d := |ds|;
    var s := [Amp, Hash] + ds + [Semi] + rest;
    assert s[2..] == ds + ([Semi] + rest);
    DigitRunStops(ds, [Semi] + rest);
    assert s[2 + d] == Semi;
    assert s[2..2 + d] == ds;
    assert s[3 + d..] == rest;
  }

  /** The scan reads the reference `&#ds;` in front of `rest` and resumes
      after it. */
  lemma DecodeAtEntity(ds: JsString, rest: JsString)
    requires 1 <= |ds| && AllDigits(ds)
    ensures Decode([Amp, Hash] + ds + [Semi] + rest) == [DigitsValue(ds) % 0x1_0000] + Decode(rest)
  {
    EntityShape(ds, rest);
  }

  /** A code unit is its own value modulo 2^16. */
  lemma CodeUnitMod(u: CodeUnit)
    ensures u % 0x1_0000 == u
  {
  }

  /** A text starting with the reference of `u` decodes to `u` followed by
      the decoding of what comes after the reference. */
  lemma DecodeEntityPrefix(u: CodeUnit, rest: JsString)
    ensures Decode(Entity(u) + rest) == [u] + Decode(rest)
  {
    var ds := Decimal(u);
    assert Entity(u) + rest == [Amp, Hash] + ds + [Semi] + rest;
    DecodeAtEntity(ds, rest);
    DecimalValue(u);
    CodeUnitMod(u);
  }

  /** Decoding an encoded text gives the original text back. */
  lemma {:induction false} DecodeEncode(text: JsString)
    ensures Decode(Encode(text)) == text
    decreases |text|
  {
    if |text| > 0 {
      DecodeEncode(text[1..]);
      DecodeEntityPrefix(text[0], Encode(text[1..]));
    }
  }

  /** A reference whose number `n` is below 2^53 decodes to the code unit
      `n mod 2^16`. */
  lemma EntityDecodes(ds: JsString)
    requires |ds| > 0 && AllDigits(ds)
    requires DigitsValue(ds) < 0x20_0000_0000_0000
    ensures Decode([Amp, Hash] + ds + [Semi]) == [DigitsValue(ds) % 0x1_0000]
  {
    var s := [Amp, Hash] + ds + [Semi];
    assert s[2..] == ds + [Semi];
    DigitRunStops(ds, [Semi]);
    assert s[2..2 + |ds|] == ds;
    assert s[3 + |ds|..] == [];
  }

  /** The page state: the input box and the two output boxes. */
  datatype Page = Page(text: JsString, encoded: JsString, decoded: JsString)

  /** The Encode button: fills the encoded box and clears the decoded one. */
  function EncodeClicked(p: Page): (q: Page)
    ensures q.text == p.text && q.decoded == []
    ensures Decode(q.encoded) == p.text
    ensures |q.encoded| >= 4 * |p.text|
  {
    DecodeEncode(p.text);
    Page(p.text, Encode(p.text), [])
  }

  /** The Decode button: fills the decoded box and clears the encoded one. */
  function DecodeClicked(p: Page): (q: Page)
    ensures q.text == p.text && q.encoded == []
    ensures 4 * |q.decoded| <= |p.text|
  {
    Page(p.text, [], Decode(p.text))
  }
}
