/**
 * The colour picker page: `hexToRgb` (a case-insensitive match of an
 * optional '#' and three two-digit hexadecimal pairs) and `rgbToHsl`.
 *
 * Channel arithmetic is over exact reals, and `Math.round(x)` is
 * floor(x + 0.5) (section 21.3.2.28 of ECMA-262 rounds halves up).
 */
module ColorPicker {
  import opened Wrappers
  import Text
  import Numerals

  /** `[a-f\d]` under the `i` flag. */
  predicate IsHexDigit(c: char) {
    '0' <= c <= '9' || 'a' <= c <= 'f' || 'A' <= c <= 'F'
  }

  function HexValue(c: char): (v: nat)
    requires IsHexDigit(c)
    ensures v < 16
    ensures Numerals.DigitValue(c) == Some(v)
  {
    if '0' <= c <= '9' then c as int - '0' as int
    else if 'a' <= c <= 'f' then c as int - 'a' as int + 10
    else c as int - 'A' as int + 10
  }

  /** The lower-case hexadecimal digit of a value below 16. */
  function HexChar(v: nat): (c: char)
    requires v < 16
    ensures IsHexDigit(c) && HexValue(c) == v
    ensures c == Text.LowerChar(c)
  {
    if v < 10 then ('0' as int + v) as char else ('a' as int + v - 10) as char
  }

  datatype Rgb = Rgb(r: int, g: int, b: int)

  predicate InByteRange(c: Rgb) {
    0 <= c.r <= 255 && 0 <= c.g <= 255 && 0 <= c.b <= 255
  }

  /** The part after an optional leading '#'. */
  function Body(hex: string): (body: string)
    ensures body == hex || (|hex| > 0 && hex[0] == '#' && body == hex[1..])
  {
    if |hex| > 0 && hex[0] == '#' then hex[1..] else hex
  }

  predicate IsSixHexDigits(body: string) {
    |body| == 6 && forall i :: 0 <= i < 6 ==> IsHexDigit(body[i])
  }

  /** `parseInt(pair, 16)` of two hexadecimal digits. */
  function PairValue(x: char, y: char): (v: int)
    requires IsHexDigit(x) && IsHexDigit(y)
    ensures 0 <= v <= 255
  {
    16 * HexValue(x) + HexValue(y)
  }

  /** `hexToRgb(hex)`: `None` for null. The pattern is anchored at both
      ends, so the text must be exactly an optional '#' and six digits;
      the three-digit shorthand is refused. */
  function HexToRgb(hex: string): (rgb: Option<Rgb>)
    ensures rgb.Some? <==> IsSixHexDigits(Body(hex))
    ensures rgb.Some? ==> InByteRange(rgb.value)
  {
    var body := Body(hex);
    if IsSixHexDigits(body) then
      Some(Rgb(PairValue(body[0], body[1]), PairValue(body[2], body[3]), PairValue(body[4], body[5])))
    else None
  }

  /** Two lower-case hexadecimal digits of a byte. */
  function Hex2(v: int): (s: string)
    requires 0 <= v <= 255
    ensures |s| == 2 && IsHexDigit(s[0]) && IsHexDigit(s[1])
    ensures PairValue(s[0], s[1]) == v
  {
    [HexChar(v / 16), HexChar(v % 16)]
  }

  /** Six lower-case hexadecimal digits of a colour. */
  function RgbToHex(c: Rgb): (s: string)
    requires InByteRange(c)
    ensures IsSixHexDigits(s)
  {
    Hex2(c.r) + Hex2(c.g) + Hex2(c.b)
  }

  /** A pair's value written back as two lower-case digits is the pair
      lower-cased. */
  lemma Hex2Pair(x: char, y: char)
    requires IsHexDigit(x) && IsHexDigit(y)
    ensures Hex2(PairValue(x, y)) == [Text.LowerChar(x), Text.LowerChar(y)]
  {
    var v := PairValue(x, y);
    assert v / 16 == HexValue(x) && v % 16 == HexValue(y);
  }

  /** Re-rendering what `hexToRgb` read gives the input lower-cased,
      without its '#'. */
  lemma HexToRgbRendersBack(hex: string)
    requires HexToRgb(hex).Some?
    ensures RgbToHex(HexToRgb(hex).value) == Text.Lower(Body(hex))
  {
    var body := Body(hex);
    Hex2Pair(body[0], body[1]);
    Hex2Pair(body[2], body[3]);
    Hex2Pair(body[4], body[5]);
  }

  /** Every colour with channels in 0..255 is read back from its six
      digits, with or without '#'. */
  lemma RgbToHexReadsBack(c: Rgb)
    requires InByteRange(c)
    ensures HexToRgb(RgbToHex(c)) == Some(c)
    ensures HexToRgb("#" + RgbToHex(c)) == Some(c)
  {
    var s := RgbToHex(c);
    assert s[0] != '#';
    assert ("#" + s)[1..] == s;
    assert s[..2] == Hex2(c.r) && s[2..4] == Hex2(c.g) && s[4..] == Hex2(c.b);
    assert PairValue(s[0], s[1]) == c.r;
    assert PairValue(s[2], s[3]) == c.g;
    assert PairValue(s[4], s[5]) == c.b;
  }

  /** Each component is `parseInt` of its pair in radix 16. */
  lemma PairIsParseInt(x: char, y: char)
    requires IsHexDigit(x) && IsHexDigit(y)
    ensures Numerals.ParseInt([x, y], 16) == Some(PairValue(x, y))
  {
    ValueOfPair(x, y);
    Numerals.ParseIntDigits([x, y], 16);
  }

  lemma ValueOfDigit(x: char)
    requires IsHexDigit(x)
    ensures Numerals.AllDigitsIn([x], 16) && Numerals.Value([x], 16) == HexValue(x)
  {
    assert [x][..0] == [];
  }

  lemma ValueOfPair(x: char, y: char)
    requires IsHexDigit(x) && IsHexDigit(y)
    ensures Numerals.AllDigitsIn([x, y], 16) && Numerals.Value([x, y], 16) == PairValue(x, y)
  {
    ValueOfDigit(x);
    assert [x, y][..1] == [x];
  }

  /** The three-digit shorthand is not accepted. */
  lemma ShorthandRefused()
    ensures HexToRgb("#fff") == None
    ensures HexToRgb("#007BFF") == Some(Rgb(0, 123, 255))
  {
    assert Body("#007BFF") == "007BFF";
  }

  // ---------------------------------------------------------------------
  // rgbToHsl
  // ---------------------------------------------------------------------

  datatype Hsl = Hsl(h: int, s: int, l: int)

  /** `Math.round`. */
  function Round(x: real): (n: int)
    ensures x - 0.5 < n as real <= x + 0.5
  {
    (x + 0.5).Floor
  }

  function Max3(a: real, b: real, c: real): (m: real)
    ensures m == a || m == b || m == c
    ensures a <= m && b <= m && c <= m
  {
    if a >= b && a >= c then a else if b >= c then b else c
  }

  function Min3(a: real, b: real, c: real): (m: real)
    ensures m == a || m == b || m == c
    ensures m <= a && m <= b && m <= c
  {
    if a <= b && a <= c then a else if b <= c then b else c
  }

  lemma RoundPercent(x: real, scale: real)
    requires 0.0 <= x <= 1.0 && scale > 0.0
    ensures 0 <= Round(x * scale) && Round(x * scale) as real <= scale + 0.5
  {
  }

  lemma QuotientInUnit(a: real, d: real)
    requires d > 0.0 && 0.0 <= a <= d
    ensures 0.0 <= a / d <= 1.0
  {
  }

  lemma QuotientInSigned(a: real, d: real)
    requires d > 0.0 && -d <= a <= d
    ensures -1.0 <= a / d <= 1.0
    ensures a < 0.0 <==> a / d < 0.0
  {
    var q := a / d;
    assert q * d == a;
    if q < 0.0 { assert q * d < 0.0; }
    if a < 0.0 { assert q < 0.0; }
  }

  /** The hue in sixths of a turn (before `h /= 6`), by which channel is the
      largest, tried in the order red, green, blue. It lies in [0, 6), in
      the two sixths either side of the largest channel's own position:
      red at 0, green at 2, blue at 4. */
  function HueSixths(r: real, g: real, b: real): (h: real)
    requires Max3(r, g, b) != Min3(r, g, b)
    ensures 0.0 <= h < 6.0
    ensures Max3(r, g, b) == r ==> h <= 1.0 || 5.0 <= h
    ensures Max3(r, g, b) != r && Max3(r, g, b) == g ==> 1.0 <= h <= 3.0
    ensures Max3(r, g, b) != r && Max3(r, g, b) != g ==> 3.0 <= h <= 5.0
  {
    var max := Max3(r, g, b);
    var d := max - Min3(r, g, b);
    if max == r then
      QuotientInSigned(g - b, d);
      (g - b) / d + (if g < b then 6.0 else 0.0)
    else if max == g then
      QuotientInSigned(b - r, d);
      (b - r) / d + 2.0
    else
      // `max` is `b`: the last case of the switch.
      QuotientInSigned(r - g, d);
      (r - g) / d + 4.0
  }

  /** `rgbToHsl(r, g, b)` for channels `hexToRgb` produces: hue in whole
      degrees 0..360 (360 only by rounding up a hue just below it),
      saturation and lightness in whole percent; grey has no hue and no
      saturation. */
  function RgbToHsl(c: Rgb): (hsl: Hsl)
    requires InByteRange(c)
    ensures 0 <= hsl.h <= 360 && 0 <= hsl.s <= 100 && 0 <= hsl.l <= 100
    ensures c.r == c.g == c.b ==> hsl.h == 0 && hsl.s == 0
  {
    var r := c.r as real / 255.0;
    var g := c.g as real / 255.0;
    var b := c.b as real / 255.0;
    var max := Max3(r, g, b);
    var min := Min3(r, g, b);
    var l := (max + min) / 2.0;
    RoundPercent(l, 100.0);
    if max == min then Hsl(0, 0, Round(l * 100.0))
    else
      var d := max - min;
      var den := if l > 0.5 then 2.0 - max - min else max + min;
      QuotientInUnit(d, den);
      var s := d / den;
      RoundPercent(s, 100.0);
      var h := HueSixths(r, g, b) / 6.0;
      RoundPercent(h, 360.0);
      Hsl(Round(h * 360.0), Round(s * 100.0), Round(l * 100.0))
  }

  lemma RoundMonotone(x: real, y: real)
    requires x <= y
    ensures Round(x) <= Round(y)
  {
  }

  /** The lightness of a colour in terms of its normalised channels. */
  lemma LightnessOf(c: Rgb)
    requires InByteRange(c)
    ensures var (r, g, b) := (c.r as real / 255.0, c.g as real / 255.0, c.b as real / 255.0);
      RgbToHsl(c).l == Round((Max3(r, g, b) + Min3(r, g, b)) / 2.0 * 100.0)
  {
  }

  lemma ExtremesMonotone(r: real, g: real, b: real, r': real, g': real, b': real)
    requires r <= r' && g <= g' && b <= b'
    ensures Max3(r, g, b) <= Max3(r', g', b') && Min3(r, g, b) <= Min3(r', g', b')
  {
  }

  /** Raising no channel lowers none: a colour that is at least as large in
      every channel is at least as light. */
  lemma LightnessMonotone(c: Rgb, c': Rgb)
    requires InByteRange(c) && InByteRange(c')
    requires c.r <= c'.r && c.g <= c'.g && c.b <= c'.b
    ensures RgbToHsl(c).l <= RgbToHsl(c').l
  {
    var (r, g, b) := (c.r as real / 255.0, c.g as real / 255.0, c.b as real / 255.0);
    var (r', g', b') := (c'.r as real / 255.0, c'.g as real / 255.0, c'.b as real / 255.0);
    LightnessOf(c);
    LightnessOf(c');
    ExtremesMonotone(r, g, b, r', g', b');
    RoundMonotone((Max3(r, g, b) + Min3(r, g, b)) / 2.0 * 100.0,
                  (Max3(r', g', b') + Min3(r', g', b')) / 2.0 * 100.0);
  }

  /** Adding the same amount to every channel keeps the order of the
      channels and their differences, so the hue in sixths is unchanged. */
  lemma HueSixthsShift(r: real, g: real, b: real, k: real)
    requires Max3(r, g, b) != Min3(r, g, b)
    ensures Max3(r + k, g + k, b + k) == Max3(r, g, b) + k
    ensures Min3(r + k, g + k, b + k) == Min3(r, g, b) + k
    ensures HueSixths(r + k, g + k, b + k) == HueSixths(r, g, b)
  {
    var d := Max3(r, g, b) - Min3(r, g, b);
    assert (r + k) - (g + k) == r - g && (g + k) - (b + k) == g - b && (b + k) - (r + k) == b - r;
  }

  /** Hue depends only on the differences between the channels: lightening
      or darkening a colour by the same amount in every channel keeps it. */
  lemma HueShiftInvariant(c: Rgb, k: int)
    requires InByteRange(c) && InByteRange(Rgb(c.r + k, c.g + k, c.b + k))
    ensures RgbToHsl(Rgb(c.r + k, c.g + k, c.b + k)).h == RgbToHsl(c).h
  {
    var (r, g, b) := (c.r as real / 255.0, c.g as real / 255.0, c.b as real / 255.0);
    var kk := k as real / 255.0;
    assert (c.r + k) as real / 255.0 == r + kk;
    assert (c.g + k) as real / 255.0 == g + kk;
    assert (c.b + k) as real / 255.0 == b + kk;
    if Max3(r, g, b) != Min3(r, g, b) {
      HueSixthsShift(r, g, b, kk);
    } else {
      assert Max3(r + kk, g + kk, b + kk) == Min3(r + kk, g + kk, b + kk);
    }
  }

  /** The primaries sit at 0, 120 and 240 degrees, fully saturated. */
  lemma Primaries()
    ensures RgbToHsl(Rgb(255, 0, 0)) == Hsl(0, 100, 50)
    ensures RgbToHsl(Rgb(0, 255, 0)) == Hsl(120, 100, 50)
    ensures RgbToHsl(Rgb(0, 0, 255)) == Hsl(240, 100, 50)
  {
    PrimaryHsl(Rgb(255, 0, 0), 0.0);
    PrimaryHsl(Rgb(0, 255, 0), 2.0);
    PrimaryHsl(Rgb(0, 0, 255), 4.0);
    assert Round(0.0 / 6.0 * 360.0) == 0;
    assert Round(2.0 / 6.0 * 360.0) == 120;
    assert Round(4.0 / 6.0 * 360.0) == 240;
  }

  /** One channel full and the others off: fully saturated, half light,
      with the hue at that channel's own position. */
  lemma PrimaryHsl(c: Rgb, sixths: real)
    requires (c, sixths) in {(Rgb(255, 0, 0), 0.0), (Rgb(0, 255, 0), 2.0), (Rgb(0, 0, 255), 4.0)}
    ensures RgbToHsl(c) == Hsl(Round(sixths / 6.0 * 360.0), 100, 50)
  {
    var (r, g, b) := (c.r as real / 255.0, c.g as real / 255.0, c.b as real / 255.0);
    assert r + g + b == 1.0 && (r == 0.0 || r == 1.0) && (g == 0.0 || g == 1.0) && (b == 0.0 || b == 1.0);
    assert Max3(r, g, b) == 1.0 && Min3(r, g, b) == 0.0;
    assert HueSixths(r, g, b) == sixths;
    assert Round(1.0 / 1.0 * 100.0) == 100;
    assert Round((1.0 + 0.0) / 2.0 * 100.0) == 50;
  }
}
