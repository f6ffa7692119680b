/**
 * The two Number built-ins the converter pages rely on: `parseInt(string,
 * radix)` (ECMA-262 section 19.2.5) for radices 2, 10 and 16, and
 * `Number.prototype.toString(radix)` on integers (section 21.1.3.6).
 *
 * Values are unbounded integers. They agree with the IEEE-754 numbers of
 * the source as long as their magnitude stays below 2^53.
 */
module Numerals {
  import opened Wrappers
  import Text

  /** The value of a radix-36 digit in either case, as StringToCodePoints
      and the digit table of section 19.2.5 read it. */
  function DigitValue(c: char): (v: Option<nat>)
    ensures v.Some? ==> v.value < 36
  {
    if '0' <= c <= '9' then Some(c as int - '0' as int)
    else if 'a' <= c <= 'z' then Some(c as int - 'a' as int + 10)
    else if 'A' <= c <= 'Z' then Some(c as int - 'A' as int + 10)
    else None
  }

  predicate IsDigitIn(c: char, radix: nat) {
    DigitValue(c).Some? && DigitValue(c).value < radix
  }

  predicate AllDigitsIn(d: string, radix: nat) {
    forall i :: 0 <= i < |d| ==> IsDigitIn(d[i], radix)
  }

  /** The value of a digit string, most significant digit first. */
  function Value(d: string, radix: nat): nat
    requires AllDigitsIn(d, radix)
    decreases |d|
  {
    if |d| == 0 then 0
    else Value(d[..|d| - 1], radix) * radix + DigitValue(d[|d| - 1]).value
  }

  /** Length of the longest prefix of `s` made of radix digits. */
  function DigitPrefix(s: string, radix: nat): (n: nat)
    ensures n <= |s|
    ensures forall i :: 0 <= i < n ==> IsDigitIn(s[i], radix)
    ensures n < |s| ==> !IsDigitIn(s[n], radix)
    decreases |s|
  {
    if |s| > 0 && IsDigitIn(s[0], radix) then 1 + DigitPrefix(s[1..], radix) else 0
  }

  predicate IsHexPrefix(s: string) {
    |s| >= 2 && s[0] == '0' && (s[1] == 'x' || s[1] == 'X')
  }

  /** Applies a sign to a magnitude. */
  function Signed(negative: bool, v: nat): (n: int)
    ensures negative ==> n == -(v as int)
    ensures !negative ==> n == v
  {
    if negative then -(v as int) else v
  }

  /** An optional leading sign: whether it is '-', and what follows it. */
  function StripSign(s: string): (r: (bool, string))
    ensures r.1 == s || (|s| > 0 && r.1 == s[1..])
    ensures r.0 ==> |s| > 0 && s[0] == '-'
  {
    if |s| > 0 && (s[0] == '-' || s[0] == '+') then (s[0] == '-', s[1..]) else (false, s)
  }

  /** In radix 16 an optional `0x` or `0X`. */
  function StripHexPrefix(s: string, radix: nat): (r: string)
    ensures r == s || (|s| >= 2 && r == s[2..])
  {
    if radix == 16 && IsHexPrefix(s) then s[2..] else s
  }

  /** The digit run at the front of `body`, `None` for NaN when it is empty. */
  function ReadDigits(negative: bool, body: string, radix: nat): (r: Option<int>)
    ensures r.Some? <==> |body| > 0 && IsDigitIn(body[0], radix)
    ensures r.Some? && r.value < 0 ==> negative
  {
    var n := DigitPrefix(body, radix);
    if n == 0 then None
    else
      assert AllDigitsIn(body[..n], radix) by {
        forall i | 0 <= i < n ensures body[..n][i] == body[i] { }
      }
      Some(Signed(negative, Value(body[..n], radix)))
  }

  /** `parseInt(input, radix)` for radix 2, 10 or 16: skip leading
      whitespace, take one optional sign, for radix 16 one optional `0x`
      or `0X`, then read the longest run of digits and ignore the rest.
      `None` stands for NaN, which is the result when that run is empty.
      A negative zero is the integer 0. So a number needs a digit of the
      radix somewhere in the input, and a negative one a '-'. */
  function ParseInt(input: string, radix: nat): (r: Option<int>)
    requires IsRadix(radix)
    ensures r.Some? ==> exists i :: 0 <= i < |input| && IsDigitIn(input[i], radix)
    ensures r.Some? && r.value < 0 ==> exists i :: 0 <= i < |input| && input[i] == '-'
  {
    var t := Text.TrimStart(input);
    var (negative, unsigned) := StripSign(t);
    var body := StripHexPrefix(unsigned, radix);
    assert body == input[|input| - |body|..];
    var r := ReadDigits(negative, body, radix);
    assert r.Some? ==> IsDigitIn(input[|input| - |body|], radix);
    assert negative ==> input[|input| - |t|] == '-';
    r
  }

  /** The lower-case digit `toString` writes for a value below the radix. */
  function DigitChar(v: nat): (c: char)
    requires v < 36
    ensures DigitValue(c) == Some(v)
    ensures c == '0' <==> v == 0
  {
    if v < 10 then ('0' as int + v) as char else ('a' as int + v - 10) as char
  }

  /** The three radices the converter pages use. */
  predicate IsRadix(radix: nat) {
    radix == 2 || radix == 10 || radix == 16
  }

  /** Euclidean division by one of the page radices. */
  lemma DivMod(n: nat, radix: nat)
    requires IsRadix(radix)
    ensures n == (n / radix) * radix + n % radix
    ensures 0 <= n % radix < radix
    ensures n >= radix ==> 0 < n / radix < n
  {
    if radix == 2 {
    } else if radix == 10 {
    } else {
    }
  }

  /** The digits of `n` in `radix`, without leading zeros. */
  function Numeral(n: nat, radix: nat): (d: string)
    requires IsRadix(radix)
    ensures |d| >= 1 && AllDigitsIn(d, radix)
    ensures forall i :: 0 <= i < |d| ==> '0' <= d[i] <= '9' || 'a' <= d[i] <= 'z'
    ensures d[0] == '0' ==> n == 0 && |d| == 1
    decreases n
  {
    if n < radix then [DigitChar(n)]
    else
      DivMod(n, radix);
      var p := Numeral(n / radix, radix);
      var c := DigitChar(n % radix);
      var d := p + [c];
      assert forall i :: 0 <= i < |p| ==> d[i] == p[i];
      assert d[|p|] == c;
      d
  }

  /** `n.toString(radix)` for an integer `n`: a '-' before the digits of
      its magnitude when it is negative. */
  function Render(n: int, radix: nat): (r: string)
    requires IsRadix(radix)
    ensures |r| >= 1
    ensures n < 0 <==> r[0] == '-'
    ensures forall i :: (if n < 0 then 1 else 0) <= i < |r| ==>
              IsDigitIn(r[i], radix) && ('0' <= r[i] <= '9' || 'a' <= r[i] <= 'z')
  {
    if n < 0 then "-" + Numeral(-n, radix) else Numeral(n, radix)
  }

  // ---------------------------------------------------------------------
  // Lemmas
  // ---------------------------------------------------------------------

  /** `Numeral` is the inverse of `Value`. */
  lemma {:induction false} ValueNumeral(n: nat, radix: nat)
    requires IsRadix(radix)
    ensures Value(Numeral(n, radix), radix) == n
    decreases n
  {
    var d := Numeral(n, radix);
    if n >= radix {
      DivMod(n, radix);
      var p := Numeral(n / radix, radix);
      ValueNumeral(n / radix, radix);
      assert d == p + [DigitChar(n % radix)];
      assert d[..|d| - 1] == p;
      assert DigitValue(d[|d| - 1]).value == n % radix;
      assert Value(d, radix) == (n / radix) * radix + n % radix;
    }
  }

  /** Upper-casing a digit string keeps it a digit string of the same value. */
  lemma {:induction false} ValueUpper(d: string, radix: nat)
    requires AllDigitsIn(d, radix)
    ensures AllDigitsIn(Text.Upper(d), radix)
    ensures Value(Text.Upper(d), radix) == Value(d, radix)
    decreases |d|
  {
    var u := Text.Upper(d);
    assert forall i :: 0 <= i < |d| ==> DigitValue(u[i]) == DigitValue(d[i]);
    if |d| > 0 {
      assert u[..|u| - 1] == Text.Upper(d[..|d| - 1]);
      ValueUpper(d[..|d| - 1], radix);
    }
  }

  /** A run of digits followed by a non-digit (or nothing) is read whole. */
  lemma DigitPrefixOf(d: string, rest: string, radix: nat)
    requires AllDigitsIn(d, radix)
    requires rest == [] || !IsDigitIn(rest[0], radix)
    ensures DigitPrefix(d + rest, radix) == |d|
    ensures (d + rest)[..|d|] == d
  {
    var s := d + rest;
    assert s[..|d|] == d;
    forall i | 0 <= i < |d| ensures s[i] == d[i] { }
    if rest != [] {
      assert s[|d|] == rest[0];
    }
  }

  predicate IsSign(sign: string) {
    sign == "" || sign == "+" || sign == "-"
  }

  /** What `parseInt` reads from whitespace, an optional sign, a digit run
      and a tail that does not continue the run. In radix 16 a lone "0"
      directly followed by 'x' or 'X' would be taken as a `0x` prefix
      instead, and is excluded here. */
  lemma ParseIntReads(ws: string, sign: string, d: string, rest: string, radix: nat)
    requires IsRadix(radix)
    requires Text.AllWs(ws) && IsSign(sign)
    requires |d| >= 1 && AllDigitsIn(d, radix)
    requires rest == [] || !IsDigitIn(rest[0], radix)
    requires radix == 16 ==> !IsHexPrefix(d + rest)
    ensures ParseInt(ws + sign + d + rest, radix) == Some(Signed(sign == "-", Value(d, radix)))
  {
    var t := sign + d + rest;
    Assoc(ws, sign, d, rest);
    ParseIntSigned(sign, d, rest, radix);
    ParseIntSkipsWs(ws, t, radix);
  }

  /** Leading whitespace does not change what `parseInt` reads. */
  lemma ParseIntSkipsWs(ws: string, t: string, radix: nat)
    requires IsRadix(radix)
    requires Text.AllWs(ws) && (t == [] || !Text.IsWs(t[0]))
    ensures ParseInt(ws + t, radix) == ParseInt(t, radix)
  {
    Text.TrimStartAfterWs(ws, t);
    Text.TrimStartAfterWs([], t);
    assert [] + t == t;
  }

  /** The string shape of a sign followed by a digit: it is its own
      `trimStart`, the sign comes off, and no `0x` prefix is removed. */
  lemma SignedShape(sign: string, d: string, rest: string, radix: nat)
    requires IsSign(sign)
    requires |d| >= 1 && IsDigitIn(d[0], radix)
    requires radix == 16 ==> !IsHexPrefix(d + rest)
    ensures !Text.IsWs((sign + d + rest)[0])
    ensures Text.TrimStart(sign + d + rest) == sign + d + rest
    ensures StripSign(sign + d + rest) == (sign == "-", d + rest)
    ensures StripHexPrefix(d + rest, radix) == d + rest
  {
    var u := d + rest;
    var t := sign + u;
    Assoc3(sign, d, rest);
    assert u[0] == d[0];
    assert t[0] == if sign == "" then d[0] else sign[0];
    StripSignOf(sign, u);
  }
  lemma ParseIntSigned(sign: string, d: string, rest: string, radix: nat)
    requires IsRadix(radix)
    requires IsSign(sign)
    requires |d| >= 1 && AllDigitsIn(d, radix)
    requires rest == [] || !IsDigitIn(rest[0], radix)
    requires radix == 16 ==> !IsHexPrefix(d + rest)
    ensures sign + d + rest == [] || !Text.IsWs((sign + d + rest)[0])
    ensures ParseInt(sign + d + rest, radix) == Some(Signed(sign == "-", Value(d, radix)))
  {
    var t := sign + d + rest;
    SignedShape(sign, d, rest, radix);
    ParseIntStages(t, radix, t, sign == "-", d + rest, d + rest);
    ReadDigitsOf(sign == "-", d, rest, radix);
  }

  /** Regrouping a concatenation of four strings. */
  lemma Assoc(a: string, b: string, c: string, e: string)
    ensures a + b + c + e == a + (b + c + e)
    ensures b + c + e == b + (c + e)
  {
  }

  /** Regrouping a concatenation of three strings. */
  lemma Assoc3(a: string, b: string, c: string)
    ensures a + b + c == a + (b + c)
  {
  }

  /** Regrouping a concatenation of five strings. */
  lemma Assoc5(a: string, b: string, c: string, e: string, f: string)
    ensures a + b + c + e + f == a + (b + c + e + f)
  {
  }

  lemma StripSignOf(sign: string, u: string)
    requires IsSign(sign)
    requires u == [] || (u[0] != '-' && u[0] != '+')
    ensures StripSign(sign + u) == (sign == "-", u)
  {
    if sign == "" {
      assert sign + u == u;
    } else {
      assert (sign + u)[1..] == u;
    }
  }

  lemma ParseIntStages(input: string, radix: nat, t: string, negative: bool, unsigned: string, body: string)
    requires IsRadix(radix)
    requires Text.TrimStart(input) == t
    requires StripSign(t) == (negative, unsigned)
    requires StripHexPrefix(unsigned, radix) == body
    ensures ParseInt(input, radix) == ReadDigits(negative, body, radix)
  {
  }

  lemma ReadDigitsOf(negative: bool, d: string, rest: string, radix: nat)
    requires |d| >= 1 && AllDigitsIn(d, radix)
    requires rest == [] || !IsDigitIn(rest[0], radix)
    ensures ReadDigits(negative, d + rest, radix) == Some(Signed(negative, Value(d, radix)))
  {
    DigitPrefixOf(d, rest, radix);
  }

  /** In radix 16 a `0x` or `0X` after the sign is skipped. */
  lemma ParseIntHexPrefix(ws: string, sign: string, prefix: string, d: string, rest: string)
    requires Text.AllWs(ws) && IsSign(sign) && (prefix == "0x" || prefix == "0X")
    requires |d| >= 1 && AllDigitsIn(d, 16)
    requires rest == [] || !IsDigitIn(rest[0], 16)
    ensures ParseInt(ws + sign + prefix + d + rest, 16) == Some(Signed(sign == "-", Value(d, 16)))
  {
    var t := sign + prefix + d + rest;
    Assoc5(ws, sign, prefix, d, rest);
    ParseIntSignedHex(sign, prefix, d, rest);
    ParseIntSkipsWs(ws, t, 16);
  }

  /** The string shape of a signed, `0x`-prefixed numeral, with no digit
      facts in scope: it is its own `trimStart`, the sign comes off, then the
      prefix comes off. */
  lemma HexShape(sign: string, prefix: string, d: string, rest: string)
    requires IsSign(sign) && (prefix == "0x" || prefix == "0X")
    ensures !Text.IsWs((sign + prefix + d + rest)[0])
    ensures Text.TrimStart(sign + prefix + d + rest) == sign + prefix + d + rest
    ensures StripSign(sign + prefix + d + rest) == (sign == "-", prefix + (d + rest))
    ensures StripHexPrefix(prefix + (d + rest), 16) == d + rest
  {
    var u := prefix + (d + rest);
    var t := sign + u;
    Assoc(sign, prefix, d, rest);
    assert u[0] == '0' && u[1] == prefix[1] && u[2..] == d + rest;
    assert t[0] == if sign == "" then '0' else sign[0];
    StripSignOf(sign, u);
  }
  lemma ParseIntSignedHex(sign: string, prefix: string, d: string, rest: string)
    requires IsSign(sign) && (prefix == "0x" || prefix == "0X")
    requires |d| >= 1 && AllDigitsIn(d, 16)
    requires rest == [] || !IsDigitIn(rest[0], 16)
    ensures !Text.IsWs((sign + prefix + d + rest)[0])
    ensures ParseInt(sign + prefix + d + rest, 16) == Some(Signed(sign == "-", Value(d, 16)))
  {
    var t := sign + prefix + d + rest;
    HexShape(sign, prefix, d, rest);
    ParseIntStages(t, 16, t, sign == "-", prefix + (d + rest), d + rest);
    ReadDigitsOf(sign == "-", d, rest, 16);
  }

  /** Without whitespace or a sign in front, a string that does not start
      with a digit is NaN. */
  lemma ParseIntNoDigit(rest: string, radix: nat)
    requires IsRadix(radix)
    requires rest == [] || (!IsDigitIn(rest[0], radix)
                            && !Text.IsWs(rest[0]) && rest[0] != '+' && rest[0] != '-')
    ensures ParseInt(rest, radix) == None
  {
    ParseIntNoDigits("", "", rest, radix);
    assert "" + "" + rest == rest;
  }

  /** The string shape of a sign followed by no digit: it is its own
      `trimStart`, the sign comes off, nothing else does, and no digit is read. */
  lemma NoDigitShape(sign: string, rest: string, radix: nat)
    requires IsRadix(radix) && IsSign(sign)
    requires rest == [] || (!IsDigitIn(rest[0], radix)
                            && !Text.IsWs(rest[0]) && rest[0] != '+' && rest[0] != '-')
    ensures sign + rest == [] || !Text.IsWs((sign + rest)[0])
    ensures StripSign(sign + rest) == (sign == "-", rest)
    ensures StripHexPrefix(rest, radix) == rest
    ensures ReadDigits(sign == "-", rest, radix) == None
  {
    var t := sign + rest;
    if t != [] {
      assert t[0] == if sign == "" then rest[0] else sign[0];
    }
    StripSignOf(sign, rest);
    assert IsDigitIn('0', radix);
  }

  /** NaN: after the whitespace and the sign there is nothing, or a
      character that is neither a digit nor another sign or blank. */
  lemma ParseIntNoDigits(ws: string, sign: string, rest: string, radix: nat)
    requires IsRadix(radix)
    requires Text.AllWs(ws) && IsSign(sign)
    requires rest == [] || (!IsDigitIn(rest[0], radix)
                            && !Text.IsWs(rest[0]) && rest[0] != '+' && rest[0] != '-')
    ensures ParseInt(ws + sign + rest, radix) == None
  {
    var t := sign + rest;
    NoDigitShape(sign, rest, radix);
    Text.TrimStartAfterWs([], t);
    assert [] + t == t;
    ParseIntStages(t, radix, t, sign == "-", rest, rest);
    ParseIntSkipsWs(ws, t, radix);
    Assoc3(ws, sign, rest);
  }

  /** A bare digit run. */
  lemma ParseIntDigits(d: string, radix: nat)
    requires IsRadix(radix)
    requires |d| >= 1 && AllDigitsIn(d, radix)
    ensures ParseInt(d, radix) == Some(Value(d, radix))
  {
    assert d + [] == d;
    assert "" + d + [] == d;
    ParseIntSigned("", d, [], radix);
  }

  /** A sign and a digit run with nothing after it. */
  lemma ParseIntNumeral(sign: string, d: string, radix: nat)
    requires IsRadix(radix) && IsSign(sign)
    requires |d| >= 1 && AllDigitsIn(d, radix)
    requires d[0] == '0' ==> |d| == 1
    ensures ParseInt(sign + d, radix) == Some(Signed(sign == "-", Value(d, radix)))
  {
    assert d + [] == d;
    assert sign + d + [] == sign + d;
    ParseIntSigned(sign, d, [], radix);
  }

  /** `parseInt(n.toString(radix), radix) == n`. */
  lemma ParseRender(n: int, radix: nat)
    requires IsRadix(radix)
    ensures ParseInt(Render(n, radix), radix) == Some(n)
  {
    var m := if n < 0 then -n else n;
    var sign := if n < 0 then "-" else "";
    RenderParts(n, radix);
    ValueNumeral(m, radix);
    ParseIntNumeral(sign, Numeral(m, radix), radix);
  }

  /** `toString` writes the sign, then the digits of the magnitude. */
  lemma RenderParts(n: int, radix: nat)
    requires IsRadix(radix)
    ensures Render(n, radix) == (if n < 0 then "-" else "") + Numeral(if n < 0 then -n else n, radix)
  {
    if n >= 0 {
      assert "" + Numeral(n, radix) == Numeral(n, radix);
    }
  }

  /** `parseInt(n.toString(16).toUpperCase(), 16) == n`. */
  lemma ParseRenderUpper(n: int)
    ensures ParseInt(Text.Upper(Render(n, 16)), 16) == Some(n)
  {
    var m := if n < 0 then -n else n;
    var sign := if n < 0 then "-" else "";
    var d := Numeral(m, 16);
    var u := Text.Upper(d);
    ValueNumeral(m, 16);
    ValueUpper(d, 16);
    RenderParts(n, 16);
    UpperSigned(sign, d);
    ParseIntNumeral(sign, u, 16);
  }

  lemma UpperSigned(sign: string, d: string)
    requires IsSign(sign)
    requires |d| >= 1 && (d[0] == '0' ==> |d| == 1)
    ensures Text.Upper(sign + d) == sign + Text.Upper(d)
    ensures Text.Upper(d)[0] == '0' ==> |d| == 1
  {
  }
}
