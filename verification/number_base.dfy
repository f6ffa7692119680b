/**
 * The number base converter page: `convertNumber` reads the input with
 * `parseInt` in the source base and writes it with `toString` in the
 * target base, or reports which step failed.
 */
module NumberBaseConverter {
  import opened Wrappers
  import Text
  import Numerals

  datatype Base = Binary | Decimal | Hexadecimal

  /** The select values the page offers. */
  function BaseNamed(name: string): (b: Option<Base>)
    ensures b == Some(Binary) <==> name == "binary"
    ensures b == Some(Decimal) <==> name == "decimal"
    ensures b == Some(Hexadecimal) <==> name == "hexadecimal"
  {
    if name == "binary" then Some(Binary)
    else if name == "decimal" then Some(Decimal)
    else if name == "hexadecimal" then Some(Hexadecimal)
    else None
  }

  function Name(b: Base): (name: string)
    ensures BaseNamed(name) == Some(b)
  {
    match b
    case Binary => "binary"
    case Decimal => "decimal"
    case Hexadecimal => "hexadecimal"
  }

  function Radix(b: Base): (radix: nat)
    ensures Numerals.IsRadix(radix)
  {
    match b
    case Binary => 2
    case Decimal => 10
    case Hexadecimal => 16
  }

  /** The digits the page writes: hexadecimal letters are upper case. */
  predicate IsOutputDigit(c: char, b: Base) {
    match b
    case Binary => c == '0' || c == '1'
    case Decimal => '0' <= c <= '9'
    case Hexadecimal => '0' <= c <= '9' || 'A' <= c <= 'F'
  }

  /** `n.toString(2)`, `n.toString(10)` or `n.toString(16).toUpperCase()`:
      a '-' exactly for negative values, then digits of the target base. */
  function RenderIn(n: int, b: Base): (r: string)
    ensures |r| >= 1
    ensures r[0] == '-' <==> n < 0
    ensures forall i :: (if n < 0 then 1 else 0) <= i < |r| ==> IsOutputDigit(r[i], b)
  {
    var s := Numerals.Render(n, Radix(b));
    if b == Hexadecimal then Text.Upper(s) else s
  }

  /** `parseInt(number, radix)` in the radix of a base. */
  function Read(number: string, b: Base): Option<int> {
    Numerals.ParseInt(number, Radix(b))
  }

  const InvalidInputBase := "Invalid input base."
  const InvalidInputNumber := "Invalid input number."
  const InvalidOutputBase := "Invalid output base."

  /** `convertNumber()`. The `catch` branch ('Conversion error.') is not
      reachable: `toString` only throws for a radix outside 2..36. */
  function ConvertNumber(number: string, fromBase: string, toBase: string): (result: string)
    ensures BaseNamed(fromBase).None? ==> result == InvalidInputBase
    ensures (BaseNamed(fromBase).Some? && Read(number, BaseNamed(fromBase).value).None?)
            ==> result == InvalidInputNumber
    ensures (BaseNamed(fromBase).Some? && Read(number, BaseNamed(fromBase).value).Some?
             && BaseNamed(toBase).None?)
            ==> result == InvalidOutputBase
    ensures (BaseNamed(fromBase).Some? && Read(number, BaseNamed(fromBase).value).Some?
             && BaseNamed(toBase).Some?)
            ==> Read(result, BaseNamed(toBase).value) == Read(number, BaseNamed(fromBase).value)
  {
    match BaseNamed(fromBase)
    case None => InvalidInputBase
    case Some(from) =>
      match Numerals.ParseInt(number, Radix(from))
      case None => InvalidInputNumber
      case Some(v) =>
        match BaseNamed(toBase)
        case None => InvalidOutputBase
        case Some(to) =>
          ParseRenderIn(v, to);
          RenderIn(v, to)
  }

  /** Reading back what the page writes gives the same value. */
  lemma ParseRenderIn(n: int, b: Base)
    ensures Numerals.ParseInt(RenderIn(n, b), Radix(b)) == Some(n)
  {
    if b == Hexadecimal {
      Numerals.ParseRenderUpper(n);
    } else {
      Numerals.ParseRender(n, Radix(b));
    }
  }

  /** Converting a canonical numeral from A to B and back to A gives the
      same numeral. The source's numbers are doubles, so this is promised
      for magnitudes below 2^53 only. */
  lemma RoundTrip(n: int, a: Base, b: Base)
    requires -0x20_0000_0000_0000 < n < 0x20_0000_0000_0000
    ensures ConvertNumber(ConvertNumber(RenderIn(n, a), Name(a), Name(b)), Name(b), Name(a)) == RenderIn(n, a)
  {
    ParseRenderIn(n, a);
    ParseRenderIn(n, b);
  }

  /** Converting to the same base writes the canonical numeral of the value
      read: leading whitespace, a '+', leading zeros, `0x` and any tail are
      dropped and the value is unchanged. Doing it again changes nothing. */
  lemma SameBaseNormalises(number: string, b: Base, v: int)
    requires Numerals.ParseInt(number, Radix(b)) == Some(v)
    ensures ConvertNumber(number, Name(b), Name(b)) == RenderIn(v, b)
    ensures ConvertNumber(RenderIn(v, b), Name(b), Name(b)) == RenderIn(v, b)
  {
    ParseRenderIn(v, b);
  }

  /** Input without a digit where the number should start is rejected. */
  lemma NoDigitRejected(ws: string, sign: string, rest: string, from: Base, toBase: string)
    requires Text.AllWs(ws) && Numerals.IsSign(sign)
    requires rest == [] || (!Numerals.IsDigitIn(rest[0], Radix(from))
                            && !Text.IsWs(rest[0]) && rest[0] != '+' && rest[0] != '-')
    ensures ConvertNumber(ws + sign + rest, Name(from), toBase) == InvalidInputNumber
  {
    Numerals.ParseIntNoDigits(ws, sign, rest, Radix(from));
  }

  /** A digit that is valid in a larger base stops the read: "12" read as
      binary is 1. */
  lemma BinaryStopsAtTwo()
    ensures ConvertNumber("12", "binary", "decimal") == "1"
  {
    BinaryReadsOne();
    DecimalOne();
  }

  lemma BinaryReadsOne()
    ensures Read("12", Binary) == Some(1)
  {
    var one, two := "1", "2";
    assert Numerals.AllDigitsIn(one, 2) && !Numerals.IsDigitIn(two[0], 2);
    Numerals.ParseIntSigned("", one, two, 2);
    assert "" + one + two == "12";
    assert Numerals.Value(one, 2) == 1 by { assert one[..0] == ""; }
  }

  lemma DecimalOne()
    ensures RenderIn(1, Decimal) == "1"
  {
    assert Numerals.DigitChar(1) == '1';
  }

  /** A leading '2' gives no binary number at all. */
  lemma BinaryRejectsTwo()
    ensures ConvertNumber("2", "binary", "decimal") == InvalidInputNumber
  {
    BinaryReadsNothing();
  }

  lemma BinaryReadsNothing()
    ensures Read("2", Binary) == None
  {
    var two := "2";
    assert !Numerals.IsDigitIn(two[0], 2) && !Text.IsWs(two[0]);
    Numerals.ParseIntNoDigit(two, 2);
  }
}
