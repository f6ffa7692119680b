/**
 * The password generator page: `handleGeneratePassword` builds the
 * allowed alphabet from the selected character sets and draws
 * `passwordLength` characters from it. `Math.random()` is replaced by a
 * sequence of draws in [0, 1), one per character.
 */
module PasswordGenerator {

  const Uppercase := "ABCDEFGHIJKLMNOPQRSTUVWXYZ"
  const Lowercase := "abcdefghijklmnopqrstuvwxyz"
  const Digits := "0123456789"
  const Symbols := "!@#$%^&*()_+~`|}{[]:;<>,.?/"

  const NoSetMessage := "Please select at least one character set."

  /** The four checkboxes. */
  datatype Selection = Selection(upper: bool, lower: bool, numbers: bool, symbols: bool)

  /** `allowedChars`: the selected sets, concatenated in the order upper,
      lower, digits, symbols. */
  function Alphabet(sel: Selection): (a: string)
    ensures |a| == (if sel.upper then 26 else 0) + (if sel.lower then 26 else 0)
                 + (if sel.numbers then 10 else 0) + (if sel.symbols then 27 else 0)
  {
    (if sel.upper then Uppercase else "")
    + (if sel.lower then Lowercase else "")
    + (if sel.numbers then Digits else "")
    + (if sel.symbols then Symbols else "")
  }

  /** A character may be drawn exactly when it belongs to a selected set. */
  lemma AlphabetMembers(sel: Selection, c: char)
    ensures c in Alphabet(sel) <==>
              ((sel.upper && c in Uppercase) || (sel.lower && c in Lowercase)
               || (sel.numbers && c in Digits) || (sel.symbols && c in Symbols))
  {
    var u := if sel.upper then Uppercase else "";
    var l := if sel.lower then Lowercase else "";
    var d := if sel.numbers then Digits else "";
    var s := if sel.symbols then Symbols else "";
    assert Alphabet(sel) == u + l + d + s;
    assert c in u + l + d + s <==> c in u || c in l || c in d || c in s;
  }

  /** Which kind of character each set holds. */
  lemma UppercaseRange(c: char)
    ensures c in Uppercase ==> 'A' <= c <= 'Z'
  {
    if c in Uppercase {
      var i :| 0 <= i < |Uppercase| && Uppercase[i] == c;
    }
  }

  lemma LowercaseRange(c: char)
    ensures c in Lowercase ==> 'a' <= c <= 'z'
  {
    if c in Lowercase {
      var i :| 0 <= i < |Lowercase| && Lowercase[i] == c;
    }
  }

  lemma DigitsRange(c: char)
    ensures c in Digits ==> '0' <= c <= '9'
  {
    if c in Digits {
      var i :| 0 <= i < |Digits| && Digits[i] == c;
    }
  }

  lemma SymbolsOutsideRanges(c: char)
    ensures c in Symbols ==> !('A' <= c <= 'Z') && !('a' <= c <= 'z') && !('0' <= c <= '9')
  {
    if c in Symbols {
      var i :| 0 <= i < |Symbols| && Symbols[i] == c;
    }
  }

  /** The four sets share no character. */
  lemma SetsDisjoint(c: char)
    ensures c in Uppercase ==> c !in Lowercase && c !in Digits && c !in Symbols
    ensures c in Lowercase ==> c !in Digits && c !in Symbols
    ensures c in Digits ==> c !in Symbols
  {
    UppercaseRange(c);
    LowercaseRange(c);
    DigitsRange(c);
    SymbolsOutsideRanges(c);
  }

  /** Turning a set off removes every one of its characters from the
      alphabet. */
  lemma DisabledSetExcluded(sel: Selection, c: char)
    ensures !sel.upper && c in Uppercase ==> c !in Alphabet(sel)
    ensures !sel.lower && c in Lowercase ==> c !in Alphabet(sel)
    ensures !sel.numbers && c in Digits ==> c !in Alphabet(sel)
    ensures !sel.symbols && c in Symbols ==> c !in Alphabet(sel)
  {
    AlphabetMembers(sel, c);
    SetsDisjoint(c);
  }

  /** `Math.floor(Math.random() * allowedChars.length)`. */
  function Pick(draw: real, n: nat): (i: nat)
    requires 0.0 <= draw < 1.0 && n > 0
    ensures i < n
  {
    ScaledBelow(draw, n);
    (draw * n as real).Floor
  }

  lemma ScaledBelow(draw: real, n: nat)
    requires 0.0 <= draw < 1.0 && n > 0
    ensures 0.0 <= draw * n as real < n as real
  {
  }

  predicate ValidDraws(draws: seq<real>) {
    forall i :: 0 <= i < |draws| ==> 0.0 <= draws[i] < 1.0
  }

  datatype Generated = NoSetSelected | Password(text: string)

  /** The text the page shows. */
  function Shown(g: Generated): string {
    match g
    case NoSetSelected => NoSetMessage
    case Password(text) => text
  }

  /** `handleGeneratePassword()`, with `passwordLength` as a whole number
      and one draw available per character. */
  method GeneratePassword(sel: Selection, passwordLength: int, draws: seq<real>) returns (g: Generated)
    requires ValidDraws(draws) && passwordLength <= |draws|
    ensures g == NoSetSelected <==> Alphabet(sel) == []
    ensures g.Password? ==> |g.text| == (if passwordLength < 0 then 0 else passwordLength)
    ensures g.Password? ==> forall i :: 0 <= i < |g.text| ==> g.text[i] in Alphabet(sel)
    ensures g.Password? ==> forall i :: 0 <= i < |g.text| ==>
              g.text[i] == Alphabet(sel)[Pick(draws[i], |Alphabet(sel)|)]
  {
    var allowed := Alphabet(sel);
    if allowed == [] {
      return NoSetSelected;
    }
    var password := "";
    var i := 0;
    while i < passwordLength
      invariant 0 <= i && (i <= passwordLength || i == 0)
      invariant |password| == i
      invariant forall k :: 0 <= k < i ==> password[k] == allowed[Pick(draws[k], |allowed|)]
    {
      password := password + [allowed[Pick(draws[i], |allowed|)]];
      i := i + 1;
    }
    return Password(password);
  }

  /** With every set off the page shows the message. */
  lemma NothingSelected()
    ensures Alphabet(Selection(false, false, false, false)) == []
    ensures Shown(NoSetSelected) == "Please select at least one character set."
  {
  }
}
