/**
 * `getIconForTool(category, name)` from the tool card component: six
 * keyword rules tried in a fixed order over the lower-cased name (and,
 * for one rule, the category), with a default.
 */
module ToolCard {
  import Text

  datatype Icon = Clock | Code | Font | Image | Lock | ExchangeAlt | Hammer

  predicate Has(s: string, word: string) {
    Text.Contains(s, word)
  }

  predicate ClockRule(n: string) { Has(n, "clock") || Has(n, "time") || Has(n, "date") }
  predicate CodeRule(n: string, c: string) { Has(n, "json") || Has(n, "html") || Has(n, "css") || Has(c, "dev") }
  predicate FontRule(n: string) { Has(n, "text") || Has(n, "word") || Has(n, "case") }
  predicate ImageRule(n: string) { Has(n, "image") || Has(n, "photo") }
  predicate LockRule(n: string) { Has(n, "password") || Has(n, "encrypt") }
  predicate ExchangeRule(n: string) { Has(n, "convert") || Has(n, "encoder") }

  /** The first rule that fires decides the icon: each icon is chosen
      exactly when its own rule fires and no earlier rule does. */
  function IconFor(category: string, name: string): (icon: Icon)
    ensures var n, c := Text.Lower(name), Text.Lower(category);
            && (icon == Clock <==> ClockRule(n))
            && (icon == Code <==> !ClockRule(n) && CodeRule(n, c))
            && (icon == Font <==> !ClockRule(n) && !CodeRule(n, c) && FontRule(n))
            && (icon == Image <==>
                  !ClockRule(n) && !CodeRule(n, c) && !FontRule(n) && ImageRule(n))
            && (icon == Lock <==>
                  !ClockRule(n) && !CodeRule(n, c) && !FontRule(n) && !ImageRule(n)
                  && LockRule(n))
            && (icon == ExchangeAlt <==>
                  !ClockRule(n) && !CodeRule(n, c) && !FontRule(n) && !ImageRule(n)
                  && !LockRule(n) && ExchangeRule(n))
            && (icon == Hammer <==>
                  !ClockRule(n) && !CodeRule(n, c) && !FontRule(n) && !ImageRule(n)
                  && !LockRule(n) && !ExchangeRule(n))
  {
    var n := Text.Lower(name);
    var c := Text.Lower(category);
    if ClockRule(n) then Clock
    else if CodeRule(n, c) then Code
    else if FontRule(n) then Font
    else if ImageRule(n) then Image
    else if LockRule(n) then Lock
    else if ExchangeRule(n) then ExchangeAlt
    else Hammer
  }

  /** The rule table in the order the component tries it, with the icon
      each rule gives; index 6 is the default. */
  predicate Fires(k: nat, n: string, c: string)
    requires k < 6
  {
    match k
    case 0 => ClockRule(n)
    case 1 => CodeRule(n, c)
    case 2 => FontRule(n)
    case 3 => ImageRule(n)
    case 4 => LockRule(n)
    case _ => ExchangeRule(n)
  }

  function IconAt(k: nat): Icon
    requires k <= 6
  {
    [Clock, Code, Font, Image, Lock, ExchangeAlt, Hammer][k]
  }

  /** First hit wins: the icon is the one at index k exactly when rule k
      fires and no earlier rule does (for the default, when none fires). */
  lemma {:induction false} FirstHitWins(category: string, name: string, k: nat)
    requires k <= 6
    ensures var n, c := Text.Lower(name), Text.Lower(category);
            IconFor(category, name) == IconAt(k) <==>
              (k == 6 || Fires(k, n, c)) && forall j :: 0 <= j < k ==> !Fires(j, n, c)
  {
    var n, c := Text.Lower(name), Text.Lower(category);
    assert Fires(0, n, c) == ClockRule(n);
    assert Fires(1, n, c) == CodeRule(n, c);
    assert Fires(2, n, c) == FontRule(n);
    assert Fires(3, n, c) == ImageRule(n);
    assert Fires(4, n, c) == LockRule(n);
    assert Fires(5, n, c) == ExchangeRule(n);
  }

  lemma LowerUpper(s: string)
    ensures Text.Lower(Text.Upper(s)) == Text.Lower(s)
  {
  }

  /** Name and category are compared without regard to case. */
  lemma CaseInsensitive(category: string, name: string)
    ensures IconFor(Text.Upper(category), Text.Upper(name)) == IconFor(category, name)
  {
    LowerUpper(category);
    LowerUpper(name);
  }

  /** Rules are tried in order: a time-related name wins over every later
      rule, e.g. "Unix Timestamp Converter" gets the clock, not the
      exchange arrows. */
  lemma ClockFirst(category: string, name: string)
    requires ClockRule(Text.Lower(name))
    ensures IconFor(category, name) == Clock
  {
  }

  /** The category matters only through the code rule's "dev" test. */
  lemma CategoryOnlyViaDev(c1: string, c2: string, name: string)
    requires Has(Text.Lower(c1), "dev") == Has(Text.Lower(c2), "dev")
    ensures IconFor(c1, name) == IconFor(c2, name)
  {
  }

  /** Any developer-tools category gets the code icon unless the name
      already asks for the clock. */
  lemma DevCategoryIsCode(category: string, name: string)
    requires Has(Text.Lower(category), "dev") && !ClockRule(Text.Lower(name))
    ensures IconFor(category, name) == Code
  {
  }
}
