/**
 * The unit converter page: the `conversionTypes` table and `convertUnits`,
 * which goes through a base unit per category (meters, kilograms,
 * celsius). Arithmetic is over exact reals; `parseFloat` is abstracted to
 * its result, `None` standing for NaN.
 */
module UnitConverter {
  import opened Wrappers

  datatype Category = Length | Weight | Temperature

  /** `conversionTypes[unit]`, `None` for undefined. */
  function CategoryOf(unit: string): (c: Option<Category>)
    ensures c == Some(Length) <==> unit == "meters" || unit == "feet"
    ensures c == Some(Weight) <==> unit == "kilograms" || unit == "pounds"
    ensures c == Some(Temperature) <==> unit == "celsius" || unit == "fahrenheit"
  {
    if unit == "meters" || unit == "feet" then Some(Length)
    else if unit == "kilograms" || unit == "pounds" then Some(Weight)
    else if unit == "celsius" || unit == "fahrenheit" then Some(Temperature)
    else None
  }

  /** The base unit of each category. */
  predicate IsBaseUnit(unit: string) {
    unit == "meters" || unit == "kilograms" || unit == "celsius"
  }

  /** The first switch: a value in `unit` expressed in the base unit. It
      knows exactly the six table units, and a base unit is its own base. */
  function ToBase(unit: string, x: real): (base: Option<real>)
    ensures base.Some? <==> CategoryOf(unit).Some?
    ensures IsBaseUnit(unit) ==> base == Some(x)
  {
    if unit == "meters" then Some(x)
    else if unit == "feet" then Some(x * 0.3048)
    else if unit == "kilograms" then Some(x)
    else if unit == "pounds" then Some(x * 0.453592)
    else if unit == "celsius" then Some(x)
    else if unit == "fahrenheit" then Some((x - 32.0) * 5.0 / 9.0)
    else None
  }

  /** The second switch: a base-unit value expressed in `unit`. It knows
      exactly the six table units, and a base unit is its own base. */
  function FromBase(unit: string, base: real): (v: Option<real>)
    ensures v.Some? <==> CategoryOf(unit).Some?
    ensures IsBaseUnit(unit) ==> v == Some(base)
  {
    if unit == "meters" then Some(base)
    else if unit == "feet" then Some(base / 0.3048)
    else if unit == "kilograms" then Some(base)
    else if unit == "pounds" then Some(base / 0.453592)
    else if unit == "celsius" then Some(base)
    else if unit == "fahrenheit" then Some(base * 9.0 / 5.0 + 32.0)
    else None
  }

  datatype Outcome =
    | InvalidValue
    | IncompatibleUnits
    | UnsupportedFrom
    | UnsupportedTo
    | Converted(input: real, value: real)

  /** The text shown for each failure. */
  function Message(o: Outcome): string
    requires !o.Converted?
  {
    match o
    case InvalidValue => "Invalid input value."
    case IncompatibleUnits => "Invalid conversion: Cannot convert between different unit types."
    case UnsupportedFrom => "Unsupported from unit."
    case UnsupportedTo => "Unsupported to unit."
  }

  /** `convertUnits()`. A converted value denotes the same quantity as the
      input: both come to the same amount of the base unit. */
  function ConvertUnits(input: Option<real>, fromUnit: string, toUnit: string): (o: Outcome)
    ensures input.None? <==> o == InvalidValue
    ensures input.Some? && CategoryOf(fromUnit) != CategoryOf(toUnit) ==> o == IncompatibleUnits
    ensures o.Converted? ==> o.input == input.value
    ensures o.Converted? ==> ToBase(toUnit, o.value) == ToBase(fromUnit, o.input)
  {
    match input
    case None => InvalidValue
    case Some(x) =>
      if CategoryOf(fromUnit) != CategoryOf(toUnit) then IncompatibleUnits
      else
        match ToBase(fromUnit, x)
        case None => UnsupportedFrom
        case Some(base) =>
          match FromBase(toUnit, base)
          case None => UnsupportedTo
          case Some(v) =>
            BackToBase(toUnit, base);
            Converted(x, v)
  }

  /** The two switches are inverse to each other on every unit of the table. */
  lemma BackToBase(unit: string, base: real)
    requires FromBase(unit, base).Some?
    ensures ToBase(unit, FromBase(unit, base).value) == Some(base)
  {
  }

  lemma BaseBack(unit: string, x: real)
    requires ToBase(unit, x).Some?
    ensures FromBase(unit, ToBase(unit, x).value) == Some(x)
  {
  }

  /** Both switches keep the order of values: every factor is positive. */
  lemma SwitchesKeepOrder(unit: string, x: real, y: real)
    requires CategoryOf(unit).Some? && x < y
    ensures ToBase(unit, x).value < ToBase(unit, y).value
    ensures FromBase(unit, x).value < FromBase(unit, y).value
  {
  }

  /** A larger input converts to a larger output. */
  lemma ConvertKeepsOrder(x: real, y: real, fromUnit: string, toUnit: string)
    requires ConvertUnits(Some(x), fromUnit, toUnit).Converted? && x < y
    ensures ConvertUnits(Some(y), fromUnit, toUnit).Converted?
    ensures ConvertUnits(Some(x), fromUnit, toUnit).value < ConvertUnits(Some(y), fromUnit, toUnit).value
  {
    SwitchesKeepOrder(fromUnit, x, y);
    SwitchesKeepOrder(toUnit, ToBase(fromUnit, x).value, ToBase(fromUnit, y).value);
  }

  /** Converting a unit to itself returns the input. */
  lemma ConvertToSelf(x: real, unit: string)
    requires CategoryOf(unit).Some?
    ensures ConvertUnits(Some(x), unit, unit) == Converted(x, x)
  {
    BaseBack(unit, x);
  }

  /** Converting a to b and the result back to a returns the input. */
  lemma RoundTrip(x: real, a: string, b: string)
    requires ConvertUnits(Some(x), a, b).Converted?
    ensures ConvertUnits(Some(ConvertUnits(Some(x), a, b).value), b, a) == Converted(ConvertUnits(Some(x), a, b).value, x)
  {
    var y := ConvertUnits(Some(x), a, b).value;
    var base := ToBase(a, x).value;
    BackToBase(b, base);
    BaseBack(a, x);
  }

  /** Water freezes at 32 °F = 0 °C and boils at 212 °F = 100 °C. */
  lemma WaterFixedPoints()
    ensures ConvertUnits(Some(32.0), "fahrenheit", "celsius") == Converted(32.0, 0.0)
    ensures ConvertUnits(Some(212.0), "fahrenheit", "celsius") == Converted(212.0, 100.0)
    ensures ConvertUnits(Some(0.0), "celsius", "fahrenheit") == Converted(0.0, 32.0)
    ensures ConvertUnits(Some(100.0), "celsius", "fahrenheit") == Converted(100.0, 212.0)
  {
  }

  /** 'Unsupported from unit.' appears exactly when both units are missing
      from the table, and 'Unsupported to unit.' never appears: an unknown
      target passes the category check only with an unknown source, which
      the first switch already rejects. */
  lemma UnsupportedBranches(input: Option<real>, fromUnit: string, toUnit: string)
    ensures ConvertUnits(input, fromUnit, toUnit) == UnsupportedFrom
        <==> input.Some? && CategoryOf(fromUnit).None? && CategoryOf(toUnit).None?
    ensures ConvertUnits(input, fromUnit, toUnit) != UnsupportedTo
  {
  }

  /** Units of the table always convert within their category. */
  lemma SameCategoryConverts(x: real, fromUnit: string, toUnit: string)
    requires CategoryOf(fromUnit).Some? && CategoryOf(fromUnit) == CategoryOf(toUnit)
    ensures ConvertUnits(Some(x), fromUnit, toUnit).Converted?
  {
  }
}
