/**
 * The Unix timestamp page's two computations: `performTimestampOperation`
 * (shift a timestamp in seconds by a number of fixed-length units) and
 * `getRelativeTimeString` (describe a millisecond timestamp relative to
 * the current time, which is a parameter here).
 */
module UnixTimestamp {
  import opened Wrappers
  import Numerals

  /** Seconds in one of the fixed-length units; 0 for any other unit
      string, because `milliseconds` keeps its initial 0. */
  function UnitSeconds(unit: string): (n: nat)
    ensures n > 0 <==> unit in ["seconds", "minutes", "hours", "days", "weeks"]
  {
    if unit == "seconds" then 1
    else if unit == "minutes" then 60
    else if unit == "hours" then 60 * 60
    else if unit == "days" then 24 * 60 * 60
    else if unit == "weeks" then 7 * 24 * 60 * 60
    else 0
  }

  predicate IsCalendarUnit(unit: string) {
    unit == "months" || unit == "years"
  }

  /** The new timestamp, or `Calendar` for months and years, which go
      through local-time `Date.setMonth`/`setFullYear`. */
  datatype Outcome = Shifted(timestamp: int) | Calendar

  /** `performTimestampOperation(timestamp, operation, value, unit)`:
      `value` is turned into milliseconds, divided back into seconds and
      added when the operation is 'add', subtracted otherwise. The shown
      `Math.floor` leaves the whole result as it is. */
  function PerformOperation(timestamp: int, operation: string, value: int, unit: string): (r: Outcome)
    ensures r == Calendar <==> IsCalendarUnit(unit)
    ensures r.Shifted? && operation == "add" ==> r.timestamp == timestamp + value * UnitSeconds(unit)
    ensures r.Shifted? && operation != "add" ==> r.timestamp == timestamp - value * UnitSeconds(unit)
  {
    if IsCalendarUnit(unit) then Calendar
    else
      var milliseconds := value * UnitSeconds(unit) * 1000;
      assert milliseconds / 1000 == value * UnitSeconds(unit);
      Shifted(if operation == "add" then timestamp + milliseconds / 1000
              else timestamp - milliseconds / 1000)
  }

  /** The fixed factors: 1, 60, 3600, 86400 and 604800 seconds. */
  lemma UnitFactors(timestamp: int, value: int)
    ensures PerformOperation(timestamp, "add", value, "seconds") == Shifted(timestamp + value)
    ensures PerformOperation(timestamp, "add", value, "minutes") == Shifted(timestamp + 60 * value)
    ensures PerformOperation(timestamp, "add", value, "hours") == Shifted(timestamp + 3600 * value)
    ensures PerformOperation(timestamp, "add", value, "days") == Shifted(timestamp + 86400 * value)
    ensures PerformOperation(timestamp, "add", value, "weeks") == Shifted(timestamp + 604800 * value)
  {
  }

  /** Adding and then subtracting the same amount gives the timestamp back. */
  lemma AddThenSubtract(timestamp: int, value: int, unit: string, operation: string)
    requires !IsCalendarUnit(unit) && operation != "add"
    ensures PerformOperation(PerformOperation(timestamp, "add", value, unit).timestamp, operation, value, unit)
         == Shifted(timestamp)
  {
  }

  /** Every operation other than 'add' subtracts, i.e. adds the negated value. */
  lemma OtherOperationsSubtract(timestamp: int, operation: string, value: int, unit: string)
    requires operation != "add"
    ensures PerformOperation(timestamp, operation, value, unit) == PerformOperation(timestamp, "add", -value, unit)
  {
  }

  /** An unknown unit leaves the timestamp unchanged. */
  lemma UnknownUnitKeeps(timestamp: int, operation: string, value: int, unit: string)
    requires UnitSeconds(unit) == 0 && !IsCalendarUnit(unit)
    ensures PerformOperation(timestamp, operation, value, unit) == Shifted(timestamp)
  {
  }

  // ---------------------------------------------------------------------
  // getRelativeTimeString
  // ---------------------------------------------------------------------

  /** `Math.round(a / b)` for a positive whole divisor: the nearest whole
      number, halves rounded up. */
  function RoundDiv(a: int, b: int): (q: int)
    requires b > 0
    ensures 2 * b * q <= 2 * a + b < 2 * b * q + 2 * b
  {
    (2 * a + b) / (2 * b)
  }

  /** The description before it is printed. */
  datatype Relative = Relative(amount: nat, unit: string, past: bool)

  function Abs(n: int): nat {
    if n < 0 then -n else n
  }

  /** The six units the text can name. */
  const RelativeUnits: seq<string> := ["seconds", "minutes", "hours", "days", "months", "years"]

  /** The cascade of `getRelativeTimeString(timestamp)` with `Date.now()`
      given as `now`: one of the six units, and a past time is at least one
      of them. */
  function RelativeTime(timestamp: int, now: int): (rel: Relative)
    ensures rel.unit in RelativeUnits
    ensures rel.past ==> rel.amount >= 1
  {
    var diffMs := timestamp - now;
    var diffSec := RoundDiv(diffMs, 1000);
    var diffMin := RoundDiv(diffSec, 60);
    var diffHour := RoundDiv(diffMin, 60);
    var diffDay := RoundDiv(diffHour, 24);
    if diffSec < 0 then
      if diffSec > -60 then Relative(Abs(diffSec), "seconds", true)
      else if diffMin > -60 then Relative(Abs(diffMin), "minutes", true)
      else if diffHour > -24 then Relative(Abs(diffHour), "hours", true)
      else if diffDay > -30 then Relative(Abs(diffDay), "days", true)
      else if RoundDiv(diffDay, 30) > -12 then Relative(Abs(RoundDiv(diffDay, 30)), "months", true)
      else Relative(Abs(RoundDiv(diffDay, 365)), "years", true)
    else
      if diffSec < 60 then Relative(diffSec, "seconds", false)
      else if diffMin < 60 then Relative(diffMin, "minutes", false)
      else if diffHour < 24 then Relative(diffHour, "hours", false)
      else if diffDay < 30 then Relative(diffDay, "days", false)
      else if RoundDiv(diffDay, 30) < 12 then Relative(RoundDiv(diffDay, 30), "months", false)
      else Relative(RoundDiv(diffDay, 365), "years", false)
  }

  /** `parseInt` reads a whole amount back from its decimal text followed
      by a space. */
  lemma ReadsAmount(amount: nat, tail: string)
    requires |tail| > 0 && tail[0] == ' '
    ensures Numerals.ParseInt(Numerals.Render(amount, 10) + tail, 10) == Some(amount)
  {
    var d := Numerals.Numeral(amount, 10);
    Numerals.RenderParts(amount, 10);
    assert "" + d == d;
    assert "" + "" + d + tail == d + tail;
    Numerals.ParseIntReads("", "", d, tail, 10);
    Numerals.ValueNumeral(amount, 10);
  }

  /** "N unit ago" or "in N unit". A past text starts with a digit and ends
      with " ago"; a future one starts with "in " and ends with its unit. */
  function Describe(rel: Relative): (s: string)
    ensures |s| >= 4 + |rel.unit|
    ensures rel.past <==> '0' <= s[0] <= '9'
    ensures rel.past ==> s[|s| - 4..] == " ago"
    ensures !rel.past ==> s[..3] == "in " && s[|s| - |rel.unit|..] == rel.unit
  {
    var n := Numerals.Render(rel.amount, 10);
    if rel.past then n + " " + rel.unit + " ago"
    else
      var s := "in " + n + " " + rel.unit;
      assert s[|s| - |rel.unit|..] == rel.unit;
      s
  }

  /** `parseInt` reads the amount back from where the number starts. */
  lemma DescribeReadsAmount(rel: Relative)
    ensures rel.past ==> Numerals.ParseInt(Describe(rel), 10) == Some(rel.amount)
    ensures !rel.past ==> Numerals.ParseInt(Describe(rel)[3..], 10) == Some(rel.amount)
  {
    var n := Numerals.Render(rel.amount, 10);
    var s := Describe(rel);
    if rel.past {
      assert s == n + (" " + rel.unit + " ago");
      ReadsAmount(rel.amount, " " + rel.unit + " ago");
    } else {
      assert s[3..] == n + (" " + rel.unit);
      ReadsAmount(rel.amount, " " + rel.unit);
    }
  }

  /** None of the six units ends in " ago": the fourth character from
      their end is a letter. */
  lemma UnitsNotAgo(unit: string)
    requires unit in RelativeUnits
    ensures |unit| >= 4 && unit[|unit| - 4] != ' '
  {
  }

  /** A future text ends with its unit, and so not with " ago". */
  lemma FutureTextNotAgo(rel: Relative)
    requires !rel.past && rel.unit in RelativeUnits
    ensures Describe(rel)[|Describe(rel)| - 4..] != " ago"
  {
    var s := Describe(rel);
    UnitsNotAgo(rel.unit);
    assert s[|s| - 4] == rel.unit[|rel.unit| - 4];
  }

  /** `getRelativeTimeString(timestamp)`: the text ends in " ago" exactly
      when the timestamp is more than half a second before now. */
  function RelativeTimeString(timestamp: int, now: int): (s: string)
    ensures |s| >= 4
    ensures s[|s| - 4..] == " ago" <==> timestamp - now < -500
  {
    var rel := RelativeTime(timestamp, now);
    PastIffBeforeHalfSecond(timestamp, now);
    if rel.past then Describe(rel)
    else
      FutureTextNotAgo(rel);
      Describe(rel)
  }

  /** The text is in the past exactly when the difference rounds to a
      negative number of seconds, that is when the timestamp is more than
      half a second before now. */
  lemma PastIffBeforeHalfSecond(timestamp: int, now: int)
    ensures RelativeTime(timestamp, now).past <==> timestamp - now < -500
  {
  }

  /** Seconds are used for differences under 59.5 seconds either way. */
  lemma SecondsWindow(timestamp: int, now: int)
    ensures RelativeTime(timestamp, now).unit == "seconds" <==> -59500 <= timestamp - now < 59500
  {
  }

  /** Each unit prints an amount below the next unit's threshold; past
      amounts are never 0. */
  lemma AmountBounds(timestamp: int, now: int)
    ensures var rel := RelativeTime(timestamp, now);
      && (rel.unit == "seconds" ==> (if rel.past then 1 else 0) <= rel.amount <= 59)
      && (rel.unit == "minutes" ==> 1 <= rel.amount <= 59)
      && (rel.unit == "hours" ==> 1 <= rel.amount <= 23)
      && (rel.unit == "days" ==> 1 <= rel.amount <= 29)
      && (rel.unit == "months" ==> 1 <= rel.amount <= 11)
      && (rel.unit == "years" ==> 1 <= rel.amount)
  {
  }

  /** The current instant is "in 0 seconds". */
  lemma NowIsInZeroSeconds(now: int)
    ensures RelativeTimeString(now, now) == "in 0 seconds"
  {
    ZeroDifference(now);
    DescribeNow();
  }

  lemma ZeroDifference(now: int)
    ensures RelativeTime(now, now) == Relative(0, "seconds", false)
  {
    assert RoundDiv(0, 1000) == 0;
  }

  lemma DescribeNow()
    ensures Describe(Relative(0, "seconds", false)) == "in 0 seconds"
  {
    assert Numerals.DigitChar(0) == '0';
    assert Numerals.Render(0, 10) == "0";
  }
}
