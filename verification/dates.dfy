/**
 * The part of .NET's System.DateTime that the student record relies on:
 * a calendar date with a time of day, the strict order that `<` gives on
 * two values, and the `Year` component. Tick arithmetic, time zones and the
 * `Kind` flag are not modelled.
 */
module Dates {

  /** One day in .NET ticks of 100 nanoseconds. */
  const TicksPerDay: int := 864_000_000_000

  /** A calendar instant: year, month, day and the ticks elapsed since midnight. */
  datatype DateTime = DateTime(year: int, month: int, day: int, timeOfDay: int)

  /** Gregorian leap-year rule, as DateTime.IsLeapYear applies it. */
  predicate IsLeapYear(y: int)
  {
    y % 4 == 0 && (y % 100 != 0 || y % 400 == 0)
  }

  function DaysInMonth(y: int, m: int): (r: int)
    requires 1 <= m <= 12
    ensures 28 <= r <= 31
    ensures m == 2 ==> (r == 29 <==> IsLeapYear(y))
  {
    if m == 2 then (if IsLeapYear(y) then 29 else 28)
    else if m == 4 || m == 6 || m == 9 || m == 11 then 30
    else 31
  }

  /** The values a DateTime can hold: years 1 to 9999, real days, a time of day under 24 hours. */
  predicate Valid(d: DateTime)
  {
    1 <= d.year <= 9999 &&
    1 <= d.month <= 12 &&
    1 <= d.day <= DaysInMonth(d.year, d.month) &&
    0 <= d.timeOfDay < TicksPerDay
  }

  type Date = d: DateTime | Valid(d) witness DateTime(1, 1, 1, 0)

  /** DateTime.MinValue: midnight of 1 January of year 1, the default value of a DateTime field. */
  const MinValue: Date := DateTime(1, 1, 1, 0)

  /** `a < b` on DateTime: `a` is a strictly earlier instant than `b`. */
  predicate Before(a: DateTime, b: DateTime)
  {
    a.year < b.year ||
    (a.year == b.year && (a.month < b.month ||
    (a.month == b.month && (a.day < b.day ||
    (a.day == b.day && a.timeOfDay < b.timeOfDay)))))
  }

  /** Calendar order of the month and day alone, years ignored: `a` falls no later in its year than `b` does. */
  predicate MonthDayAtMost(a: DateTime, b: DateTime)
  {
    a.month < b.month || (a.month == b.month && a.day <= b.day)
  }

  lemma BeforeIsStrictTotalOrder(a: DateTime, b: DateTime, c: DateTime)
    ensures !Before(a, a)
    ensures Before(a, b) && Before(b, c) ==> Before(a, c)
    ensures a == b || Before(a, b) || Before(b, a)
    ensures !(Before(a, b) && Before(b, a))
  {
  }

  /** Nothing valid comes before DateTime.MinValue, and it comes before every other valid value. */
  lemma MinValueIsLeast(d: Date)
    ensures !Before(d, MinValue)
    ensures d != MinValue ==> Before(MinValue, d)
  {
  }
}
