/** Proleptic Gregorian calendar dates as moment and the JavaScript `Date` use them,
    reduced to their calendar part (year, month 1..12, day of month). */
module Dates {

  datatype Date = Date(year: int, month: int, day: int)

  /** Gregorian leap-year rule (divisibility tests agree for truncating and
      Euclidean remainders, so negative years follow JavaScript too). */
  predicate IsLeapYear(y: int)
  {
    (y % 4 == 0 && y % 100 != 0) || y % 400 == 0
  }

  function DaysInMonth(y: int, m: int): (n: int)
    requires 1 <= m <= 12
    ensures 28 <= n <= 31
  {
    if m == 2 then (if IsLeapYear(y) then 29 else 28)
    else if m == 4 || m == 6 || m == 9 || m == 11 then 30
    else 31
  }

  /** A date that exists on the calendar: moment's overflow check. */
  predicate ValidDate(d: Date)
  {
    1 <= d.month <= 12 && 1 <= d.day <= DaysInMonth(d.year, d.month)
  }

  type CalendarDate = d: Date | ValidDate(d) witness Date(1970, 1, 1)

  /** Calendar order: earlier year, then earlier month, then earlier day. */
  predicate Before(a: Date, b: Date)
  {
    a.year < b.year
    || (a.year == b.year && a.month < b.month)
    || (a.year == b.year && a.month == b.month && a.day < b.day)
  }

  /** `add(1, 'day')`: the following calendar day, rolling over months and years. */
  function NextDay(d: CalendarDate): (r: CalendarDate)
    ensures Before(d, r)
  {
    if d.day < DaysInMonth(d.year, d.month) then Date(d.year, d.month, d.day + 1)
    else if d.month < 12 then Date(d.year, d.month + 1, 1)
    else Date(d.year + 1, 1, 1)
  }

  /** moment's `year(y)` setter: keeps month and day, except that 29 February
      becomes 28 February when the target year is not a leap year. */
  function WithYear(d: CalendarDate, y: int): (r: CalendarDate)
    ensures r.year == y && r.month == d.month
    ensures r.day == d.day || (d.month == 2 && d.day == 29 && !IsLeapYear(y) && r.day == 28)
  {
    if d.month == 2 && d.day == 29 && !IsLeapYear(y) then Date(y, 2, 28)
    else Date(y, d.month, d.day)
  }

  // ---------------------------------------------------------------------------
  // Day numbering, the reference definition of "one calendar day later"

  /** Days in the months of year `y` before month `m`. */
  function DaysBeforeMonth(y: int, m: int): nat
    requires 1 <= m <= 13
    decreases m
  {
    if m == 1 then 0 else DaysBeforeMonth(y, m - 1) + DaysInMonth(y, m - 1)
  }

  function YearLength(y: int): nat
  {
    DaysBeforeMonth(y, 13)
  }

  /** Days from 1 January of year 0 to 1 January of year `y` (negative before year 0). */
  function DaysBeforeYear(y: int): int
    decreases if y < 0 then -y else y
  {
    if y == 0 then 0
    else if y > 0 then DaysBeforeYear(y - 1) + YearLength(y - 1)
    else DaysBeforeYear(y + 1) - YearLength(y)
  }

  /** Number of the day counted from 1 January of year 0. */
  function Ordinal(d: CalendarDate): int
  {
    DaysBeforeYear(d.year) + DaysBeforeMonth(d.year, d.month) + d.day - 1
  }

  lemma DaysBeforeYearStep(y: int)
    ensures DaysBeforeYear(y + 1) == DaysBeforeYear(y) + YearLength(y)
  {
  }

  lemma {:induction false} DaysBeforeMonthMonotone(y: int, m1: int, m2: int)
    requires 1 <= m1 <= m2 <= 13
    ensures DaysBeforeMonth(y, m1) <= DaysBeforeMonth(y, m2)
    decreases m2 - m1
  {
    if m1 < m2 {
      DaysBeforeMonthMonotone(y, m1, m2 - 1);
    }
  }

  lemma {:induction false} DaysBeforeYearMonotone(y1: int, y2: int)
    requires y1 <= y2
    ensures DaysBeforeYear(y1) <= DaysBeforeYear(y2)
    decreases y2 - y1
  {
    if y1 < y2 {
      DaysBeforeYearMonotone(y1, y2 - 1);
      DaysBeforeYearStep(y2 - 1);
    }
  }

  /** A day's number stays inside its year's block of days. */
  lemma DayWithinYear(d: CalendarDate)
    ensures 0 <= DaysBeforeMonth(d.year, d.month) + d.day - 1 < YearLength(d.year)
  {
    DaysBeforeMonthMonotone(d.year, d.month + 1, 13);
  }

  lemma YearsOrdered(a: CalendarDate, b: CalendarDate)
    requires a.year < b.year
    ensures Ordinal(a) < Ordinal(b)
  {
    DayWithinYear(a);
    DaysBeforeYearStep(a.year);
    DaysBeforeYearMonotone(a.year + 1, b.year);
  }

  lemma MonthsOrdered(a: CalendarDate, b: CalendarDate)
    requires a.year == b.year && a.month < b.month
    ensures Ordinal(a) < Ordinal(b)
  {
    DaysBeforeMonthMonotone(a.year, a.month + 1, b.month);
  }

  /** The day numbering follows calendar order, so it is one-to-one. */
  lemma OrdinalFollowsCalendarOrder(a: CalendarDate, b: CalendarDate)
    requires Before(a, b)
    ensures Ordinal(a) < Ordinal(b)
  {
    if a.year < b.year {
      YearsOrdered(a, b);
    } else if a.month < b.month {
      MonthsOrdered(a, b);
    }
  }

  lemma OrdinalInjective(a: CalendarDate, b: CalendarDate)
    requires Ordinal(a) == Ordinal(b)
    ensures a == b
  {
    if Before(a, b) {
      OrdinalFollowsCalendarOrder(a, b);
    } else if Before(b, a) {
      OrdinalFollowsCalendarOrder(b, a);
    }
  }

  /** NextDay is exactly one day later: its number is one more. */
  lemma NextDayIsOneDayLater(d: CalendarDate)
    ensures Before(d, NextDay(d))
    ensures Ordinal(NextDay(d)) == Ordinal(d) + 1
  {
    // The case asserts name NextDay's result in each branch; they keep this proof
    // within its resource budget on every solver seed.
    var n := NextDay(d);
    if d.day < DaysInMonth(d.year, d.month) {
      assert n == Date(d.year, d.month, d.day + 1);
    } else if d.month < 12 {
      assert n == Date(d.year, d.month + 1, 1);
      NextMonthOrdinal(d);
    } else {
      assert n == Date(d.year + 1, 1, 1);
      NextYearOrdinal(d);
    }
  }

  lemma NextMonthOrdinal(d: CalendarDate)
    requires d.day == DaysInMonth(d.year, d.month) && d.month < 12
    ensures Ordinal(Date(d.year, d.month + 1, 1)) == Ordinal(d) + 1
  {
    assert DaysBeforeMonth(d.year, d.month + 1) == DaysBeforeMonth(d.year, d.month) + d.day;
  }

  lemma NextYearOrdinal(d: CalendarDate)
    requires d.month == 12 && d.day == 31
    ensures Ordinal(Date(d.year + 1, 1, 1)) == Ordinal(d) + 1
  {
    DaysBeforeYearStep(d.year);
    assert YearLength(d.year) == DaysBeforeMonth(d.year, 12) + 31;
  }

  /** No calendar date lies strictly between a date and its NextDay. */
  lemma NextDayIsSuccessor(d: CalendarDate, e: CalendarDate)
    requires Before(d, e)
    ensures e == NextDay(d) || Before(NextDay(d), e)
  {
    NextDayIsOneDayLater(d);
    OrdinalFollowsCalendarOrder(d, e);
    var n := NextDay(d);
    if Before(e, n) {
      OrdinalFollowsCalendarOrder(e, n);
      assert false;
    }
  }
}
