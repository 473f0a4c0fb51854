/**
 * The Gregorian calendar as the date-validation code of index.tsx relies on it
 * through the JavaScript `Date` object: month lengths with the 4/100/400 leap
 * rule, the day overflow of `new Date(year, month - 1, day)`, and the ordering of
 * two dates by their time value.
 */
module Calendar {

  /** A calendar triple as index.tsx reads it: day, month (1-12, not 0-11) and year. */
  datatype Date = Date(day: int, month: int, year: int)

  /** The first year from which day numbers are counted; every year the model meets is at least this one. */
  const Epoch := 1900

  predicate IsLeapYear(y: int) {
    y % 4 == 0 && (y % 100 != 0 || y % 400 == 0)
  }

  function DaysInMonth(m: int, y: int): (n: int)
    requires 1 <= m <= 12
    ensures 28 <= n <= 31
    ensures n == 29 <==> m == 2 && IsLeapYear(y)
  {
    if m == 2 then (if IsLeapYear(y) then 29 else 28)
    else if m == 4 || m == 6 || m == 9 || m == 11 then 30
    else 31
  }

  function YearLength(y: int): int {
    if IsLeapYear(y) then 366 else 365
  }

  /** A triple that names an existing day: the month is 1-12 and the day lies inside that month. */
  predicate IsCalendarDate(x: Date) {
    1 <= x.month <= 12 && 1 <= x.day <= DaysInMonth(x.month, x.year)
  }

  /**
   * The date that `new Date(y, m - 1, d)` denotes for a day d >= 1: a day past the
   * end of the month carries into the next month (and December into January of the
   * next year), as many times as needed.
   */
  function Rollover(y: int, m: int, d: int): (r: Date)
    requires 1 <= m <= 12 && d >= 1
    ensures IsCalendarDate(r)
    ensures r.year > y || (r.year == y && r.month >= m)
    decreases d
  {
    if d <= DaysInMonth(m, y) then Date(d, m, y)
    else if m == 12 then Rollover(y + 1, 1, d - 31)
    else Rollover(y, m + 1, d - DaysInMonth(m, y))
  }

  function DaysBeforeYear(y: int): nat
    requires y >= Epoch
    decreases y
  {
    if y == Epoch then 0 else DaysBeforeYear(y - 1) + YearLength(y - 1)
  }

  /** Days of year y that come before the first day of month m (m = 13 gives the whole year). */
  function DaysBeforeMonth(m: int, y: int): nat
    requires 1 <= m <= 13
  {
    if m == 1 then 0 else DaysBeforeMonth(m - 1, y) + DaysInMonth(m - 1, y)
  }

  /**
   * The number of days from 1 January of the epoch year to x: up to the constant
   * offset between two epochs and the length of a day, the time value a JavaScript
   * `Date` holds for local midnight of x.
   */
  function DayNumber(x: Date): (n: int)
    requires 1 <= x.month <= 12 && x.year >= Epoch
    ensures IsCalendarDate(x) ==> DaysBeforeYear(x.year) <= n < DaysBeforeYear(x.year) + YearLength(x.year)
  {
    assert IsCalendarDate(x) ==> DaysBeforeMonth(x.month + 1, x.year) <= YearLength(x.year) by {
      if IsCalendarDate(x) {
        DaysBeforeMonthMonotonic(x.month + 1, 13, x.year);
        MonthsFillYear(x.year);
      }
    }
    DaysBeforeYear(x.year) + DaysBeforeMonth(x.month, x.year) + x.day - 1
  }

  /** Lexicographic order on (year, month, day): the order a reader gives two dates. */
  predicate Precedes(a: Date, b: Date) {
    a.year < b.year
    || (a.year == b.year && (a.month < b.month || (a.month == b.month && a.day < b.day)))
  }

  lemma {:induction false} MonthsFillYear(y: int)
    ensures DaysBeforeMonth(13, y) == YearLength(y)
  {
    assert DaysBeforeMonth(2, y) == 31;
    assert DaysBeforeMonth(4, y) == 62 + DaysInMonth(2, y);
    assert DaysBeforeMonth(6, y) == 123 + DaysInMonth(2, y);
    assert DaysBeforeMonth(8, y) == 184 + DaysInMonth(2, y);
    assert DaysBeforeMonth(10, y) == 245 + DaysInMonth(2, y);
    assert DaysBeforeMonth(12, y) == 306 + DaysInMonth(2, y);
  }

  lemma {:induction false} DaysBeforeMonthMonotonic(m1: int, m2: int, y: int)
    requires 1 <= m1 <= m2 <= 13
    ensures DaysBeforeMonth(m1, y) <= DaysBeforeMonth(m2, y)
    decreases m2 - m1
  {
    if m1 < m2 {
      DaysBeforeMonthMonotonic(m1, m2 - 1, y);
    }
  }

  lemma {:induction false} DaysBeforeYearMonotonic(y1: int, y2: int)
    requires Epoch <= y1 <= y2
    ensures DaysBeforeYear(y1) <= DaysBeforeYear(y2)
    decreases y2 - y1
  {
    if y1 < y2 {
      DaysBeforeYearMonotonic(y1, y2 - 1);
    }
  }

  lemma PrecedesByDayNumber(a: Date, b: Date)
    requires IsCalendarDate(a) && IsCalendarDate(b) && a.year >= Epoch && b.year >= Epoch
    requires Precedes(a, b)
    ensures DayNumber(a) < DayNumber(b)
  {
    if a.year < b.year {
      assert DayNumber(a) < DaysBeforeYear(a.year + 1);
      DaysBeforeYearMonotonic(a.year + 1, b.year);
    } else if a.month < b.month {
      DaysBeforeMonthMonotonic(a.month + 1, b.month, a.year);
    }
  }

  /**
   * Comparing two calendar dates by day number, as index.tsx:169 compares two `Date`
   * objects, is exactly the lexicographic order on (year, month, day).
   */
  lemma DayNumberOrder(a: Date, b: Date)
    requires IsCalendarDate(a) && IsCalendarDate(b) && a.year >= Epoch && b.year >= Epoch
    ensures DayNumber(a) < DayNumber(b) <==> Precedes(a, b)
    ensures DayNumber(a) == DayNumber(b) <==> a == b
  {
    if Precedes(a, b) {
      PrecedesByDayNumber(a, b);
    } else if Precedes(b, a) {
      PrecedesByDayNumber(b, a);
    }
  }

  /**
   * `new Date(y, m - 1, d)` is the day d - 1 days after the first of month m:
   * Rollover agrees with counting days.
   */
  lemma {:induction false} RolloverCountsDays(y: int, m: int, d: int)
    requires y >= Epoch && 1 <= m <= 12 && d >= 1
    ensures DayNumber(Rollover(y, m, d)) == DayNumber(Date(1, m, y)) + d - 1
    decreases d
  {
    if d <= DaysInMonth(m, y) {
    } else if m == 12 {
      RolloverCountsDays(y + 1, 1, d - 31);
      MonthsFillYear(y);
    } else {
      RolloverCountsDays(y, m + 1, d - DaysInMonth(m, y));
    }
  }

  /**
   * The read-back check at index.tsx:143: the date built from (d, m, y) reads back as
   * (d, m, y) exactly when d is a day of that month, so no rollover happened.
   */
  lemma RolloverIdentity(y: int, m: int, d: int)
    requires 1 <= m <= 12 && d >= 1
    ensures Rollover(y, m, d) == Date(d, m, y) <==> d <= DaysInMonth(m, y)
  {
  }
}
