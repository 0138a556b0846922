/**
 * The part of Python's proleptic Gregorian `datetime.date` that the date
 * parser uses: validity of (year, month, day), the day before a date, and
 * the ordering of dates.
 */
module Calendar {

  const MinYear := 1
  const MaxYear := 9999

  datatype Date = Date(year: int, month: int, day: int)

  datatype DateTime = DateTime(date: Date, hour: int, minute: int)

  predicate IsLeap(y: int)
  {
    y % 4 == 0 && (y % 100 != 0 || y % 400 == 0)
  }

  function DaysInMonth(y: int, m: int): (r: int)
    requires 1 <= m <= 12
    ensures 28 <= r <= 31
  {
    if m == 2 then (if IsLeap(y) then 29 else 28)
    else if m == 4 || m == 6 || m == 9 || m == 11 then 30
    else 31
  }

  function DaysInYear(y: int): int
  {
    if IsLeap(y) then 366 else 365
  }

  /** What datetime.date(year, month, day) accepts without raising ValueError. */
  predicate ValidDate(d: Date): (v: bool)
    ensures v ==> 1 <= d.day <= 31 && (d.day == 31 ==> d.month in {1, 3, 5, 7, 8, 10, 12})
    ensures v ==> (d.month == 2 ==> d.day <= 29) && (d.month == 2 && d.day == 29 ==> IsLeap(d.year))
  {
    MinYear <= d.year <= MaxYear && 1 <= d.month <= 12 && 1 <= d.day <= DaysInMonth(d.year, d.month)
  }

  /** What datetime.datetime(...) accepts, minutes and hours included. */
  predicate ValidDateTime(t: DateTime)
  {
    ValidDate(t.date) && 0 <= t.hour < 24 && 0 <= t.minute < 60
  }

  /** `a > b` on datetime.date: lexicographic on (year, month, day). */
  predicate After(a: Date, b: Date)
  {
    a.year > b.year ||
    (a.year == b.year && (a.month > b.month || (a.month == b.month && a.day > b.day)))
  }

  /** `>` on dates is a strict total order: irreflexive, transitive, and any two dates compare. */
  lemma AfterStrictTotal(a: Date, b: Date, c: Date)
    ensures !After(a, a)
    ensures After(a, b) && After(b, c) ==> After(a, c)
    ensures a == b || After(a, b) || After(b, a)
    ensures !(After(a, b) && After(b, a))
  {
  }

  /** Days in the years before y, counted from 1 January of year 1. */
  function DaysBeforeYear(y: int): nat
    requires y >= MinYear
  {
    if y == MinYear then 0 else DaysBeforeYear(y - 1) + DaysInYear(y - 1)
  }

  /** Days of year y before the first of month m. */
  function DaysBeforeMonth(y: int, m: int): nat
    requires 1 <= m <= 12
  {
    if m == 1 then 0 else DaysBeforeMonth(y, m - 1) + DaysInMonth(y, m - 1)
  }

  /** date.toordinal(): 1 January of year 1 is day 1. */
  function Ordinal(d: Date): int
    requires ValidDate(d)
  {
    DaysBeforeYear(d.year) + DaysBeforeMonth(d.year, d.month) + d.day
  }

  lemma YearLength(y: int)
    ensures DaysBeforeMonth(y, 12) + DaysInMonth(y, 12) == DaysInYear(y)
  {
    assert DaysBeforeMonth(y, 1) == 0;
    assert DaysBeforeMonth(y, 2) == 31;
    assert DaysBeforeMonth(y, 3) == 31 + DaysInMonth(y, 2);
    assert DaysBeforeMonth(y, 4) == DaysBeforeMonth(y, 3) + 31;
    assert DaysBeforeMonth(y, 5) == DaysBeforeMonth(y, 4) + 30;
    assert DaysBeforeMonth(y, 6) == DaysBeforeMonth(y, 5) + 31;
    assert DaysBeforeMonth(y, 7) == DaysBeforeMonth(y, 6) + 30;
    assert DaysBeforeMonth(y, 8) == DaysBeforeMonth(y, 7) + 31;
    assert DaysBeforeMonth(y, 9) == DaysBeforeMonth(y, 8) + 31;
    assert DaysBeforeMonth(y, 10) == DaysBeforeMonth(y, 9) + 30;
    assert DaysBeforeMonth(y, 11) == DaysBeforeMonth(y, 10) + 31;
    assert DaysBeforeMonth(y, 12) == DaysBeforeMonth(y, 11) + 30;
  }

  /** Later months start after the whole of every earlier month. */
  lemma {:induction false} MonthsOrdered(y: int, m1: int, m2: int)
    requires 1 <= m1 < m2 <= 12
    ensures DaysBeforeMonth(y, m1) + DaysInMonth(y, m1) <= DaysBeforeMonth(y, m2)
    decreases m2
  {
    if m1 < m2 - 1 {
      MonthsOrdered(y, m1, m2 - 1);
    }
  }

  /** Later years start after the whole of every earlier year. */
  lemma {:induction false} YearsOrdered(y1: int, y2: int)
    requires MinYear <= y1 < y2
    ensures DaysBeforeYear(y1) + DaysInYear(y1) <= DaysBeforeYear(y2)
    decreases y2
  {
    if y1 < y2 - 1 {
      YearsOrdered(y1, y2 - 1);
    }
  }

  lemma DayOfYearBounds(d: Date)
    requires ValidDate(d)
    ensures 1 <= DaysBeforeMonth(d.year, d.month) + d.day <= DaysInYear(d.year)
  {
    YearLength(d.year);
    if d.month < 12 {
      MonthsOrdered(d.year, d.month, 12);
    }
  }

  /** The lexicographic comparison of datetime.date agrees with counting days. */
  lemma AfterIsLaterOrdinal(a: Date, b: Date)
    requires ValidDate(a) && ValidDate(b)
    ensures After(a, b) <==> Ordinal(a) > Ordinal(b)
  {
    DayOfYearBounds(a);
    DayOfYearBounds(b);
    if a.year < b.year {
      YearsOrdered(a.year, b.year);
    } else if a.year > b.year {
      YearsOrdered(b.year, a.year);
    } else if a.month < b.month {
      MonthsOrdered(a.year, a.month, b.month);
    } else if a.month > b.month {
      MonthsOrdered(a.year, b.month, a.month);
    }
  }

  /** date - timedelta(days=1); only the very first date has no predecessor. */
  function PrevDay(d: Date): (r: Date)
    requires ValidDate(d) && d != Date(MinYear, 1, 1)
    ensures ValidDate(r)
    ensures Ordinal(r) == Ordinal(d) - 1
  {
    if d.day > 1 then Date(d.year, d.month, d.day - 1)
    else if d.month > 1 then Date(d.year, d.month - 1, DaysInMonth(d.year, d.month - 1))
    else
      YearLength(d.year - 1);
      Date(d.year - 1, 12, 31)
  }

  /** No valid date lies strictly between the day before d and d. */
  lemma PrevDayIsAdjacent(d: Date, e: Date)
    requires ValidDate(d) && d != Date(MinYear, 1, 1) && ValidDate(e)
    ensures After(d, PrevDay(d)) && (After(e, PrevDay(d)) ==> !After(d, e))
  {
    AfterIsLaterOrdinal(d, PrevDay(d));
    AfterIsLaterOrdinal(e, PrevDay(d));
    AfterIsLaterOrdinal(d, e);
  }
}
