/**
 * The proleptic Gregorian calendar date of an instant, as t.Year(),
 * t.Month() and t.Day() report it (in UTC in this model).
 */
module Calendar {
  import Clock

  /** 24 hours of nanoseconds: Go's calendar days are exactly 86400 seconds long. */
  const NanosPerDay: int := 86_400_000_000_000
  const DaysPer400Years: int := 146097

  predicate IsLeap(y: int) { y % 4 == 0 && (y % 100 != 0 || y % 400 == 0) }

  function DaysInYear(y: int): int { if IsLeap(y) then 366 else 365 }

  function DaysInMonth(y: int, m: int): (n: int)
    requires 1 <= m <= 12
    ensures 28 <= n <= 31
  {
    if m == 2 then (if IsLeap(y) then 29 else 28)
    else if m == 4 || m == 6 || m == 9 || m == 11 then 30
    else 31
  }

  /** The days of months m..12 of year y. */
  function DaysFromMonth(y: int, m: int): int
    requires 1 <= m <= 13
    decreases 13 - m
  {
    if m == 13 then 0 else DaysInMonth(y, m) + DaysFromMonth(y, m + 1)
  }

  /** The days of years a..b-1. */
  function DaysOfYears(a: int, b: int): int
    requires a <= b
    decreases b - a
  {
    if a == b then 0 else DaysInYear(a) + DaysOfYears(a + 1, b)
  }

  /** The leap years among years 1..y (and their negated count below year 1). */
  function Leaps(y: int): int { y / 4 - y / 100 + y / 400 }

  /** Stepping from year y - 1 to y adds one multiple of k exactly when k divides y. */
  lemma MultiplesStep(y: int, k: int)
    requires k == 4 || k == 100 || k == 400
    ensures y / k == (y - 1) / k + (if y % k == 0 then 1 else 0)
  {
    if k == 4 {
      assert y / 4 == (y - 1) / 4 + (if y % 4 == 0 then 1 else 0);
    } else if k == 100 {
      assert y / 100 == (y - 1) / 100 + (if y % 100 == 0 then 1 else 0);
    } else {
      assert y / 400 == (y - 1) / 400 + (if y % 400 == 0 then 1 else 0);
    }
  }

  /** Every multiple of 400 is one of 100, and every multiple of 100 one of 4. */
  lemma DivisorsNest(y: int)
    ensures y % 400 == 0 ==> y % 100 == 0
    ensures y % 100 == 0 ==> y % 4 == 0
  {
    var q400, q100 := y / 400, y / 100;
    if y % 400 == 0 {
      assert y == 100 * (4 * q400) + 0;
    }
    if y % 100 == 0 {
      assert y == 4 * (25 * q100) + 0;
    }
  }

  /** A year has 366 days exactly when it raises the leap count by one. */
  lemma LeapStep(y: int)
    ensures DaysInYear(y) == 365 + Leaps(y) - Leaps(y - 1)
  {
    MultiplesStep(y, 4);
    MultiplesStep(y, 100);
    MultiplesStep(y, 400);
    DivisorsNest(y);
  }

  /** The days of years a..b-1 in closed form: 365 a year plus the leap days. */
  lemma {:induction false} DaysOfYearsClosed(a: int, b: int)
    requires a <= b
    ensures DaysOfYears(a, b) == 365 * (b - a) + Leaps(b - 1) - Leaps(a - 1)
    decreases b - a
  {
    if a < b {
      LeapStep(a);
      DaysOfYearsClosed(a + 1, b);
    }
  }

  /** Every 400 years from year 1 on hold exactly 146097 days. */
  lemma FourHundredYearCycles(c: nat)
    ensures DaysOfYears(1, 1 + 400 * c) == DaysPer400Years * c
  {
    DaysOfYearsClosed(1, 1 + 400 * c);
    assert 400 * c == 4 * (100 * c) == 100 * (4 * c);
    assert Leaps(400 * c) == 97 * c;
  }

  datatype Date = Date(year: int, month: int, day: int)

  predicate ValidDate(d: Date) {
    1 <= d.month <= 12 && 1 <= d.day <= DaysInMonth(d.year, d.month)
  }

  lemma TwelveMonthsMakeAYear(y: int)
    ensures DaysFromMonth(y, 1) == DaysInYear(y)
  {
  }

  /**
   * The month and day of the `ordinal`-th day (from 0) counted from the
   * first of month m; the date found counts back to `ordinal` again.
   */
  function MonthDay(y: int, m: int, ordinal: int): (r: (int, int))
    requires 1 <= m <= 12 && 0 <= ordinal < DaysFromMonth(y, m)
    ensures m <= r.0 <= 12 && 1 <= r.1 <= DaysInMonth(y, r.0)
    ensures DaysFromMonth(y, m) - DaysFromMonth(y, r.0) + r.1 - 1 == ordinal
    decreases 12 - m
  {
    if ordinal < DaysInMonth(y, m) then (m, ordinal + 1)
    else MonthDay(y, m + 1, ordinal - DaysInMonth(y, m))
  }

  /**
   * The year holding the `days`-th day (from 0) counted from January 1 of
   * year y, and that day's position within its year.
   */
  function YearOrdinal(y: int, days: nat): (r: (int, nat))
    ensures y <= r.0 && r.1 < DaysInYear(r.0)
    ensures DaysOfYears(y, r.0) + r.1 == days
    decreases days
  {
    if days < DaysInYear(y) then (y, days)
    else YearOrdinal(y + 1, days - DaysInYear(y))
  }

  /**
   * The days from January 1 of year 1 to date d: the whole years before it,
   * the months before d.month, and the days before d.day.
   */
  function DayNumber(d: Date): int
    requires d.year >= 1 && 1 <= d.month <= 12
  {
    DaysOfYears(1, d.year) + (DaysInYear(d.year) - DaysFromMonth(d.year, d.month)) + d.day - 1
  }

  /**
   * The calendar date of instant t: the day t / NanosPerDay days after
   * January 1 of year 1, found by skipping whole 400-year cycles first.
   */
  function DateOf(t: Clock.Instant): (d: Date)
    ensures ValidDate(d)
    ensures t >= 0 ==> d.year >= 1 && DayNumber(d) == t / NanosPerDay
  {
    var days := t / NanosPerDay;
    var cycles := days / DaysPer400Years;
    var start := 1 + 400 * cycles;
    var yo := YearOrdinal(start, days % DaysPer400Years);
    TwelveMonthsMakeAYear(yo.0);
    var md := MonthDay(yo.0, 1, yo.1);
    CountBack(days, yo.0, yo.1, md.0, md.1);
    Date(yo.0, md.0, md.1)
  }

  /**
   * Counting back from the date found by skipping whole 400-year cycles
   * and then counting years, months and days gives the day count again.
   */
  lemma CountBack(days: int, y: int, ordinal: int, m: int, day: int)
    ensures && days >= 0 && 1 + 400 * (days / DaysPer400Years) <= y && 1 <= m <= 12
            && DaysOfYears(1 + 400 * (days / DaysPer400Years), y) + ordinal == days % DaysPer400Years
            && DaysFromMonth(y, 1) - DaysFromMonth(y, m) + day - 1 == ordinal
        ==> y >= 1 && DayNumber(Date(y, m, day)) == days
  {
    var c := days / DaysPer400Years;
    if days >= 0 && 1 + 400 * c <= y && 1 <= m <= 12 {
      TwelveMonthsMakeAYear(y);
      FourHundredYearCycles(c);
      DaysOfYearsClosed(1, y);
      DaysOfYearsClosed(1, 1 + 400 * c);
      DaysOfYearsClosed(1 + 400 * c, y);
    }
  }



  /** time.Month's String method. */
  function MonthName(m: int): (s: string)
    requires 1 <= m <= 12
    ensures |s| >= 3
  {
    ["January", "February", "March", "April", "May", "June", "July",
     "August", "September", "October", "November", "December"][m - 1]
  }

  /** Distinct months have distinct names, so the name shown determines the month. */
  lemma MonthNameInjective(m: int, n: int)
    requires 1 <= m <= 12 && 1 <= n <= 12
    requires MonthName(m) == MonthName(n)
    ensures m == n
  {
  }
}
