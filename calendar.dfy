/**
 * Proleptic Gregorian calendar arithmetic on local epoch days (days since
 * 1970-01-01) and local epoch milliseconds. This stands for the fields that
 * java.util.Calendar reports for an instant, with every day 86 400 000 ms
 * long (no time zone offset, no daylight saving).
 */
module Calendar {
  const MsPerSecond: int := 1000
  const MsPerMinute: int := 60000
  const MsPerHour: int := 3600000
  const MsPerDay: int := 86400000
  const MsPerWeek: int := 604800000

  /** Day-of-week numbers as java.util.Calendar.DAY_OF_WEEK reports them. */
  const Sunday: int := 1
  const Monday: int := 2
  const Thursday: int := 5
  const Friday: int := 6
  const Saturday: int := 7

  datatype Date = Date(year: int, month: int, day: int)

  predicate IsLeapYear(y: int) {
    y % 4 == 0 && (y % 100 != 0 || y % 400 == 0)
  }

  function DaysInYear(y: int): int {
    if IsLeapYear(y) then 366 else 365
  }

  function DaysInMonth(y: int, m: int): int
    requires 1 <= m <= 12
  {
    if m == 2 then (if IsLeapYear(y) then 29 else 28)
    else if m == 4 || m == 6 || m == 9 || m == 11 then 30
    else 31
  }

  /** A date that a non-lenient calendar accepts: month 1..12, day within the month. */
  predicate ValidDate(d: Date) {
    1 <= d.month <= 12 && 1 <= d.day <= DaysInMonth(d.year, d.month)
  }

  /** Days from 1 January of year y to the first day of month m. */
  function DaysBeforeMonth(y: int, m: int): int
    requires 1 <= m <= 12
  {
    var common := [0, 31, 59, 90, 120, 151, 181, 212, 243, 273, 304, 334][m - 1];
    if m > 2 && IsLeapYear(y) then common + 1 else common
  }

  /** Leap years among 1 .. y-1 (a difference of two of these counts the years in between). */
  function LeapYearsBefore(y: int): int {
    (y - 1) / 4 - (y - 1) / 100 + (y - 1) / 400
  }

  /** Epoch day of 1 January of year y. */
  function YearStart(y: int): int {
    365 * (y - 1970) + LeapYearsBefore(y) - LeapYearsBefore(1970)
  }

  /** Epoch day of a date whose month is 1..12; a day outside the month counts on from its first day. */
  function EpochDay(d: Date): int
    requires 1 <= d.month <= 12
  {
    YearStart(d.year) + DaysBeforeMonth(d.year, d.month) + d.day - 1
  }

  /**
   * Epoch day as a lenient calendar computes it: a month outside 1..12
   * rolls into a neighbouring year, a day outside the month rolls into a
   * neighbouring month.
   */
  function LenientEpochDay(y: int, m: int, d: int): (n: int)
    ensures 1 <= m <= 12 ==> n == EpochDay(Date(y, m, d))
  {
    EpochDay(Date(y + (m - 1) / 12, (m - 1) % 12 + 1, d))
  }

  /** DAY_OF_WEEK of an epoch day: 1970-01-01 was a Thursday. */
  function DayOfWeek(n: int): (w: int)
    ensures Sunday <= w <= Saturday
    ensures n == 0 ==> w == Thursday
  {
    (n + 4) % 7 + 1
  }

  lemma YearStartStep(y: int)
    ensures YearStart(y + 1) == YearStart(y) + DaysInYear(y)
  {
    LeapStep(y);
  }

  /** Year y adds one to the leap-year count exactly when it is a leap year. */
  lemma LeapStep(y: int)
    ensures LeapYearsBefore(y + 1) == LeapYearsBefore(y) + (if IsLeapYear(y) then 1 else 0)
  {
    DivStep(y - 1, 4);
    DivStep(y - 1, 100);
    DivStep(y - 1, 400);
    ModChain(y);
  }

  lemma DivStep(a: int, k: int)
    requires k == 4 || k == 100 || k == 400
    ensures (a + 1) / k == a / k + (if (a + 1) % k == 0 then 1 else 0)
  {
  }

  /** Multiples of 400 are multiples of 100, and multiples of 100 are multiples of 4. */
  lemma ModChain(y: int)
    ensures y % 400 == 0 ==> y % 100 == 0
    ensures y % 100 == 0 ==> y % 4 == 0
  {
    if y % 400 == 0 {
      MultipleMod(y, 4 * (y / 400), 100);
    }
    if y % 100 == 0 {
      MultipleMod(y, 25 * (y / 100), 4);
    }
  }

  /** A multiple of k leaves remainder 0. */
  lemma MultipleMod(y: int, q: int, k: int)
    requires k == 4 || k == 100
    requires y == k * q
    ensures y % k == 0
  {
  }

  lemma {:induction false} YearStartBound(y: int)
    ensures y >= 1970 ==> YearStart(y) <= 366 * (y - 1970)
    ensures y <= 1970 ==> YearStart(y) <= 365 * (y - 1970)
    decreases if y >= 1970 then y - 1970 else 1970 - y
  {
    if y > 1970 {
      YearStartBound(y - 1);
      YearStartStep(y - 1);
    } else if y < 1970 {
      YearStartBound(y + 1);
      YearStartStep(y);
    }
  }

  lemma {:induction false} YearStartMonotone(y: int, y': int)
    requires y < y'
    ensures YearStart(y) + DaysInYear(y) <= YearStart(y')
    decreases y' - y
  {
    YearStartStep(y);
    if y + 1 < y' {
      YearStartMonotone(y + 1, y');
    }
  }

  lemma MonthStep(y: int, m: int)
    requires 1 <= m < 12
    ensures DaysBeforeMonth(y, m + 1) == DaysBeforeMonth(y, m) + DaysInMonth(y, m)
  {
  }

  lemma {:induction false} MonthMonotone(y: int, m: int, m': int)
    requires 1 <= m < m' <= 12
    ensures DaysBeforeMonth(y, m) + DaysInMonth(y, m) <= DaysBeforeMonth(y, m')
    decreases m' - m
  {
    MonthStep(y, m);
    if m + 1 < m' {
      MonthMonotone(y, m + 1, m');
    }
  }

  /** The day of a valid date lies inside its year. */
  lemma DayOfYearBounds(d: Date)
    requires ValidDate(d)
    ensures YearStart(d.year) <= EpochDay(d) < YearStart(d.year) + DaysInYear(d.year)
  {
    if d.month < 12 {
      MonthMonotone(d.year, d.month, 12);
    }
  }

  /** Searches upward from year y for the year that contains epoch day n. */
  function FindYear(n: int, y: int): (r: int)
    requires YearStart(y) <= n
    ensures YearStart(r) <= n < YearStart(r + 1)
    decreases n - YearStart(y)
  {
    YearStartStep(y);
    if n < YearStart(y + 1) then y else FindYear(n, y + 1)
  }

  /** The year that contains epoch day n. */
  function YearOfDay(n: int): (y: int)
    ensures YearStart(y) <= n < YearStart(y + 1)
  {
    var guess := if n >= 0 then 1970 + n / 366 else 1970 + n / 365;
    YearStartBound(guess);
    FindYear(n, guess)
  }

  /** Searches upward from month m for the month of year y that contains day-of-year r (0-based). */
  function FindMonth(y: int, r: int, m: int): (month: int)
    requires 1 <= m <= 12
    requires DaysBeforeMonth(y, m) <= r < DaysInYear(y)
    ensures m <= month <= 12
    ensures DaysBeforeMonth(y, month) <= r < DaysBeforeMonth(y, month) + DaysInMonth(y, month)
    decreases 12 - m
  {
    if m == 12 || r < DaysBeforeMonth(y, m) + DaysInMonth(y, m) then m
    else
      MonthStep(y, m);
      FindMonth(y, r, m + 1)
  }

  /** The calendar date of epoch day n, as Calendar.YEAR, MONTH (1-based) and DATE report it. */
  function CivilOf(n: int): (d: Date)
    ensures ValidDate(d)
    ensures EpochDay(d) == n
  {
    var y := YearOfDay(n);
    YearStartStep(y);
    var m := FindMonth(y, n - YearStart(y), 1);
    Date(y, m, n - YearStart(y) - DaysBeforeMonth(y, m) + 1)
  }

  /** Distinct valid dates fall on distinct epoch days. */
  lemma EpochDayInjective(a: Date, b: Date)
    requires ValidDate(a) && ValidDate(b)
    requires EpochDay(a) == EpochDay(b)
    ensures a == b
  {
    DayOfYearBounds(a);
    DayOfYearBounds(b);
    if a.year < b.year {
      YearStartMonotone(a.year, b.year);
    } else if b.year < a.year {
      YearStartMonotone(b.year, a.year);
    } else if a.month < b.month {
      MonthMonotone(a.year, a.month, b.month);
    } else if b.month < a.month {
      MonthMonotone(a.year, b.month, a.month);
    }
  }

  /** Reading the calendar fields back from a valid date's epoch day gives the date. */
  lemma CivilOfEpochDay(d: Date)
    requires ValidDate(d)
    ensures CivilOf(EpochDay(d)) == d
  {
    EpochDayInjective(CivilOf(EpochDay(d)), d);
  }
}
