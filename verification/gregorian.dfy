/** The proleptic Gregorian calendar, standing in for the JDK's lenient
    `GregorianCalendar`: leap years, month lengths, a day count, the day of
    the week, and the year / month / day additions of `Calendar.add`. */
module Gregorian {

  datatype Date = Date(year: int, month: int, day: int)

  predicate IsLeapYear(y: int) {
    y % 4 == 0 && (y % 100 != 0 || y % 400 == 0)
  }

  function DaysInMonth(y: int, m: int): (r: int)
    requires 1 <= m <= 12
    ensures 28 <= r <= 31
    ensures m == 2 ==> (r == 29 <==> IsLeapYear(y))
  {
    if m == 2 then (if IsLeapYear(y) then 29 else 28)
    else if m == 4 || m == 6 || m == 9 || m == 11 then 30
    else 31
  }

  /** A real calendar day: month 1..12, day within the month's length. */
  predicate Valid(d: Date) {
    1 <= d.month <= 12 && 1 <= d.day <= DaysInMonth(d.year, d.month)
  }

  function YearLength(y: int): int {
    if IsLeapYear(y) then 366 else 365
  }

  /** Days from 0001-01-01 to the first of January of year `y` (negative
      for earlier years); `/` is floor division here, as needed. */
  function DaysBeforeYear(y: int): int {
    var p := y - 1;
    365 * p + p / 4 - p / 100 + p / 400
  }

  /** Days from the first of January to the first of month `m`. */
  function DaysBeforeMonth(y: int, m: int): (r: int)
    requires 1 <= m <= 12
    ensures 0 <= r <= 335
  {
    var common := [0, 31, 59, 90, 120, 151, 181, 212, 243, 273, 304, 334][m - 1];
    if m > 2 && IsLeapYear(y) then common + 1 else common
  }

  /** Days since 0001-01-01 (day 0). Every day of a year numbers between
      that year's first day and the next year's. */
  function DayNumber(d: Date): (r: int)
    requires Valid(d)
    ensures DaysBeforeYear(d.year) <= r < DaysBeforeYear(d.year) + YearLength(d.year)
  {
    DayInYear(d.year, d.month, d.day);
    DaysBeforeYear(d.year) + DaysBeforeMonth(d.year, d.month) + d.day - 1
  }

  /** A day of month `m` falls before the end of its year. */
  lemma DayInYear(y: int, m: int, day: int)
    requires 1 <= m <= 12 && 1 <= day <= DaysInMonth(y, m)
    ensures DaysBeforeMonth(y, m) + day - 1 < YearLength(y)
  {
    MonthStep(y, m);
    if m < 12 {
      MonthsIncrease(y, m + 1, 12);
      MonthStep(y, 12);
    }
  }

  lemma YearStep(y: int)
    ensures DaysBeforeYear(y + 1) == DaysBeforeYear(y) + YearLength(y)
  {
    QuotientStep4(y);
    QuotientStep100(y);
    QuotientStep400(y);
  }

  lemma QuotientStep4(y: int)
    ensures y / 4 - (y - 1) / 4 == if y % 4 == 0 then 1 else 0
  {
  }

  lemma QuotientStep100(y: int)
    ensures y / 100 - (y - 1) / 100 == if y % 100 == 0 then 1 else 0
  {
  }

  lemma QuotientStep400(y: int)
    ensures y / 400 - (y - 1) / 400 == if y % 400 == 0 then 1 else 0
  {
  }

  lemma MonthStepBack(y: int, m: int)
    requires 2 <= m <= 12
    ensures DaysBeforeMonth(y, m) == DaysBeforeMonth(y, m - 1) + DaysInMonth(y, m - 1)
  {
    var p := m - 1;
    MonthStep(y, p);
    assert p + 1 == m;
  }

  lemma YearStepBack(y: int)
    ensures DaysBeforeYear(y) == DaysBeforeYear(y - 1) + YearLength(y - 1)
  {
    var p := y - 1;
    YearStep(p);
    assert p + 1 == y;
  }

  lemma MonthStep(y: int, m: int)
    requires 1 <= m <= 12
    ensures DaysBeforeMonth(y, m) + DaysInMonth(y, m) == if m < 12 then DaysBeforeMonth(y, m + 1) else YearLength(y)
  {
  }

  /** The day after a valid day. */
  function NextDay(d: Date): (r: Date)
    requires Valid(d)
    ensures Valid(r)
    ensures DayNumber(r) == DayNumber(d) + 1
  {
    MonthStep(d.year, d.month);
    if d.day < DaysInMonth(d.year, d.month) then d.(day := d.day + 1)
    else if d.month < 12 then Date(d.year, d.month + 1, 1)
    else
      YearStep(d.year);
      Date(d.year + 1, 1, 1)
  }

  /** The day before a valid day. */
  function PrevDay(d: Date): (r: Date)
    requires Valid(d)
    ensures Valid(r)
    ensures DayNumber(r) == DayNumber(d) - 1
  {
    if d.day > 1 then d.(day := d.day - 1)
    else if d.month > 1 then
      MonthBefore(d);
      Date(d.year, d.month - 1, DaysInMonth(d.year, d.month - 1))
    else
      YearBefore(d);
      Date(d.year - 1, 12, 31)
  }

  /** The last day of the previous month comes just before the first of a
      month after January. */
  lemma MonthBefore(d: Date)
    requires Valid(d) && d.day == 1 && d.month > 1
    ensures var r := Date(d.year, d.month - 1, DaysInMonth(d.year, d.month - 1));
      Valid(r) && DayNumber(r) == DayNumber(d) - 1
  {
    MonthStepBack(d.year, d.month);
  }

  /** December 31 of the previous year comes just before January 1. */
  lemma YearBefore(d: Date)
    requires Valid(d) && d.day == 1 && d.month == 1
    ensures var r := Date(d.year - 1, 12, 31);
      Valid(r) && DayNumber(r) == DayNumber(d) - 1
  {
    YearStepBack(d.year);
    MonthStep(d.year - 1, 12);
  }

  /** `add(DAY_OF_MONTH, n)`: an exact shift by `n` days. */
  function AddDays(d: Date, n: int): (r: Date)
    requires Valid(d)
    ensures Valid(r)
    ensures DayNumber(r) == DayNumber(d) + n
    decreases if n < 0 then -n else n
  {
    if n == 0 then d
    else if n > 0 then AddDays(NextDay(d), n - 1)
    else AddDays(PrevDay(d), n + 1)
  }

  /** `get(DAY_OF_WEEK)`: Sunday = 1 ... Saturday = 7; 0001-01-01 was a
      Monday. */
  function WeekdayCode(d: Date): (r: int)
    requires Valid(d)
    ensures 1 <= r <= 7
  {
    CodeOfDayNumber(DayNumber(d))
  }

  /** The weekday code as a function of a day number. */
  function CodeOfDayNumber(x: int): (r: int)
    ensures 1 <= r <= 7
  {
    (x + 1) % 7 + 1
  }

  lemma CodeStep(x: int, y: int, n: int)
    requires y == x + n
    ensures CodeOfDayNumber(y) == (CodeOfDayNumber(x) - 1 + n) % 7 + 1
  {
    var q := (x + 1) / 7;
    assert x + 1 == 7 * q + (x + 1) % 7;
    assert y + 1 == 7 * q + ((x + 1) % 7 + n);
  }

  /** A day `n` days after another is `n` places further round the week. */
  lemma WeekdayOfDayNumbers(a: Date, b: Date, n: int)
    requires Valid(a) && Valid(b) && DayNumber(b) == DayNumber(a) + n
    ensures WeekdayCode(b) == (WeekdayCode(a) - 1 + n) % 7 + 1
  {
    CodeStep(DayNumber(a), DayNumber(b), n);
  }

  /** Consecutive days have consecutive weekday codes, Saturday (7)
      wrapping to Sunday (1). */
  lemma WeekdayOfNextDay(d: Date)
    requires Valid(d)
    ensures WeekdayCode(NextDay(d)) == WeekdayCode(d) % 7 + 1
  {
    WeekdayOfDayNumbers(d, NextDay(d), 1);
  }

  /** Inside one Sunday-to-Saturday week, a day `k` days later has a code
      `k` higher. */
  lemma CodeWithinWeek(x: int, y: int, k: int)
    requires y == x + k && 0 <= k && CodeOfDayNumber(x) + k <= 7
    ensures CodeOfDayNumber(y) == CodeOfDayNumber(x) + k
  {
    CodeStep(x, y, k);
  }

  /** Shifting by `n` days moves the weekday by `n` modulo 7. */
  lemma WeekdayAfterDays(d: Date, n: int)
    requires Valid(d)
    ensures WeekdayCode(AddDays(d, n)) == (WeekdayCode(d) - 1 + n) % 7 + 1
  {
    WeekdayOfDayNumbers(d, AddDays(d, n), n);
  }

  /** A valid day's number lies inside its year and its month. */
  lemma DayNumberBounds(d: Date)
    requires Valid(d)
    ensures DaysBeforeYear(d.year) + DaysBeforeMonth(d.year, d.month) <= DayNumber(d)
    ensures DayNumber(d) < DaysBeforeYear(d.year) + DaysBeforeMonth(d.year, d.month) + DaysInMonth(d.year, d.month)
    ensures DayNumber(d) < DaysBeforeYear(d.year + 1)
  {
    YearStep(d.year);
    MonthStep(d.year, d.month);
    if d.month < 12 {
      MonthsIncrease(d.year, d.month + 1, 12);
      MonthStep(d.year, 12);
    }
  }

  lemma MonthsIncrease(y: int, a: int, b: int)
    requires 1 <= a <= b <= 12
    ensures DaysBeforeMonth(y, a) <= DaysBeforeMonth(y, b)
  {
  }

  lemma {:induction false} YearsIncrease(a: int, b: int)
    requires a <= b
    ensures DaysBeforeYear(a) <= DaysBeforeYear(b)
    decreases b - a
  {
    if a < b {
      YearsIncrease(a + 1, b);
      YearStep(a);
    }
  }

  /** Different days have different numbers. */
  lemma DayNumberInjective(a: Date, b: Date)
    requires Valid(a) && Valid(b)
    requires DayNumber(a) == DayNumber(b)
    ensures a == b
  {
    if a.year < b.year {
      EarlierYearFirst(a, b);
    } else if b.year < a.year {
      EarlierYearFirst(b, a);
    } else if a.month < b.month {
      EarlierMonthFirst(a, b);
    } else if b.month < a.month {
      EarlierMonthFirst(b, a);
    }
  }

  /** A day of an earlier year has a smaller number. */
  lemma EarlierYearFirst(a: Date, b: Date)
    requires Valid(a) && Valid(b) && a.year < b.year
    ensures DayNumber(a) < DayNumber(b)
  {
    DayNumberBounds(a);
    DayNumberBounds(b);
    YearsIncrease(a.year + 1, b.year);
  }

  /** A day of an earlier month of the same year has a smaller number. */
  lemma EarlierMonthFirst(a: Date, b: Date)
    requires Valid(a) && Valid(b) && a.year == b.year && a.month < b.month
    ensures DayNumber(a) < DayNumber(b)
  {
    DayNumberBounds(a);
    MonthStep(a.year, a.month);
    MonthsIncrease(a.year, a.month + 1, b.month);
  }

  /** The month count `year * 12 + month - 1`, which month addition shifts. */
  function MonthIndex(d: Date): int {
    d.year * 12 + d.month - 1
  }

  /** The day of month kept after a year or month change: the old day when
      the new month has it, else the new month's last day. */
  function PinDay(day: int, y: int, m: int): int
    requires 1 <= m <= 12
  {
    if day <= DaysInMonth(y, m) then day else DaysInMonth(y, m)
  }

  /** `add(YEAR, n)`: same month and day in year + n; February 29 becomes
      February 28 in a common year. */
  function AddYears(d: Date, n: int): (r: Date)
    requires Valid(d)
    ensures Valid(r)
    ensures r.year == d.year + n && r.month == d.month
    ensures r.day <= d.day
    ensures r.day == d.day || r.day == DaysInMonth(r.year, r.month)
    ensures r.day == if d.day <= DaysInMonth(r.year, r.month) then d.day else DaysInMonth(r.year, r.month)
  {
    Date(d.year + n, d.month, PinDay(d.day, d.year + n, d.month))
  }

  /** `add(MONTH, n)`: the month `n` months later (rolling the year over in
      either direction), same day where it exists, else that month's last. */
  function AddMonths(d: Date, n: int): (r: Date)
    requires Valid(d)
    ensures Valid(r)
    ensures MonthIndex(r) == MonthIndex(d) + n
    ensures r.day <= d.day
    ensures r.day == d.day || r.day == DaysInMonth(r.year, r.month)
    ensures r.day == if d.day <= DaysInMonth(r.year, r.month) then d.day else DaysInMonth(r.year, r.month)
  {
    var index := MonthIndex(d) + n;
    var y := index / 12;
    var m := index % 12 + 1;
    Date(y, m, PinDay(d.day, y, m))
  }

  /** `set(year, month, day)` followed by a read on a lenient calendar: a
      zero-based month outside 0..11 rolls the year, and a day outside the
      month rolls forward or back from the first of the month. */
  function LenientDate(year: int, month0: int, day: int): (r: Date)
    ensures Valid(r)
    ensures DayNumber(r) == DayNumber(Date(year + month0 / 12, month0 % 12 + 1, 1)) + day - 1
    ensures 0 <= month0 < 12 && 1 <= day <= DaysInMonth(year, month0 + 1) ==>
              r == Date(year, month0 + 1, day)
  {
    var first := Date(year + month0 / 12, month0 % 12 + 1, 1);
    if 0 <= month0 < 12 && 1 <= day <= DaysInMonth(year, month0 + 1) then
      MonthRoll(month0, 0);
      DaysIntoMonth(year, month0 + 1, day);
      AddDays(first, day - 1)
    else
      AddDays(first, day - 1)
  }

  /** A zero-based month in the `k`-th year after the set one. */
  lemma MonthRoll(month0: int, k: int)
    requires 12 * k <= month0 < 12 * k + 12
    ensures month0 / 12 == k && month0 % 12 + 1 == month0 - 12 * k + 1
  {
  }

  /** Counting `day - 1` days on from the first of a month reaches that
      month's day `day`. */
  lemma DaysIntoMonth(y: int, m: int, day: int)
    requires 1 <= m <= 12 && 1 <= day <= DaysInMonth(y, m)
    ensures AddDays(Date(y, m, 1), day - 1) == Date(y, m, day)
  {
    DayNumberInjective(AddDays(Date(y, m, 1), day - 1), Date(y, m, day));
  }
}
