/**
 * The proleptic Gregorian calendar and the day numbers the scheduler
 * computes with. A day number is what Python's `date.toordinal()` gives:
 * 0001-01-01 is day 1, and adding `timedelta(days=k)` adds k.
 */
module Calendar {

  /** A day number (Python's `date.toordinal()`). */
  type Day = int

  /** A civil date; `ValidDate` says which ones Python's `date` accepts. */
  datatype Date = Date(year: int, month: int, day: int)

  predicate IsLeapYear(y: int) {
    y % 4 == 0 && (y % 100 != 0 || y % 400 == 0)
  }

  function DaysInMonth(y: int, m: int): (n: int)
    requires 1 <= m <= 12
    ensures 28 <= n <= 31
  {
    if m == 2 then (if IsLeapYear(y) then 29 else 28)
    else if m == 4 || m == 6 || m == 9 || m == 11 then 30
    else 31
  }

  function DaysInYear(y: int): int {
    if IsLeapYear(y) then 366 else 365
  }

  /** Years 1 to 9999, and the day-of-month limits of section 5.7 of RFC 3339. */
  predicate ValidDate(d: Date) {
    && 1 <= d.year <= 9999
    && 1 <= d.month <= 12
    && 1 <= d.day <= DaysInMonth(d.year, d.month)
  }

  /** Days in the years before year y. */
  function DaysBeforeYear(y: int): int
    requires y >= 1
  {
    var p := y - 1;
    p * 365 + p / 4 - p / 100 + p / 400
  }

  /** Days in the months of year y before month m. */
  function DaysBeforeMonth(y: int, m: int): (n: int)
    requires 1 <= m <= 13
    ensures n >= 0
    decreases m
  {
    if m == 1 then 0 else DaysBeforeMonth(y, m - 1) + DaysInMonth(y, m - 1)
  }

  function ToOrdinal(d: Date): (n: Day)
    requires ValidDate(d)
    ensures n >= 1
  {
    DaysBeforeYear(d.year) + DaysBeforeMonth(d.year, d.month) + d.day
  }

  /** Chronological order of civil dates: year, then month, then day. */
  predicate DateBefore(a: Date, b: Date) {
    || a.year < b.year
    || (a.year == b.year && a.month < b.month)
    || (a.year == b.year && a.month == b.month && a.day < b.day)
  }

  /** The civil date of the following day. */
  function NextDate(d: Date): (r: Date)
    requires ValidDate(d)
  {
    if d.day < DaysInMonth(d.year, d.month) then Date(d.year, d.month, d.day + 1)
    else if d.month < 12 then Date(d.year, d.month + 1, 1)
    else Date(d.year + 1, 1, 1)
  }

  lemma LeapDivisibility(y: int)
    ensures y % 400 == 0 ==> y % 100 == 0
    ensures y % 100 == 0 ==> y % 4 == 0
  {
    if y % 400 == 0 {
      var k := y / 400;
      assert y == 100 * (4 * k);
    }
    if y % 100 == 0 {
      var k := y / 100;
      assert y == 4 * (25 * k);
    }
  }

  lemma StepDiv4(p: int)
    requires p >= 0
    ensures (p + 1) / 4 == p / 4 + (if (p + 1) % 4 == 0 then 1 else 0)
  {}

  lemma StepDiv100(p: int)
    requires p >= 0
    ensures (p + 1) / 100 == p / 100 + (if (p + 1) % 100 == 0 then 1 else 0)
  {}

  lemma StepDiv400(p: int)
    requires p >= 0
    ensures (p + 1) / 400 == p / 400 + (if (p + 1) % 400 == 0 then 1 else 0)
  {}

  /** A year has 365 days, or 366 when it is a leap year. */
  lemma YearLength(y: int)
    requires y >= 1
    ensures DaysBeforeYear(y + 1) == DaysBeforeYear(y) + DaysInYear(y)
  {
    StepDiv4(y - 1);
    StepDiv100(y - 1);
    StepDiv400(y - 1);
    LeapDivisibility(y);
  }

  /** The twelve months fill the year exactly. */
  lemma MonthsFillYear(y: int)
    ensures DaysBeforeMonth(y, 13) == DaysInYear(y)
  {}

  lemma {:induction false} DaysBeforeMonthMonotone(y: int, m1: int, m2: int)
    requires 1 <= m1 <= m2 <= 13
    ensures DaysBeforeMonth(y, m1) + (if m1 < m2 then DaysInMonth(y, m1) else 0) <= DaysBeforeMonth(y, m2)
    decreases m2 - m1
  {
    if m1 < m2 {
      DaysBeforeMonthMonotone(y, m1 + 1, m2);
    }
  }

  lemma {:induction false} DaysBeforeYearMonotone(y1: int, y2: int)
    requires 1 <= y1 <= y2
    ensures DaysBeforeYear(y1) + (if y1 < y2 then DaysInYear(y1) else 0) <= DaysBeforeYear(y2)
    decreases y2 - y1
  {
    if y1 < y2 {
      YearLength(y1);
      DaysBeforeYearMonotone(y1 + 1, y2);
    }
  }

  /** A valid date falls within its year: its day number is at most the last day of the year. */
  lemma WithinYear(d: Date)
    requires ValidDate(d)
    ensures ToOrdinal(d) <= DaysBeforeYear(d.year + 1)
  {
    DaysBeforeMonthMonotone(d.year, d.month, 13);
    MonthsFillYear(d.year);
    YearLength(d.year);
  }

  lemma BeforeMeansSmaller(a: Date, b: Date)
    requires ValidDate(a) && ValidDate(b) && DateBefore(a, b)
    ensures ToOrdinal(a) < ToOrdinal(b)
  {
    if a.year < b.year {
      WithinYear(a);
      DaysBeforeYearMonotone(a.year + 1, b.year);
    } else if a.month < b.month {
      DaysBeforeMonthMonotone(a.year, a.month, b.month);
    }
  }

  /**
   * Day numbers order valid dates chronologically, in both directions,
   * and two valid dates share a day number only when they are the same date.
   */
  lemma OrdinalOrder(a: Date, b: Date)
    requires ValidDate(a) && ValidDate(b)
    ensures ToOrdinal(a) < ToOrdinal(b) <==> DateBefore(a, b)
    ensures ToOrdinal(a) == ToOrdinal(b) <==> a == b
  {
    if DateBefore(a, b) {
      BeforeMeansSmaller(a, b);
    } else if DateBefore(b, a) {
      BeforeMeansSmaller(b, a);
    }
  }

  /** Adding one to a day number steps to the next civil date. */
  lemma OrdinalSuccessor(d: Date)
    requires ValidDate(d) && d != Date(9999, 12, 31)
    ensures ValidDate(NextDate(d))
    ensures ToOrdinal(NextDate(d)) == ToOrdinal(d) + 1
  {
    if d.day == DaysInMonth(d.year, d.month) && d.month == 12 {
      YearLength(d.year);
      MonthsFillYear(d.year);
    }
  }

  /** Day 1 is 0001-01-01, as for Python's `date.toordinal()`. */
  lemma FirstDay()
    ensures ToOrdinal(Date(1, 1, 1)) == 1
  {}
}
