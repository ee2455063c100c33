/**
  Proleptic Gregorian calendar dates, with the arithmetic of Python's
  `datetime.date`: years 1 to 9999, an ordinal day number in which
  0001-01-01 is day 1, `weekday()` with Monday = 0 and Sunday = 6, and
  `date + timedelta(days=1)` computed through the ordinal.
 */
module Calendar {

  datatype Date = Date(year: int, month: int, day: int)

  const MIN_YEAR := 1
  const MAX_YEAR := 9999

  /** The latest date a Python `date` can hold. */
  const MAX_DATE := Date(MAX_YEAR, 12, 31)

  /** The ordinal of MAX_DATE; Python refuses to step a date to a larger one. */
  const MAX_ORDINAL := 3652059

  /** The weekdays the model names, numbered as `weekday()` numbers them. */
  const MONDAY := 0
  const FRIDAY := 4
  const SATURDAY := 5
  const SUNDAY := 6

  predicate IsLeapYear(y: int) {
    y % 4 == 0 && (y % 100 != 0 || y % 400 == 0)
  }

  function DaysInYear(y: int): int {
    if IsLeapYear(y) then 366 else 365
  }

  function DaysInMonth(y: int, m: int): (n: int)
    requires 1 <= m <= 12
    ensures 28 <= n <= 31
    ensures n == 29 <==> m == 2 && IsLeapYear(y)
  {
    if m == 2 then (if IsLeapYear(y) then 29 else 28)
    else if m == 4 || m == 6 || m == 9 || m == 11 then 30
    else 31
  }

  /** A value the `date` constructor accepts. */
  predicate ValidDate(d: Date) {
    MIN_YEAR <= d.year <= MAX_YEAR && 1 <= d.month <= 12 && 1 <= d.day <= DaysInMonth(d.year, d.month)
  }

  /** Days of year y before the first day of month m: a fixed table, plus one after February in a leap year. */
  function DaysBeforeMonth(y: int, m: int): int
    requires 1 <= m <= 12
  {
    var table := [0, 31, 59, 90, 120, 151, 181, 212, 243, 273, 304, 334];
    table[m - 1] + (if m > 2 && IsLeapYear(y) then 1 else 0)
  }

  /**
    Days in the first x years of the calendar, counted by its cycles:
    400 years hold 146097 days, each of the first three centuries of a
    cycle 36524, each four years inside a century 1461, a single year 365.
   */
  function DaysInYears(x: nat): nat
    decreases x
  {
    if x >= 400 then 146097 + DaysInYears(x - 400)
    else if x >= 100 then 36524 + DaysInYears(x - 100)
    else if x >= 4 then 1461 + DaysInYears(x - 4)
    else 365 * x
  }

  /** Days in all years before year y. */
  function DaysBeforeYear(y: int): int
    requires y >= 1
  {
    DaysInYears(y - 1)
  }

  /** The day number of d, counting 0001-01-01 as day 1. */
  function Ordinal(d: Date): (n: int)
    requires ValidDate(d)
    ensures n >= 1
  {
    DaysBeforeYear(d.year) + DaysBeforeMonth(d.year, d.month) + d.day
  }

  /** Monday = 0, ..., Sunday = 6. */
  function Weekday(d: Date): (w: int)
    requires ValidDate(d)
    ensures 0 <= w < 7
  {
    (Ordinal(d) + 6) % 7
  }

  /** The following calendar day, for a date before the last representable one. */
  function NextDay(d: Date): (r: Date)
    requires ValidDate(d) && Ordinal(d) < MAX_ORDINAL
    ensures ValidDate(r)
    ensures Ordinal(r) == Ordinal(d) + 1
  {
    NextDayOrdinal(d);
    if d.day < DaysInMonth(d.year, d.month) then Date(d.year, d.month, d.day + 1)
    else if d.month < 12 then Date(d.year, d.month + 1, 1)
    else Date(d.year + 1, 1, 1)
  }

  /** The date n days after d, as repeated `+ timedelta(days=1)`. */
  function AddDays(d: Date, n: nat): (r: Date)
    requires ValidDate(d) && Ordinal(d) + n <= MAX_ORDINAL
    ensures ValidDate(r) && Ordinal(r) == Ordinal(d) + n
    decreases n
  {
    if n == 0 then d else AddDays(NextDay(d), n - 1)
  }

  /** Calendar order, field by field, as Python compares dates. */
  predicate DateBefore(a: Date, b: Date) {
    a.year < b.year
    || (a.year == b.year && a.month < b.month)
    || (a.year == b.year && a.month == b.month && a.day < b.day)
  }

  lemma DaysBeforeYearStep(y: int)
    requires y >= 1
    ensures DaysBeforeYear(y + 1) == DaysBeforeYear(y) + DaysInYear(y)
  {
    DaysInYearsStep(y - 1);
  }

  /** One more year adds that year's length: the cycle counts agree with the leap-year rule. */
  lemma {:induction false} DaysInYearsStep(x: nat)
    ensures DaysInYears(x + 1) == DaysInYears(x) + DaysInYear(x + 1)
    decreases x
  {
    if x >= 400 {
      DaysInYearsStep(x - 400);
      LeapYearPeriod(x - 399, 400);
    } else if x == 399 {
      CenturiesInCycle(3, 99);
      QuadsInCentury(24, 3);
    } else if x >= 100 {
      DaysInYearsStep(x - 100);
      LeapYearPeriod(x - 99, 100);
    } else if x == 99 {
      QuadsInCentury(24, 3);
    } else if x >= 4 {
      DaysInYearsStep(x - 4);
      LeapYearPeriod(x - 3, 4);
    }
  }

  /** Inside a century, k groups of four years and r single years. */
  lemma {:induction false} QuadsInCentury(k: nat, r: nat)
    requires r < 4 && 4 * k + r < 100
    ensures DaysInYears(4 * k + r) == 1461 * k + 365 * r
    decreases k
  {
    if k > 0 {
      QuadsInCentury(k - 1, r);
    }
  }

  /** Inside a 400-year cycle, j whole centuries and z further years. */
  lemma {:induction false} CenturiesInCycle(j: nat, z: nat)
    requires z < 100 && 100 * j + z < 400
    ensures DaysInYears(100 * j + z) == 36524 * j + DaysInYears(z)
    decreases j
  {
    if j > 0 {
      CenturiesInCycle(j - 1, z);
    }
  }

  /** Shifting a year by a whole cycle keeps it leap or common, within the ranges the cycle counts use. */
  lemma LeapYearPeriod(y: int, k: int)
    requires y >= 1
    requires k == 400 || (k == 100 && y + k < 400) || (k == 4 && y + k < 100)
    ensures IsLeapYear(y + k) == IsLeapYear(y)
  {
  }

  /** The cycle count agrees with the closed form of CPython's `_days_before_year`: 365 days a year plus the leap days. */
  lemma {:induction false} DaysInYearsClosedForm(x: nat)
    ensures DaysInYears(x) == x * 365 + x / 4 - x / 100 + x / 400
    decreases x
  {
    if x > 0 {
      DaysInYearsClosedForm(x - 1);
      DaysInYearsStep(x - 1);
      LeapDaysStep(x - 1);
    }
  }

  /** The leap days counted by the closed form grow by one exactly at a leap year. */
  lemma LeapDaysStep(x: nat)
    ensures (x + 1) / 4 - (x + 1) / 100 + (x + 1) / 400
            == x / 4 - x / 100 + x / 400 + (if IsLeapYear(x + 1) then 1 else 0)
  {
    QuotientStep4(x);
    QuotientStep100(x);
    QuotientStep400(x);
  }

  lemma QuotientStep4(x: int)
    ensures (x + 1) / 4 == x / 4 + (if (x + 1) % 4 == 0 then 1 else 0)
  {
  }

  lemma QuotientStep100(x: int)
    ensures (x + 1) / 100 == x / 100 + (if (x + 1) % 100 == 0 then 1 else 0)
  {
  }

  lemma QuotientStep400(x: int)
    ensures (x + 1) / 400 == x / 400 + (if (x + 1) % 400 == 0 then 1 else 0)
  {
  }

  lemma MonthEndsBeforeNextMonth(y: int, m: int)
    requires 1 <= m < 12
    ensures DaysBeforeMonth(y, m + 1) == DaysBeforeMonth(y, m) + DaysInMonth(y, m)
  {
  }

  lemma YearEnd(y: int)
    ensures DaysBeforeMonth(y, 12) + DaysInMonth(y, 12) == DaysInYear(y)
  {
  }

  lemma NextDayOrdinal(d: Date)
    requires ValidDate(d) && Ordinal(d) < MAX_ORDINAL
    ensures d.day < DaysInMonth(d.year, d.month) ==>
              Ordinal(Date(d.year, d.month, d.day + 1)) == Ordinal(d) + 1
    ensures d.day == DaysInMonth(d.year, d.month) && d.month < 12 ==>
              ValidDate(Date(d.year, d.month + 1, 1)) && Ordinal(Date(d.year, d.month + 1, 1)) == Ordinal(d) + 1
    ensures d.day == DaysInMonth(d.year, d.month) && d.month == 12 ==>
              ValidDate(Date(d.year + 1, 1, 1)) && Ordinal(Date(d.year + 1, 1, 1)) == Ordinal(d) + 1
  {
    if d.day == DaysInMonth(d.year, d.month) {
      if d.month < 12 {
        MonthEndsBeforeNextMonth(d.year, d.month);
      } else {
        LastDay(d);
        YearEnd(d.year);
        DaysBeforeYearStep(d.year);
      }
    }
  }

  /** Stepping a day forward advances the weekday cyclically. */
  lemma NextDayWeekday(d: Date)
    requires ValidDate(d) && Ordinal(d) < MAX_ORDINAL
    ensures Weekday(NextDay(d)) == (Weekday(d) + 1) % 7
  {
    CyclicSuccessor(Ordinal(d) + 6);
  }

  lemma CyclicSuccessor(n: int)
    ensures (n + 1) % 7 == (n % 7 + 1) % 7
  {
  }

  lemma MonthsAreIncreasing(y: int, m1: int, m2: int)
    requires 1 <= m1 < m2 <= 12
    ensures DaysBeforeMonth(y, m1) + DaysInMonth(y, m1) <= DaysBeforeMonth(y, m2)
  {
  }

  lemma {:induction false} YearsAreIncreasing(y1: int, y2: int)
    requires 1 <= y1 < y2
    ensures DaysBeforeYear(y1) + DaysInYear(y1) <= DaysBeforeYear(y2)
    decreases y2 - y1
  {
    DaysBeforeYearStep(y1);
    if y1 + 1 < y2 {
      YearsAreIncreasing(y1 + 1, y2);
    }
  }

  lemma OrdinalWithinYear(d: Date)
    requires ValidDate(d)
    ensures DaysBeforeYear(d.year) < Ordinal(d) <= DaysBeforeYear(d.year) + DaysInYear(d.year)
  {
    if d.month < 12 {
      MonthsAreIncreasing(d.year, d.month, 12);
    }
    YearEnd(d.year);
  }

  /** The ordinal is order-preserving: it numbers dates in calendar order. */
  lemma {:induction false} OrdinalIsMonotone(a: Date, b: Date)
    requires ValidDate(a) && ValidDate(b) && DateBefore(a, b)
    ensures Ordinal(a) < Ordinal(b)
  {
    if a.year < b.year {
      OrdinalWithinYear(a);
      OrdinalWithinYear(b);
      YearsAreIncreasing(a.year, b.year);
    } else if a.month < b.month {
      MonthsAreIncreasing(a.year, a.month, b.month);
    }
  }

  /** MAX_ORDINAL is the ordinal of 9999-12-31. */
  lemma MaxOrdinal()
    ensures ValidDate(MAX_DATE) && Ordinal(MAX_DATE) == MAX_ORDINAL
  {
    CyclesBefore(24, 398);
    CenturiesInCycle(3, 98);
    QuadsInCentury(24, 2);
  }

  /** Inside the calendar, i whole 400-year cycles and z further years. */
  lemma {:induction false} CyclesBefore(i: nat, z: nat)
    ensures DaysInYears(400 * i + z) == 146097 * i + DaysInYears(z)
    decreases i
  {
    if i > 0 {
      CyclesBefore(i - 1, z);
    }
  }

  /** Every valid date has an ordinal of at most MAX_ORDINAL, reached by 9999-12-31 alone. */
  lemma LastDay(d: Date)
    requires ValidDate(d)
    ensures Ordinal(d) <= MAX_ORDINAL
    ensures Ordinal(d) == MAX_ORDINAL <==> d == MAX_DATE
  {
    MaxOrdinal();
    OrdinalOrder(d, MAX_DATE);
  }

  /** Calendar order and ordinal order agree, in both directions; equal ordinals mean equal dates. */
  lemma OrdinalOrder(a: Date, b: Date)
    requires ValidDate(a) && ValidDate(b)
    ensures DateBefore(a, b) <==> Ordinal(a) < Ordinal(b)
    ensures a == b <==> Ordinal(a) == Ordinal(b)
  {
    if DateBefore(a, b) {
      OrdinalIsMonotone(a, b);
    } else if DateBefore(b, a) {
      OrdinalIsMonotone(b, a);
    }
  }
}
