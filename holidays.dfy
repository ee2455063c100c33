/**
  The South African public holiday set of one year: twelve fixed
  (month, day) dates built in that year, plus the Monday after each of
  them that falls on a Sunday. Good Friday and Family Day are fixed at
  their 2025 dates, 18 and 21 April, whatever the year.
 */
module HolidayCalendar {
  import opened Calendar

  /** The (month, day) of each base holiday. */
  const BASE_DAYS: set<(int, int)> := {
    (1, 1),    // New Year's Day
    (3, 21),   // Human Rights Day
    (4, 18),   // Good Friday, as dated in 2025
    (4, 21),   // Family Day, as dated in 2025
    (4, 27),   // Freedom Day
    (5, 1),    // Workers' Day
    (6, 16),   // Youth Day
    (8, 9),    // National Women's Day
    (9, 24),   // Heritage Day
    (12, 16),  // Day of Reconciliation
    (12, 25),  // Christmas Day
    (12, 26)   // Day of Goodwill
  }

  /** The base holidays built in the given year; none is the last day of its month, nor of the calendar. */
  function BaseHolidays(year: int): (s: set<Date>)
    requires MIN_YEAR <= year <= MAX_YEAR
    ensures forall b :: b in s ==> ValidDate(b) && b.year == year && b.day < DaysInMonth(b.year, b.month)
    ensures forall b :: b in s ==> Ordinal(b) < MAX_ORDINAL
  {
    BaseDaysInRange(year);
    set md | md in BASE_DAYS :: Date(year, md.0, md.1)
  }

  lemma BaseDaysInRange(year: int)
    requires MIN_YEAR <= year <= MAX_YEAR
    ensures forall md :: md in BASE_DAYS ==> ValidDate(Date(year, md.0, md.1)) && Ordinal(Date(year, md.0, md.1)) < MAX_ORDINAL
  {
    forall md | md in BASE_DAYS
      ensures ValidDate(Date(year, md.0, md.1)) && Ordinal(Date(year, md.0, md.1)) < MAX_ORDINAL
    {
      LastDay(Date(year, md.0, md.1));
    }
  }

  /** The day after each Sunday in hs. */
  function ShiftedMondays(hs: set<Date>): set<Date>
    requires forall b :: b in hs ==> ValidDate(b) && Ordinal(b) < MAX_ORDINAL
  {
    set b | b in hs && Weekday(b) == SUNDAY :: NextDay(b)
  }

  /** The holiday set of a year: the base dates and their Sunday-to-Monday shifts. */
  function Holidays(year: int): set<Date>
    requires MIN_YEAR <= year <= MAX_YEAR
  {
    var base := BaseHolidays(year);
    base + ShiftedMondays(base)
  }

  /** The twelve base days written out as a test on a month and a day. */
  predicate IsBaseDay(month: int, day: int) {
    (month == 1 && day == 1) || (month == 3 && day == 21)
    || (month == 4 && (day == 18 || day == 21 || day == 27))
    || (month == 5 && day == 1) || (month == 6 && day == 16)
    || (month == 8 && day == 9) || (month == 9 && day == 24)
    || (month == 12 && (day == 16 || day == 25 || day == 26))
  }

  /** The test and the set agree. */
  lemma BaseDayListed(month: int, day: int)
    ensures IsBaseDay(month, day) <==> (month, day) in BASE_DAYS
  {
  }

  /**
    A date-local description of a holiday, independent of the set
    construction: it is a base day, or a Monday whose previous day is one.
   */
  predicate IsObservedHoliday(d: Date)
    requires ValidDate(d)
  {
    IsBaseDay(d.month, d.day)
    || (IsBaseDay(d.month, d.day - 1) && Weekday(d) == MONDAY)
  }

  /** Builds the holiday set as the source does: collect the shifted Mondays in a loop, then take the union. */
  method PublicHolidays(year: int) returns (holidays: set<Date>)
    requires MIN_YEAR <= year <= MAX_YEAR
    ensures holidays == Holidays(year)
  {
    var base := BaseHolidays(year);
    var mondaysToAdd: set<Date> := {};
    var remaining := base;
    while remaining != {}
      invariant remaining <= base
      invariant mondaysToAdd == ShiftedMondays(base - remaining)
      decreases remaining
    {
      var holiday :| holiday in remaining;
      if Weekday(holiday) == SUNDAY {
        mondaysToAdd := mondaysToAdd + {NextDay(holiday)};
      }
      remaining := remaining - {holiday};
    }
    assert base - remaining == base;
    holidays := base + mondaysToAdd;
  }

  /** Every one of the twelve base dates, built in the year, is a holiday. */
  lemma BaseDatesIncluded(year: int, month: int, day: int)
    requires MIN_YEAR <= year <= MAX_YEAR
    requires (month, day) in BASE_DAYS
    ensures Date(year, month, day) in Holidays(year)
  {
    assert Date(year, month, day) in BaseHolidays(year);
  }

  /** A base date on a Sunday makes the following day, a Monday, a holiday too. */
  lemma SundayShifted(year: int, b: Date)
    requires MIN_YEAR <= year <= MAX_YEAR
    requires b in BaseHolidays(year) && Weekday(b) == SUNDAY
    ensures NextDay(b) in Holidays(year)
    ensures Weekday(NextDay(b)) == MONDAY
  {
    NextDayWeekday(b);
  }

  /** Every member of the holiday set is a base day of that year or a Monday right after one. */
  lemma HolidayIsObserved(year: int, d: Date)
    requires MIN_YEAR <= year <= MAX_YEAR
    requires d in Holidays(year)
    ensures ValidDate(d) && d.year == year && IsObservedHoliday(d)
  {
    var base := BaseHolidays(year);
    if d in base {
      BaseDayListed(d.month, d.day);
    } else {
      var b :| b in base && Weekday(b) == SUNDAY && NextDay(b) == d;
      NextDayWeekday(b);
      assert (d.month, d.day - 1) == (b.month, b.day);
      BaseDayListed(d.month, d.day - 1);
    }
  }

  /** Every base day of the year, and every Monday right after one, is in the holiday set. */
  lemma ObservedIsHoliday(year: int, d: Date)
    requires MIN_YEAR <= year <= MAX_YEAR
    requires ValidDate(d) && d.year == year && IsObservedHoliday(d)
    ensures d in Holidays(year)
  {
    var base := BaseHolidays(year);
    BaseDayListed(d.month, d.day);
    BaseDayListed(d.month, d.day - 1);
    if (d.month, d.day) in BASE_DAYS {
      assert d in base;
    } else {
      var b := Date(year, d.month, d.day - 1);
      assert b in base;
      assert NextDay(b) == d;
      NextDayWeekday(b);
      assert d in ShiftedMondays(base);
    }
  }

  /**
    A base date on a Saturday shifts nothing: the Monday after it is a
    holiday only when it, or the Sunday before it, is a base date itself.
   */
  lemma SaturdayShiftsNothing(year: int, b: Date)
    requires MIN_YEAR <= year <= MAX_YEAR
    requires b in BaseHolidays(year) && Weekday(b) == SATURDAY
    ensures Ordinal(NextDay(b)) < MAX_ORDINAL
    ensures NextDay(NextDay(b)) in Holidays(year)
            <==> NextDay(NextDay(b)) in BaseHolidays(year) || NextDay(b) in BaseHolidays(year)
  {
    var base := BaseHolidays(year);
    BaseDayListed(b.month, b.day);
    var sun := NextDay(b);
    NextDayWeekday(b);
    var mon := NextDay(sun);
    NextDayWeekday(sun);
    if mon in Holidays(year) && mon !in base {
      HolidayIsObserved(year, mon);
      BaseDayListed(mon.month, mon.day - 1);
      assert sun == Date(year, mon.month, mon.day - 1);
      assert sun in base;
    }
    if sun in base {
      assert mon in ShiftedMondays(base);
    }
  }

  /**
    The holiday set holds exactly the dates of that year that are base
    days or Mondays right after a base day: nothing else is added.
   */
  lemma HolidaysExactly(year: int, d: Date)
    requires MIN_YEAR <= year <= MAX_YEAR
    ensures d in Holidays(year) <==> ValidDate(d) && d.year == year && IsObservedHoliday(d)
  {
    if d in Holidays(year) {
      HolidayIsObserved(year, d);
    } else if ValidDate(d) && d.year == year && IsObservedHoliday(d) {
      ObservedIsHoliday(year, d);
    }
  }

  /** A date that is no base day, and does not follow one, is no holiday in any year. */
  lemma NotObserved(year: int, d: Date)
    requires MIN_YEAR <= year <= MAX_YEAR && ValidDate(d)
    requires !IsBaseDay(d.month, d.day) && !IsBaseDay(d.month, d.day - 1)
    ensures d !in Holidays(year)
  {
    HolidaysExactly(year, d);
  }

  /** Christmas on a Sunday shifts onto the Day of Goodwill, already a holiday, and the shift does not cascade to 27 December. */
  lemma ChristmasOnSunday(year: int)
    requires MIN_YEAR <= year <= MAX_YEAR
    requires Weekday(Date(year, 12, 25)) == SUNDAY
    ensures Date(year, 12, 25) in BaseHolidays(year) && Date(year, 12, 26) in BaseHolidays(year)
    ensures NextDay(Date(year, 12, 25)) == Date(year, 12, 26)
    ensures Date(year, 12, 27) !in Holidays(year)
  {
    assert Date(year, 12, 25) in BaseHolidays(year);
    assert Date(year, 12, 26) in BaseHolidays(year);
    NextDayWeekday(Date(year, 12, 25));
    NextDayWeekday(Date(year, 12, 26));
    HolidaysExactly(year, Date(year, 12, 27));
  }

  /** Freedom Day 2025 is a Sunday, so Monday 28 April 2025 is a holiday. */
  lemma FreedomDay2025()
    ensures Weekday(Date(2025, 4, 27)) == SUNDAY
    ensures Date(2025, 4, 28) in Holidays(2025)
  {
    assert Ordinal(Date(2025, 4, 28)) == 739369;
    ObservedIsHoliday(2025, Date(2025, 4, 28));
  }

  /** 11 August is no holiday in any year: neither it nor the 10th is a base day, so no shift from Women's Day on the 9th reaches it. */
  lemma WomensDayShiftsNothing(year: int)
    requires MIN_YEAR <= year <= MAX_YEAR
    ensures Date(year, 8, 11) !in Holidays(year)
  {
    NotObserved(year, Date(year, 8, 11));
  }

  /** Women's Day 2025 is a Saturday, and Monday 11 August 2025 is no observed holiday. */
  lemma WomensDay2025()
    ensures Weekday(Date(2025, 8, 9)) == SATURDAY
    ensures Weekday(Date(2025, 8, 11)) == MONDAY
    ensures !IsObservedHoliday(Date(2025, 8, 11))
  {
    assert Ordinal(Date(2025, 8, 9)) == 739472;
    assert Ordinal(Date(2025, 8, 11)) == 739474;
  }
}
