/**
  The request scenarios of the project's own tests, worked out on the
  model: each range is counted by the specification of the counting
  loop, which `CountBusinessSeconds` returns exactly.
 */
module Scenarios {
  import opened Calendar
  import opened Instants
  import opened HolidayCalendar
  import opened Business

  /** Hour h of day d, to the second. */
  function At(d: Date, h: int): (t: Instant)
    requires 0 <= h < 24
    ensures ValidDate(d) ==> t == DayPos(d, h * 3600)
  {
    Instant(d, h * 3600, 0)
  }

  /** Monday 21 July 2025 is a business day. */
  lemma July21IsBusinessDay()
    ensures ValidDate(Date(2025, 7, 21)) && Weekday(Date(2025, 7, 21)) == MONDAY
    ensures IsBusinessDay(Date(2025, 7, 21))
  {
    assert Ordinal(Date(2025, 7, 21)) == 739453;
  }

  /** Ten seconds from 10:00:00 on a Monday are ten business seconds. */
  lemma SimpleBusinessHours()
    ensures CountFrom(At(Date(2025, 7, 21), 10), Instant(Date(2025, 7, 21), 10 * 3600 + 10, 0)) == Counted(10)
  {
    var d := Date(2025, 7, 21);
    July21IsBusinessDay();
    DayCount(d, 10 * 3600, 10 * 3600 + 10);
  }

  /** 08:00 to 17:00 on a Monday is the whole working day, 9 * 3600 seconds. */
  lemma SpanningLunchBreak()
    ensures CountFrom(At(Date(2025, 7, 21), 8), At(Date(2025, 7, 21), 17)) == Counted(9 * 60 * 60)
  {
    July21IsBusinessDay();
    FullBusinessDay(Date(2025, 7, 21));
  }

  /** 18:00 to 19:00 lies after business hours and counts nothing. */
  lemma OutsideBusinessHours()
    ensures CountFrom(At(Date(2025, 7, 21), 18), At(Date(2025, 7, 21), 19)) == Counted(0)
  {
    DayCount(Date(2025, 7, 21), 18 * 3600, 19 * 3600);
  }

  /** Saturday and the Sunday after it hold no business seconds: a span from Saturday midnight counts only its last day. */
  lemma WeekendIsIdle(sat: Date, e: int)
    requires ValidDate(sat) && Weekday(sat) == SATURDAY && Ordinal(sat) + 2 <= MAX_ORDINAL
    ensures SpanShare(sat, 0, 2, e) == DayShare(AddDays(sat, 2), 0, e)
  {
    var sun := NextDay(sat);
    NextDayWeekday(sat);
    assert DayShare(sat, 0, 86400) == 0;
    assert DayShare(sun, 0, 86400) == 0;
    assert SpanShare(sun, 0, 1, e) == DayShare(sun, 0, 86400) + SpanShare(NextDay(sun), 0, 0, e);
    assert AddDays(sat, 2) == AddDays(sun, 1);
  }

  /** From a Friday into the following Monday, only the hours on those two days count. */
  lemma FridayToMonday(fri: Date, s: int, e: int)
    requires ValidDate(fri) && Weekday(fri) == FRIDAY && Ordinal(fri) + 3 < MAX_ORDINAL
    requires 0 <= s <= 86400 && 0 <= e <= 86400
    ensures CountFrom(DayPos(fri, s), DayPos(AddDays(fri, 3), e))
            == Counted(DayShare(fri, s, 86400) + DayShare(AddDays(fri, 3), 0, e))
  {
    NextDayWeekday(fri);
    WeekendIsIdle(NextDay(fri), e);
    CountOverDays(fri, s, 3, e);
  }

  /** Friday 18 July 2025 is a business day, and three days later comes Monday 21 July. */
  lemma July18IsBusinessDay()
    ensures ValidDate(Date(2025, 7, 18)) && Weekday(Date(2025, 7, 18)) == FRIDAY
    ensures IsBusinessDay(Date(2025, 7, 18))
    ensures AddDays(Date(2025, 7, 18), 3) == Date(2025, 7, 21)
  {
    assert Ordinal(Date(2025, 7, 18)) == 739450;
    assert AddDays(Date(2025, 7, 18), 3) == AddDays(Date(2025, 7, 19), 2);
    assert AddDays(Date(2025, 7, 19), 2) == AddDays(Date(2025, 7, 20), 1);
  }

  /** Friday 16:00 to Monday 09:00 counts an hour on each working day, none over the weekend. */
  lemma SpanningAWeekend()
    ensures CountFrom(At(Date(2025, 7, 18), 16), At(Date(2025, 7, 21), 9)) == Counted(2 * 3600)
  {
    var fri := Date(2025, 7, 18);
    July18IsBusinessDay();
    July21IsBusinessDay();
    FridayToMonday(fri, 16 * 3600, 9 * 3600);
  }

  /** Friday 8 August 2025 and Monday 11 August 2025 are business days: Women's Day, on the Saturday between, shifts nothing. */
  lemma WomensDayWeekend()
    ensures ValidDate(Date(2025, 8, 8)) && Weekday(Date(2025, 8, 8)) == FRIDAY
    ensures IsBusinessDay(Date(2025, 8, 8)) && IsBusinessDay(Date(2025, 8, 11))
    ensures AddDays(Date(2025, 8, 8), 3) == Date(2025, 8, 11)
  {
    assert Ordinal(Date(2025, 8, 8)) == 739471;
    assert Ordinal(Date(2025, 8, 11)) == 739474;
    assert AddDays(Date(2025, 8, 8), 3) == AddDays(Date(2025, 8, 9), 2);
    assert AddDays(Date(2025, 8, 9), 2) == AddDays(Date(2025, 8, 10), 1);
  }

  /** Friday 16:00 to Monday 09:00 over Women's Day 2025 still counts two hours. */
  lemma SpanningAPublicHoliday()
    ensures CountFrom(At(Date(2025, 8, 8), 16), At(Date(2025, 8, 11), 9)) == Counted(2 * 3600)
  {
    WomensDayWeekend();
    FridayToMonday(Date(2025, 8, 8), 16 * 3600, 9 * 3600);
  }

  /** A Saturday, a Sunday and a Monday that is a holiday hold no business seconds. */
  lemma LongWeekendIsIdle(sat: Date, e: int)
    requires ValidDate(sat) && Weekday(sat) == SATURDAY && Ordinal(sat) + 3 <= MAX_ORDINAL
    requires IsObservedHoliday(NextDay(NextDay(sat)))
    ensures SpanShare(sat, 0, 3, e) == DayShare(AddDays(sat, 3), 0, e)
  {
    var sun := NextDay(sat);
    var mon := NextDay(sun);
    NextDayWeekday(sat);
    assert DayShare(sat, 0, 86400) == 0;
    assert DayShare(sun, 0, 86400) == 0;
    assert DayShare(mon, 0, 86400) == 0;
    assert SpanShare(mon, 0, 1, e) == DayShare(mon, 0, 86400) + SpanShare(NextDay(mon), 0, 0, e);
    assert SpanShare(sun, 0, 2, e) == DayShare(sun, 0, 86400) + SpanShare(mon, 0, 1, e);
    assert AddDays(sat, 3) == AddDays(sun, 2) == AddDays(mon, 1);
  }

  /** Friday 25 April 2025 and Tuesday 29 April 2025 are business days; Monday 28 April, after Freedom Day on the Sunday, is a holiday. */
  lemma FreedomDayWeekend()
    ensures ValidDate(Date(2025, 4, 25)) && Weekday(Date(2025, 4, 25)) == FRIDAY
    ensures Weekday(NextDay(Date(2025, 4, 25))) == SATURDAY
    ensures IsObservedHoliday(NextDay(NextDay(NextDay(Date(2025, 4, 25)))))
    ensures IsBusinessDay(Date(2025, 4, 25)) && IsBusinessDay(Date(2025, 4, 29))
    ensures AddDays(Date(2025, 4, 25), 4) == Date(2025, 4, 29)
  {
    assert Ordinal(Date(2025, 4, 25)) == 739366;
    assert Ordinal(Date(2025, 4, 28)) == 739369;
    assert Ordinal(Date(2025, 4, 29)) == 739370;
    assert NextDay(Date(2025, 4, 25)) == Date(2025, 4, 26);
    assert AddDays(Date(2025, 4, 25), 4) == AddDays(Date(2025, 4, 26), 3);
    assert AddDays(Date(2025, 4, 26), 3) == AddDays(Date(2025, 4, 27), 2);
    assert AddDays(Date(2025, 4, 27), 2) == AddDays(Date(2025, 4, 28), 1);
  }

  /** Friday 16:00 to Tuesday 09:00 over the Freedom Day weekend counts only the Friday and Tuesday hours. */
  lemma HolidayOnSunday()
    ensures CountFrom(At(Date(2025, 4, 25), 16), At(Date(2025, 4, 29), 9)) == Counted(2 * 3600)
  {
    var fri := Date(2025, 4, 25);
    FreedomDayWeekend();
    LongWeekendIsIdle(NextDay(fri), 9 * 3600);
    CountOverDays(fri, 16 * 3600, 4, 9 * 3600);
  }

  /** The last date of the calendar, Friday 9999-12-31, is a business day, and the day before it a Thursday. */
  lemma LastDayIsBusinessDay()
    ensures Weekday(MAX_DATE) == FRIDAY && IsBusinessDay(MAX_DATE)
    ensures Ordinal(Date(9999, 12, 30)) < MAX_ORDINAL && NextDay(Date(9999, 12, 30)) == MAX_DATE
    ensures IsBusinessDay(Date(9999, 12, 30))
  {
    MaxOrdinal();
    assert Ordinal(Date(9999, 12, 30)) == MAX_ORDINAL - 1;
  }

  /** 08:00 to 17:00 on 9999-12-31 counts a full business day: the loop stops at 17:00, long before `datetime.max`. */
  lemma LastBusinessDay()
    ensures CountFrom(At(MAX_DATE, 8), At(MAX_DATE, 17)) == Counted(9 * 3600)
  {
    LastDayIsBusinessDay();
    FullBusinessDay(MAX_DATE);
  }

  /** Thursday 9999-12-30 16:00 to Friday 9999-12-31 09:00 counts one hour on each day. */
  lemma IntoTheLastDay()
    ensures CountFrom(At(Date(9999, 12, 30), 16), At(MAX_DATE, 9)) == Counted(2 * 3600)
  {
    var thu := Date(9999, 12, 30);
    LastDayIsBusinessDay();
    assert AddDays(thu, 1) == MAX_DATE;
    CountOverDays(thu, 16 * 3600, 1, 9 * 3600);
  }
}
