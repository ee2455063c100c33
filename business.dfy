/**
  Business seconds: an instant is one when it falls on a weekday, inside
  the half-open window [08:00:00, 17:00:00) and not on a holiday of its
  own year. A range [start, end) is counted by stepping one second at a
  time from start while the current instant is before end.
 */
module Business {
  import opened Calendar
  import opened Instants
  import opened HolidayCalendar

  /** Business hours as seconds of the day: 08:00:00 inclusive to 17:00:00 exclusive. */
  const WINDOW_START := 8 * 3600
  const WINDOW_END := 17 * 3600

  /** The time of day in microseconds, the quantity `dt.time()` is compared by. */
  function TimeOfDay(t: Instant): int {
    t.second * 1000000 + t.micro
  }

  /** A weekday that is no holiday, described without the holiday set. */
  predicate IsBusinessDay(d: Date)
    requires ValidDate(d)
  {
    Weekday(d) <= FRIDAY && !IsObservedHoliday(d)
  }

  /**
    The per-instant test, in the source's order: weekday, then business
    hours, then membership in the holiday set of the instant's own year.
   */
  predicate IsBusinessSecond(t: Instant)
    requires ValidInstant(t)
  {
    if Weekday(t.date) > FRIDAY then false
    else if !(WINDOW_START * 1000000 <= TimeOfDay(t) < WINDOW_END * 1000000) then false
    else if t.date in Holidays(t.date.year) then false
    else true
  }

  /**
    An instant is a business second exactly on a business day inside the
    window; its microsecond never matters.
   */
  lemma BusinessSecondExactly(t: Instant)
    requires ValidInstant(t)
    ensures IsBusinessSecond(t) <==> IsBusinessDay(t.date) && WINDOW_START <= t.second < WINDOW_END
  {
    HolidaysExactly(t.date.year, t.date);
  }

  /**
    The reference description of a business second, free of the holiday
    set: a business day and a second inside business hours.
   */
  predicate InBusinessHours(t: Instant)
    requires ValidInstant(t)
  {
    IsBusinessDay(t.date) && WINDOW_START <= t.second < WINDOW_END
  }

  /** The outcome of a count: a number, or the overflow Python raises on stepping past `datetime.max`. */
  datatype CountResult = Counted(total: nat) | DateOverflow

  /** What one instant adds to the count. */
  function Verdict(t: Instant): nat
    requires ValidInstant(t)
  {
    if InBusinessHours(t) then 1 else 0
  }

  /** How many instants t, t + 1 s, t + 2 s, ... lie before end: the number of loop iterations. */
  function StepsBefore(t: Instant, end: Instant): nat
    requires ValidInstant(t) && ValidInstant(end)
  {
    if ToMicros(t) < ToMicros(end)
    then (ToMicros(end) - ToMicros(t) + 1000000 - 1) / 1000000
    else 0
  }

  lemma StepsAfterOneSecond(t: Instant, next: Instant, end: Instant)
    requires ValidInstant(t) && ValidInstant(next) && ValidInstant(end)
    requires ToMicros(t) < ToMicros(end)
    requires ToMicros(next) == ToMicros(t) + 1000000
    ensures StepsBefore(next, end) + 1 == StepsBefore(t, end)
  {
    var gap := ToMicros(end) - ToMicros(t);
    if gap > 1000000 {
      assert (gap + 1000000 - 1) / 1000000
          == (gap - 1) / 1000000 + 1;
    }
  }

  /**
    The business seconds among t, t + 1 s, t + 2 s, ... that are before
    end: the specification of the counting loop.
   */
  function CountFrom(t: Instant, end: Instant): CountResult
    requires ValidInstant(t) && ValidInstant(end)
    decreases ToMicros(end) - ToMicros(t)
  {
    if ToMicros(t) >= ToMicros(end) then Counted(0)
    else match AddSecond(t)
      case None => DateOverflow
      case Some(next) =>
        match CountFrom(next, end)
        case DateOverflow => DateOverflow
        case Counted(rest) => Counted(Verdict(t) + rest)
  }

  /** The count never exceeds the number of whole-second steps the loop takes. */
  lemma {:induction false} CountBounded(t: Instant, end: Instant)
    requires ValidInstant(t) && ValidInstant(end)
    ensures CountFrom(t, end).Counted? ==> CountFrom(t, end).total <= StepsBefore(t, end)
    decreases ToMicros(end) - ToMicros(t)
  {
    BeforeIsChronological(t, end);
    if Before(t, end) {
      var step := AddSecond(t);
      if step.Some? {
        StepsAfterOneSecond(t, step.value, end);
        CountBounded(step.value, end);
      }
    }
  }

  /**
    The loop of the request handler: walk from start one second at a
    time while before end, counting the business seconds. The counter
    always holds the count of [start, current).
   */
  method CountBusinessSeconds(start: Instant, end: Instant) returns (r: CountResult)
    requires ValidInstant(start) && ValidInstant(end)
    ensures r == CountFrom(start, end)
    ensures !Before(start, end) ==> r == Counted(0)
  {
    BeforeIsChronological(start, end);
    var total: nat := 0;
    var current := start;
    ghost var steps: nat := 0;
    while Before(current, end)
      invariant ValidInstant(current)
      invariant ToMicros(current) == ToMicros(start) + steps * 1000000
      invariant steps == 0 || ToMicros(current) < ToMicros(end) + 1000000
      invariant CountFrom(start, current) == Counted(total)
      decreases ToMicros(end) - ToMicros(current)
    {
      BeforeIsChronological(current, end);
      var here := if IsBusinessSecond(current) then 1 else 0;
      var next := AddSecond(current);
      if next.None? {
        CountOverflows(start, current, end, steps);
        return DateOverflow;
      }
      PrefixAdvances(start, current, next.value, total, steps);
      total := total + here;
      current := next.value;
      steps := steps + 1;
    }
    BeforeIsChronological(current, end);
    CountReachesEnd(start, current, end, steps);
    r := Counted(total);
  }

  /** Where stepping from a point before end overflows, the whole count overflows. */
  lemma CountOverflows(start: Instant, current: Instant, end: Instant, steps: nat)
    requires ValidInstant(start) && ValidInstant(current) && ValidInstant(end)
    requires ToMicros(current) == ToMicros(start) + steps * 1000000
    requires ToMicros(current) < ToMicros(end) && AddSecond(current).None?
    ensures CountFrom(start, end) == DateOverflow
  {
    CountSplit(start, current, end, steps);
    CountFromStep(current, end);
  }

  /**
    The loop stops at the first instant at or after end; counting up to it
    visits the same instants as counting up to end.
   */
  lemma {:induction false} CountReachesEnd(t: Instant, m: Instant, e: Instant, steps: nat)
    requires ValidInstant(t) && ValidInstant(m) && ValidInstant(e)
    requires ToMicros(m) == ToMicros(t) + steps * 1000000 && ToMicros(e) <= ToMicros(m)
    requires steps == 0 || ToMicros(m) < ToMicros(e) + 1000000
    ensures CountFrom(t, e) == CountFrom(t, m)
    decreases steps
  {
    if steps == 0 {
      BeforeIsChronological(t, m);
      assert t == m;
    } else {
      CountFromStep(t, m);
      CountFromStep(t, e);
      var step := AddSecond(t);
      if step.Some? {
        CountReachesEnd(step.value, m, e, steps - 1);
      }
    }
  }

  /** One iteration extends the counted prefix [start, current) by the instant current. */
  lemma PrefixAdvances(start: Instant, current: Instant, next: Instant, total: nat, steps: nat)
    requires ValidInstant(start) && ValidInstant(current)
    requires AddSecond(current) == Some(next)
    requires ToMicros(current) == ToMicros(start) + steps * 1000000
    requires CountFrom(start, current) == Counted(total)
    ensures CountFrom(start, next) == Counted(total + if IsBusinessSecond(current) then 1 else 0)
  {
    CountOneSecond(current, next);
    CountConcat(start, current, next, steps, total, Verdict(current));
    BusinessSecondExactly(current);
  }

  /** The count over one second is that second's own verdict. */
  lemma CountOneSecond(t: Instant, next: Instant)
    requires ValidInstant(t) && AddSecond(t) == Some(next)
    ensures CountFrom(t, next) == Counted(Verdict(t))
  {
    CountFromStep(t, next);
  }

  /** One step of the count: the instant itself, then the rest from one second later. */
  lemma CountFromStep(t: Instant, end: Instant)
    requires ValidInstant(t) && ValidInstant(end) && ToMicros(t) < ToMicros(end)
    ensures AddSecond(t).None? ==> CountFrom(t, end) == DateOverflow
    ensures AddSecond(t).Some? ==>
              (CountFrom(t, end).Counted? <==> CountFrom(AddSecond(t).value, end).Counted?)
    ensures AddSecond(t).Some? && CountFrom(t, end).Counted? ==>
              CountFrom(t, end).total == Verdict(t) + CountFrom(AddSecond(t).value, end).total
  {
  }

  /** Counting [t, e) is counting [t, m) and then [m, e), for any m reached from t in whole seconds. */
  lemma {:induction false} CountSplit(t: Instant, m: Instant, e: Instant, steps: nat)
    requires ValidInstant(t) && ValidInstant(m) && ValidInstant(e)
    requires ToMicros(m) == ToMicros(t) + steps * 1000000 && ToMicros(m) <= ToMicros(e)
    ensures CountFrom(t, e).Counted? <==> CountFrom(t, m).Counted? && CountFrom(m, e).Counted?
    ensures CountFrom(t, e).Counted? ==> CountFrom(t, e).total == CountFrom(t, m).total + CountFrom(m, e).total
    decreases steps
  {
    if steps == 0 {
      BeforeIsChronological(t, m);
      assert t == m;
    } else {
      CountFromStep(t, m);
      CountFromStep(t, e);
      var step := AddSecond(t);
      if step.Some? {
        CountSplit(step.value, m, e, steps - 1);
      }
    }
  }

  /** Moving end later never lowers the count, and never turns an overflow into a count. */
  lemma {:induction false} CountMonotone(t: Instant, e1: Instant, e2: Instant)
    requires ValidInstant(t) && ValidInstant(e1) && ValidInstant(e2)
    requires ToMicros(e1) <= ToMicros(e2)
    ensures CountFrom(t, e2).Counted? ==>
              CountFrom(t, e1).Counted? && CountFrom(t, e1).total <= CountFrom(t, e2).total
    decreases ToMicros(e2) - ToMicros(t)
  {
    BeforeIsChronological(t, e1);
    BeforeIsChronological(t, e2);
    if Before(t, e1) {
      match AddSecond(t)
      case None =>
      case Some(next) =>
        CountMonotone(next, e1, e2);
    }
  }

  /** Second s of day d, where s = 86400 is midnight of the next day, which then must exist. */
  function DayPos(d: Date, s: int): (t: Instant)
    requires ValidDate(d) && 0 <= s <= 86400 && (s < 86400 || Ordinal(d) < MAX_ORDINAL)
    ensures ValidInstant(t) && t.micro == 0
    ensures ToMicros(t) == (Ordinal(d) * 86400 + s) * 1000000
  {
    if s < 86400 then Instant(d, s, 0) else Instant(NextDay(d), 0, 0)
  }

  /** The length of [s, e) within business hours. */
  function WindowOverlap(s: int, e: int): nat {
    var lo := if s < WINDOW_START then WINDOW_START else s;
    var hi := if e < WINDOW_END then e else WINDOW_END;
    if lo < hi then hi - lo else 0
  }

  /** Within one day, [s, e) holds as many business seconds as it shares with business hours, on a business day, and none otherwise. */
  lemma {:induction false} DayCount(d: Date, s: int, e: int)
    requires ValidDate(d) && 0 <= s <= e <= 86400 && (e < 86400 || Ordinal(d) < MAX_ORDINAL)
    ensures CountFrom(DayPos(d, s), DayPos(d, e))
            == Counted(DayShare(d, s, e))
    decreases e - s
  {
    if s == e {
      DayCountEmpty(d, s);
    } else {
      DayCount(d, s + 1, e);
      DayCountStep(d, s, e);
    }
  }

  /** An empty range within a day counts nothing. */
  lemma DayCountEmpty(d: Date, s: int)
    requires ValidDate(d) && 0 <= s <= 86400 && (s < 86400 || Ordinal(d) < MAX_ORDINAL)
    ensures CountFrom(DayPos(d, s), DayPos(d, s)) == Counted(0)
    ensures WindowOverlap(s, s) == 0
  {
  }

  /** Counting from second s of a day is that second's verdict plus the count from s + 1. */
  lemma DayCountStep(d: Date, s: int, e: int)
    requires ValidDate(d) && 0 <= s < e <= 86400 && (e < 86400 || Ordinal(d) < MAX_ORDINAL)
    requires CountFrom(DayPos(d, s + 1), DayPos(d, e))
             == Counted(DayShare(d, s + 1, e))
    ensures CountFrom(DayPos(d, s), DayPos(d, e))
            == Counted(DayShare(d, s, e))
  {
    var t := Instant(d, s, 0);
    assert DayPos(d, s) == t;
    CountFromStep(t, DayPos(d, e));
    DayPosStep(d, s);
    WindowOverlapStep(s, e);
  }

  /** One second after second s of day d is second s + 1, midnight included. */
  lemma DayPosStep(d: Date, s: int)
    requires ValidDate(d) && 0 <= s < 86400 && (s + 1 < 86400 || Ordinal(d) < MAX_ORDINAL)
    ensures AddSecond(DayPos(d, s)) == Some(DayPos(d, s + 1))
  {
    if s == 86400 - 1 {
      assert AddSecond(Instant(d, s, 0)) == Some(Instant(NextDay(d), 0, 0));
    } else {
      assert AddSecond(Instant(d, s, 0)) == Some(Instant(d, s + 1, 0));
    }
  }

  /** The overlap of [s, e) is that of s itself plus that of [s + 1, e). */
  lemma WindowOverlapStep(s: int, e: int)
    requires s < e
    ensures WindowOverlap(s, e) == (if WINDOW_START <= s < WINDOW_END then 1 else 0) + WindowOverlap(s + 1, e)
  {
  }

  /** The window is half-open: 08:00:00 counts, 16:59:59.999999 counts, 17:00:00 does not. */
  lemma WindowIsHalfOpen(d: Date)
    requires ValidDate(d) && IsBusinessDay(d)
    ensures IsBusinessSecond(Instant(d, WINDOW_START, 0))
    ensures IsBusinessSecond(Instant(d, WINDOW_END - 1, 1000000 - 1))
    ensures !IsBusinessSecond(Instant(d, WINDOW_END, 0))
    ensures !IsBusinessSecond(Instant(d, WINDOW_START - 1, 1000000 - 1))
  {
    BusinessSecondExactly(Instant(d, WINDOW_START, 0));
    BusinessSecondExactly(Instant(d, WINDOW_END - 1, 1000000 - 1));
    BusinessSecondExactly(Instant(d, WINDOW_END, 0));
    BusinessSecondExactly(Instant(d, WINDOW_START - 1, 1000000 - 1));
  }

  /** A whole business day from 08:00 to 17:00 yields 9 * 3600 seconds. */
  lemma FullBusinessDay(d: Date)
    requires ValidDate(d) && IsBusinessDay(d)
    ensures CountFrom(Instant(d, WINDOW_START, 0), Instant(d, WINDOW_END, 0)) == Counted(9 * 3600)
  {
    DayCount(d, WINDOW_START, WINDOW_END);
  }

  /** The business seconds of [s, e) on day d: its overlap with business hours on a business day, none otherwise. */
  function DayShare(d: Date, s: int, e: int): nat
    requires ValidDate(d)
  {
    if IsBusinessDay(d) then WindowOverlap(s, e) else 0
  }

  /**
    The business seconds from second s of day d to second e of the n-th
    day after d: what is left of d, then each following day from its
    midnight on, the last one only up to e.
   */
  function SpanShare(d: Date, s: int, n: nat, e: int): nat
    requires ValidDate(d) && Ordinal(d) + n <= MAX_ORDINAL
    decreases n
  {
    if n == 0 then DayShare(d, s, e)
    else DayShare(d, s, 86400) + SpanShare(NextDay(d), 0, n - 1, e)
  }

  /** Counts of two adjacent ranges, the first a whole number of seconds long, add up. */
  lemma CountConcat(t: Instant, m: Instant, e: Instant, steps: nat, a: nat, b: nat)
    requires ValidInstant(t) && ValidInstant(m) && ValidInstant(e)
    requires ToMicros(m) == ToMicros(t) + steps * 1000000 && ToMicros(m) <= ToMicros(e)
    requires CountFrom(t, m) == Counted(a) && CountFrom(m, e) == Counted(b)
    ensures CountFrom(t, e) == Counted(a + b)
  {
    CountSplit(t, m, e, steps);
  }

  /** Second s of day d and second e of the n-th day after it bound a range that never needs a day past 9999-12-31: it may end on that day, but not at its midnight. */
  predicate SpanBounds(d: Date, s: int, n: nat, e: int) {
    ValidDate(d) && 0 <= s <= 86400 && 0 <= e <= 86400 && (n > 0 || s <= e)
    && Ordinal(d) + n + (if e < 86400 then 0 else 1) <= MAX_ORDINAL
  }

  /** The count over such a range is its span share. */
  predicate SpanCounted(d: Date, s: int, n: nat, e: int)
    requires SpanBounds(d, s, n, e)
  {
    CountFrom(DayPos(d, s), DayPos(AddDays(d, n), e)) == Counted(SpanShare(d, s, n, e))
  }

  /**
    A range from second s of day d to second e of the n-th day after d
    counts the business hours left on d, then those of each following day,
    the last one only up to e.
   */
  lemma {:induction false} CountOverDays(d: Date, s: int, n: nat, e: int)
    requires SpanBounds(d, s, n, e)
    ensures SpanCounted(d, s, n, e)
    decreases n
  {
    if n > 0 {
      SpanBoundsNext(d, s, n, e);
      CountOverDays(NextDay(d), 0, n - 1, e);
    }
    CountOverDay(d, s, n, e);
  }

  /** A span of more than one day continues, from the next midnight, with one day fewer. */
  lemma SpanBoundsNext(d: Date, s: int, n: nat, e: int)
    requires SpanBounds(d, s, n, e) && n > 0
    ensures Ordinal(d) < MAX_ORDINAL && SpanBounds(NextDay(d), 0, n - 1, e)
  {
  }

  /** One day of a span: the whole span when it ends that day, else the day's share before the rest. */
  lemma CountOverDay(d: Date, s: int, n: nat, e: int)
    requires SpanBounds(d, s, n, e)
    requires n > 0 ==> SpanCounted(NextDay(d), 0, n - 1, e)
    ensures SpanCounted(d, s, n, e)
  {
    if n == 0 {
      CountWithinDay(d, s, e);
    } else {
      CountOverFirstDay(d, s, n, e);
    }
  }

  /** The base case: a range within one day. */
  lemma CountWithinDay(d: Date, s: int, e: int)
    requires SpanBounds(d, s, 0, e)
    ensures SpanCounted(d, s, 0, e)
  {
    DayCount(d, s, e);
  }

  /** The inductive step: the first day's share, then the span from the next midnight. */
  lemma CountOverFirstDay(d: Date, s: int, n: nat, e: int)
    requires SpanBounds(d, s, n, e) && n > 0
    requires SpanCounted(NextDay(d), 0, n - 1, e)
    ensures SpanCounted(d, s, n, e)
  {
    var midnight := DayPos(d, 86400);
    var end := DayPos(AddDays(d, n), e);
    assert midnight == DayPos(NextDay(d), 0);
    assert end == DayPos(AddDays(NextDay(d), n - 1), e);
    DayCount(d, s, 86400);
    MidnightSplits(d, s, n, e);
    CountConcat(DayPos(d, s), midnight, end, 86400 - s,
                DayShare(d, s, 86400), SpanShare(NextDay(d), 0, n - 1, e));
  }

  /** Midnight after day d lies a whole number of seconds after second s of d, and no later than any instant of a later day. */
  lemma MidnightSplits(d: Date, s: int, n: nat, e: int)
    requires ValidDate(d) && 0 <= s <= 86400 && 0 <= e <= 86400 && n >= 1
    requires Ordinal(d) + n + (if e < 86400 then 0 else 1) <= MAX_ORDINAL
    ensures ToMicros(DayPos(d, 86400)) == ToMicros(DayPos(d, s)) + (86400 - s) * 1000000
    ensures ToMicros(DayPos(d, 86400)) <= ToMicros(DayPos(AddDays(d, n), e))
  {
  }
}
