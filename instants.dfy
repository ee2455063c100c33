/**
  Naive wall-clock instants, as Python's `datetime.datetime` without a
  time zone: a date, the second of that day (hour * 3600 + minute * 60 +
  second) and a microsecond. Instants compare field by field, and
  `+ timedelta(seconds=1)` fails past the last representable instant.
 */
module Instants {
  import opened Calendar

  datatype Option<T> = None | Some(value: T)

  datatype Instant = Instant(date: Date, second: int, micro: int)

  const SECONDS_PER_DAY := 86400
  const MICROS_PER_SECOND := 1000000

  /** `datetime.max`: 9999-12-31 23:59:59.999999. */
  const MAX_INSTANT := Instant(MAX_DATE, SECONDS_PER_DAY - 1, MICROS_PER_SECOND - 1)

  /** The elapsed microseconds of `datetime.max`. */
  const MAX_MICROS := (MAX_ORDINAL * 86400 + 86400) * 1000000 - 1

  predicate ValidInstant(t: Instant) {
    ValidDate(t.date) && 0 <= t.second < 86400 && 0 <= t.micro < 1000000
  }

  /** Microseconds elapsed since 0001-01-01 00:00:00 minus one day (the ordinal epoch). */
  function ToMicros(t: Instant): (n: int)
    requires ValidInstant(t)
    ensures n >= 0
  {
    (Ordinal(t.date) * 86400 + t.second) * 1000000 + t.micro
  }

  /** Python's `<` on datetimes: by date, then time of day, then microsecond. */
  predicate Before(a: Instant, b: Instant) {
    DateBefore(a.date, b.date)
    || (a.date == b.date && a.second < b.second)
    || (a.date == b.date && a.second == b.second && a.micro < b.micro)
  }

  /** Field-wise comparison is chronological: it orders instants by elapsed time. */
  lemma BeforeIsChronological(a: Instant, b: Instant)
    requires ValidInstant(a) && ValidInstant(b)
    ensures Before(a, b) <==> ToMicros(a) < ToMicros(b)
    ensures a == b <==> ToMicros(a) == ToMicros(b)
  {
    OrdinalOrder(a.date, b.date);
    var oa, ob := Ordinal(a.date), Ordinal(b.date);
    if oa < ob {
      assert ToMicros(a) < (oa + 1) * 86400 * 1000000 <= ToMicros(b);
    } else if ob < oa {
      assert ToMicros(b) < (ob + 1) * 86400 * 1000000 <= ToMicros(a);
    } else if a.second < b.second {
      assert ToMicros(a) < (oa * 86400 + a.second + 1) * 1000000 <= ToMicros(b);
    } else if b.second < a.second {
      assert ToMicros(b) < (ob * 86400 + b.second + 1) * 1000000 <= ToMicros(a);
    }
  }

  /**
    `t + timedelta(seconds=1)`: the microsecond is kept and the second
    carries into the next day; None where Python raises OverflowError.
   */
  function AddSecond(t: Instant): (r: Option<Instant>)
    requires ValidInstant(t)
    ensures r.None? <==> ToMicros(t) + 1000000 > MAX_MICROS
    ensures r.Some? ==> ValidInstant(r.value) && r.value.micro == t.micro
                        && ToMicros(r.value) == ToMicros(t) + 1000000
  {
    AddSecondInRange(t);
    if t.second < 86400 - 1 then Some(Instant(t.date, t.second + 1, t.micro))
    else if Ordinal(t.date) == MAX_ORDINAL then None
    else Some(Instant(NextDay(t.date), 0, t.micro))
  }

  lemma AddSecondInRange(t: Instant)
    requires ValidInstant(t)
    ensures Ordinal(t.date) <= MAX_ORDINAL
    ensures (t.second == 86400 - 1 && Ordinal(t.date) == MAX_ORDINAL)
            <==> ToMicros(t) + 1000000 > MAX_MICROS
  {
    LastDay(t.date);
  }

  /** MAX_MICROS is the elapsed time of `datetime.max`, the latest valid instant. */
  lemma MaxInstant(t: Instant)
    requires ValidInstant(t)
    ensures ValidInstant(MAX_INSTANT) && ToMicros(MAX_INSTANT) == MAX_MICROS
    ensures ToMicros(t) <= MAX_MICROS
  {
    MaxOrdinal();
    LastDay(t.date);
  }
}
