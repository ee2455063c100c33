# Business seconds

A model of the calculation behind the `/calculate` endpoint of the
business-seconds API. Given a start and an end instant, the endpoint counts
the whole-second steps from the start, up to but not including the end,
that are business seconds. A business second falls on a weekday (Monday to
Friday), inside the half-open window 08:00:00 to 17:00:00, and on no South
African public holiday of its own year.

The model has five modules:

- `Calendar` covers the dates of Python's `datetime.date`:
  - years 1 to 9999;
  - the proleptic Gregorian ordinal, with 0001-01-01 as day 1;
  - `weekday()`, with Monday = 0 and Sunday = 6;
  - `+ timedelta(days=1)`.
- `Instants` covers naive `datetime` values, each held as a date, a second
  of the day and a microsecond:
  - Python's field-by-field `<`;
  - `+ timedelta(seconds=1)`, which fails past `datetime.max`.
- `HolidayCalendar` builds one year's holiday set:
  - the twelve fixed dates, with Good Friday and Family Day pinned at their
    2025 dates in every year;
  - the Monday after each of those dates that falls on a Sunday;
  - the construction appears twice: the specification function `Holidays`
    and the loop of `PublicHolidays`.
- `Business` covers three things:
  - the per-instant test `IsBusinessSecond`;
  - the counting loop `CountBusinessSeconds`, proved equal to the recursive
    specification `CountFrom`;
  - lemmas that count whole ranges day by day.
- `Scenarios` works the request scenarios of `test_app.py` through the
  specification of the loop.

The result of a count is a `CountResult`: either the number of business
seconds, or `DateOverflow`. `DateOverflow` stands for the `OverflowError`
Python raises when the loop steps past `datetime.max`.

## Model

| member | source | states |
|---|---|---|
| `Calendar.NextDay` | app.py:34 | `+ timedelta(days=1)` gives a valid date whose ordinal is exactly one more |
| `Calendar.NextDayWeekday` | app.py:33-34 | the weekday of the next day is the weekday after, cyclically (Sunday is followed by Monday) |
| `Calendar.DaysInYearsClosedForm` | app.py:33 | the cycle count of days behind the ordinal equals CPython's closed form for the days before a year: 365 a year, plus one every fourth year, minus one every hundredth, plus one every four-hundredth |
| `Calendar.LastDay` | app.py:34 | every valid date has an ordinal of at most 3652059, and only 9999-12-31 has that ordinal, so it is the one date that cannot be stepped forward |
| `Calendar.OrdinalOrder` | app.py:88 | calendar order of dates and ordinal order agree in both directions, and equal ordinals mean equal dates |
| `Instants.BeforeIsChronological` | app.py:88 | the loop's `current_time < end` holds exactly when the first instant is earlier in elapsed time; equal instants have equal elapsed time |
| `Instants.AddSecond` | app.py:91 | stepping one second fails exactly when the result would pass `datetime.max`, and otherwise lands one second later with the microsecond kept |
| `Instants.MaxInstant` | app.py:91 | `datetime.max` is a valid instant, and no valid instant lies later in elapsed time |
| `HolidayCalendar.PublicHolidays` | app.py:10-36 | the loop that collects shifted Mondays and unions them with the base dates returns exactly the holiday set of the year |
| `HolidayCalendar.BaseDayListed` | app.py:15-28 | the written-out test of the twelve base days agrees with the base-day set, in both directions |
| `HolidayCalendar.BaseDatesIncluded` | app.py:15-28 | each of the twelve base dates, built in the requested year, is in that year's holiday set |
| `HolidayCalendar.SundayShifted` | app.py:30-34 | a base date on a Sunday puts the following day in the set, and that day is a Monday |
| `HolidayCalendar.SaturdayShiftsNothing` | app.py:32-34 | a base date on a Saturday adds no Monday: the Monday after it is a holiday only if it, or the Sunday between, is a base date itself |
| `HolidayCalendar.HolidayIsObserved` | app.py:30-36 | every member of the set is a date of that year that is a base day, or a Monday right after a base day |
| `HolidayCalendar.ObservedIsHoliday` | app.py:30-36 | every base day of the year, and every Monday right after one, is in the set |
| `HolidayCalendar.HolidaysExactly` | app.py:30-36 | membership in the holiday set holds if and only if the date is a base day of that year or a Monday after one: nothing else is added |
| `HolidayCalendar.NotObserved` | app.py:30-36 | a date that is neither a base day nor the day after one is in no year's holiday set |
| `HolidayCalendar.ChristmasOnSunday` | app.py:25-36 | Christmas on a Sunday shifts onto the Day of Goodwill, which is already in the set; the set holds it once and 27 December stays a working day |
| `HolidayCalendar.FreedomDay2025` | test_app.py:59-68 | 27 April 2025 is a Sunday, so Monday 28 April 2025 is in the holiday set |
| `HolidayCalendar.WomensDayShiftsNothing` | test_app.py:48-51 | 11 August is in no year's holiday set: Women's Day on the 9th never shifts that far |
| `HolidayCalendar.WomensDay2025` | test_app.py:48-57 | 9 August 2025 is a Saturday, and Monday 11 August 2025 is no observed holiday |
| `Business.BusinessSecondExactly` | app.py:38-59 | an instant is a business second if and only if its weekday is at most Friday, it is not a holiday of its own year, and its time lies in [08:00:00, 17:00:00) |
| `Business.WindowIsHalfOpen` | app.py:47-51 | on a business day 08:00:00 and 16:59:59.999999 are business seconds; 17:00:00 and 07:59:59.999999 are not |
| `Business.CountBusinessSeconds` | app.py:84-91 | the loop returns the count of business seconds among start, start + 1 s, ... before end, or the overflow; if end is not after start it returns 0 |
| `Business.CountBounded` | app.py:84-91 | a count is never larger than the number of whole-second steps the loop takes |
| `Business.CountMonotone` | app.py:84-91 | moving the end later never lowers a count that completes |
| `Business.CountSplit` | app.py:84-91 | counting up to an intermediate instant a whole number of seconds on, then counting from it, adds up to the count of the whole range |
| `Business.CountReachesEnd` | app.py:88 | once the loop stops, less than one second past the end, the count so far is the count of the whole range |
| `Business.PrefixAdvances` | app.py:89-91 | one iteration keeps the loop invariant: the counter is the count of [start, current) |
| `Business.DayCount` | app.py:43-51 | within one day, 9999-12-31 included, a range counts its overlap with business hours on a business day, and nothing on any other day; only a range that runs to midnight needs a next day |
| `Business.FullBusinessDay` | test_app.py:20-28 | 08:00 to 17:00 on any business day, 9999-12-31 included, yields 9 * 3600 seconds |
| `Business.CountOverDays` | app.py:84-91 | a range from a second of one day to a second of a later day counts its span share: the business hours left on the first day, those of each whole day between, and those before the end on the last day; the range may end on 9999-12-31, short of its midnight |
| `Scenarios.WeekendIsIdle` | app.py:44-45 | a Saturday and the Sunday after it add no business seconds |
| `Scenarios.FridayToMonday` | app.py:44-45 | from a Friday into the following Monday, only the hours on those two days count |
| `Scenarios.LongWeekendIsIdle` | app.py:55-57 | a weekend followed by a holiday Monday adds no business seconds |
| `Scenarios.SimpleBusinessHours` | test_app.py:12-18 | ten seconds from 10:00:00 on Monday 21 July 2025 count 10 |
| `Scenarios.SpanningLunchBreak` | test_app.py:20-28 | 08:00 to 17:00 on Monday 21 July 2025 counts 9 * 60 * 60 |
| `Scenarios.OutsideBusinessHours` | test_app.py:30-36 | 18:00 to 19:00 on the same day counts 0 |
| `Scenarios.SpanningAWeekend` | test_app.py:38-46 | Friday 18 July 2025 16:00 to Monday 21 July 2025 09:00 counts 2 * 3600 |
| `Scenarios.SpanningAPublicHoliday` | test_app.py:48-57 | Friday 8 August 2025 16:00 to Monday 11 August 2025 09:00 counts 2 * 3600, since Women's Day on the Saturday shifts nothing |
| `Scenarios.HolidayOnSunday` | test_app.py:59-68 | Friday 25 April 2025 16:00 to Tuesday 29 April 2025 09:00 counts 2 * 3600, since Monday 28 April is the shifted Freedom Day |
| `Scenarios.LastDayIsBusinessDay` | app.py:43-57 | 9999-12-31, the last date Python holds, is a Friday and a business day, and follows Thursday 9999-12-30, also a business day |
| `Scenarios.LastBusinessDay` | app.py:84-91 | 08:00 to 17:00 on 9999-12-31 counts 9 * 3600: the loop stops at 17:00 and never steps past `datetime.max` |
| `Scenarios.IntoTheLastDay` | app.py:84-91 | Thursday 9999-12-30 16:00 to Friday 9999-12-31 09:00 counts 2 * 3600 |

## Left out

- Flask routing, app setup and the server start (app.py:4-6, 63-64, 95-97): transport, not logic.
- Reading the query parameters and the 400 answer when one is missing (app.py:68-73): request handling around the calculation.
- ISO-8601 parsing with `datetime.fromisoformat` and its 400 answer (app.py:75-80): a library call. The model starts from already-parsed instants.
- Time zones: the instants are naive wall-clock values. An aware `datetime` (such as one parsed from a `Z` suffix) keeps its offset while seconds are added, and `.date()` and `.time()` read its wall-clock fields. The count is therefore the same, but offsets between two different zones are not modelled. A naive and an aware input together make `current_time < end_time` (app.py:88) raise `TypeError`; the model has a single kind of instant, so that failure is not modelled.
- `jsonify` and the 500 answer Flask gives for an `OverflowError`: the overflow is the `DateOverflow` outcome, and the HTTP answers are not modelled.
- Hour, minute and second are folded into one second-of-day field. Conversion from the three fields is not modelled.
- `Business.IsBusinessSecond` reads the holiday set through the specification function `HolidayCalendar.Holidays`. It does not call the method `PublicHolidays` on every instant. That method is proved to return exactly that set.
- Running time: the loop's one iteration per second (its cost over long ranges) is not a property of the model.
