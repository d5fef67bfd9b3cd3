# accweekdays: weekday seconds between two Unix timestamps

A Dafny model of the Hive user-defined function `accweekdays(start_ts, end_ts)`
(class `UDFAccWeekdays`). The function takes two epoch-second timestamps and
returns the seconds between them with weekends removed. It works in three steps:

1. `convertDate` snaps the ends. A start on a Saturday or Sunday moves forward
   to the following Monday 00:00. An end on a weekend moves back to that
   weekend's Saturday 00:00. A weekday instant is left alone.
2. If the snapped start is after the snapped end, both ends were in one
   weekend and the result is 0.
3. Otherwise `calculate` takes the snapped span and subtracts two days for
   every whole week in it. It subtracts two more days when the end's day of
   week (Sunday = 1 … Saturday = 7) is smaller than the start's.

Files:

- `calendar.dfy` (module `Calendar`): local midnight, day of week, and week
  number/position in a time zone with a fixed offset, all as integer arithmetic.
- `weekday_count.dfy` (module `WeekdayCount`): an independent reference count.
  It adds up, second by second, the instants of `[a, b)` that fall on Monday to
  Friday. It also has a closed form of that count and proves the two equal.
- `acc_weekdays.dfy` (module `AccWeekdays`): `ConvertDate`, `SubtractWeekends`,
  `Calculate` and `Evaluate`, plus the lemmas about them.
- `as_written_span.dfy` (module `AsWrittenSpan`): `calculate` with the 32-bit
  `(int)` cast of line 75 kept. See Findings.

The main result is `AccWeekdays.CalculateAgainstCount`. It compares
`calculate` with the exact count of weekday seconds. The day-of-week
comparison gets the count right in every case but one. That case is when the
end falls on the same weekday as the start but at an earlier time of day
(`MissedWeekend`), for example Friday 23:00 to the next Friday 22:00. There
`calculate` reports exactly two days too many. The model keeps this heuristic
as the code has it. It does not correct it.

The function's own description calls the result "the weekday period". Where
that description and the code differ, the model follows the code. The miss is
not limited to spans of several weeks: the Friday example above is shorter
than a week.

## Model

| member | source | states |
|---|---|---|
| `Calendar.Midnight` | com/higo/hive/udf/UDFAccWeekdays.java:102-108 | the format/parse round trip through "yyyy-MM-dd" yields the latest local midnight at or before the instant, on the same local day |
| `Calendar.SecondOfDay` | com/higo/hive/udf/UDFAccWeekdays.java:102-108 | the time of day that the "yyyy-MM-dd" round trip drops lies in `[0, 86400)` |
| `Calendar.DayOfWeek` | com/higo/hive/udf/UDFAccWeekdays.java:69-70 | `Calendar.DAY_OF_WEEK` of an instant lies between Sunday = 1 and Saturday = 7; `EpochIsThursday` and `DayOfWeekAfterDays` tie it to the real calendar |
| `Calendar.Decompose` | com/higo/hive/udf/UDFAccWeekdays.java:99-101 | `DAY_OF_WEEK` (Sunday = 1) and the time of day can both be read from the instant's position within its Sunday-based local week |
| `Calendar.DayOfWeekAfterDays` | com/higo/hive/udf/UDFAccWeekdays.java:114-125 | moving by whole days keeps the time of day and advances the day of week cyclically (Saturday + 2 days is Monday, Monday − 2 days is Saturday) |
| `Calendar.EpochIsThursday` | com/higo/hive/udf/UDFAccWeekdays.java:99-101 | in UTC, epoch second 0 has day of week 5 (Thursday) |
| `WeekdayCount.CountWeekdaySeconds` | com/higo/hive/udf/UDFAccWeekdays.java:18 | the documented "weekday period": how many seconds of `[a, b)` lie on Monday to Friday; never more than `b - a` |
| `WeekdayCount.CountClosedForm` | com/higo/hive/udf/UDFAccWeekdays.java:18 | the second-by-second weekday count equals the difference of the closed-form count (five days per week plus the elapsed part of Monday 00:00 to Saturday 00:00) |
| `WeekdayCount.WeekdaySecondsBeforeStep` | com/higo/hive/udf/UDFAccWeekdays.java:18 | the closed form grows by one across each weekday second and by zero across each weekend second |
| `WeekdayCount.WholeWeekCount` | com/higo/hive/udf/UDFAccWeekdays.java:27-29 | any 7-day window, wherever it starts, holds exactly 5 days of weekday seconds |
| `AccWeekdays.ConvertDate` | com/higo/hive/udf/UDFAccWeekdays.java:94-131 | a weekday instant is returned unchanged; a snapped start is never earlier than the input and is a weekday instant; a weekend start goes to the Monday 00:00 within the next 2 days; a weekend end goes to the Saturday 00:00 at most 2 days back; a snapped end is never later than the input |
| `AccWeekdays.SnapSkipsOnlyWeekend` | com/higo/hive/udf/UDFAccWeekdays.java:113-128 | no weekday second lies between an instant and its snapped start, or between its snapped end and the instant |
| `AccWeekdays.SameWeekendSnapsAlike` | com/higo/hive/udf/UDFAccWeekdays.java:114-125 | the Saturday and Sunday of one weekend snap to the same Monday 00:00 as starts and to the same Saturday 00:00 as ends |
| `AccWeekdays.SnapsCrossIffSameWeekend` | com/higo/hive/udf/UDFAccWeekdays.java:56-61 | the snapped start is after the snapped end if and only if both inputs lie in one weekend; then the result is 0 |
| `AccWeekdays.WeeksOfSpan` | com/higo/hive/udf/UDFAccWeekdays.java:75-77 | the day count divided by 7 is the number of whole weeks in the span |
| `AccWeekdays.SubtractWeekends` | com/higo/hive/udf/UDFAccWeekdays.java:63-88 | on snapped ends, the two-branch subtraction is never negative and never exceeds the snapped span |
| `AccWeekdays.WrapSpansWeekend` | com/higo/hive/udf/UDFAccWeekdays.java:82-86 | on snapped ends, when the end's day of week is smaller than the start's, the span holds more than two days beyond its whole weeks, so the extra weekend subtracted by the second branch is really there |
| `AccWeekdays.SubtractWeekendsCount` | com/higo/hive/udf/UDFAccWeekdays.java:73-86 | on snapped ends, the subtraction equals the exact weekday count, plus two days in the `MissedWeekend` case |
| `AccWeekdays.Calculate` | com/higo/hive/udf/UDFAccWeekdays.java:47-89 | for `st <= end` the result lies between 0 and `end - st` |
| `AccWeekdays.CalculateAgainstCount` | com/higo/hive/udf/UDFAccWeekdays.java:47-89 | the result equals the weekday seconds of `[st, end)`, plus two days exactly when both ends are weekdays with the same day of week and the end's time of day is earlier |
| `AccWeekdays.CalculateExactIff` | com/higo/hive/udf/UDFAccWeekdays.java:82-86 | the result never undercounts, and it is exact if and only if the interval is not a `MissedWeekend` one |
| `AccWeekdays.WholeWeeks` | com/higo/hive/udf/UDFAccWeekdays.java:73-83 | `k` whole weeks from a weekday instant give `5 * 86400 * k` |
| `AccWeekdays.ZeroWidth` | com/higo/hive/udf/UDFAccWeekdays.java:47-61 | `calculate(t, t)` is 0 for every instant, weekday or weekend |
| `AccWeekdays.MissedWeekendExample` | com/higo/hive/udf/UDFAccWeekdays.java:82-86 | Friday 1970-01-02 23:00 to Friday 1970-01-09 22:00 UTC gives 601200, while the true weekday count is 428400 |
| `AccWeekdays.Evaluate` | com/higo/hive/udf/UDFAccWeekdays.java:37-45 | no result if and only if an argument is missing or `start_ts > end_ts`; otherwise the result is `calculate`'s, between 0 and `end_ts - start_ts` |
| `AccWeekdays.DocumentedExample` | com/higo/hive/udf/UDFAccWeekdays.java:20-22 | `accweekdays(1452149997, 1452150015) = 18`, in UTC and in UTC+8 |
| `AsWrittenSpan.ToInt` | com/higo/hive/udf/UDFAccWeekdays.java:75 | the `(int)` cast yields a value in the 32-bit range that is congruent to its input modulo 2^32, and it leaves in-range values unchanged |
| `AsWrittenSpan.JavaDiv` | com/higo/hive/udf/UDFAccWeekdays.java:75-77 | Java's `/` by a positive divisor rounds toward zero: the quotient times the divisor lies between zero and the dividend, less than one divisor away from it |
| `AsWrittenSpan.SubtractWeekendsAsWritten` | com/higo/hive/udf/UDFAccWeekdays.java:73-88 | the subtraction with the `(int)` cast kept; on snapped ends whose span fits in an `int` it equals the unbounded `SubtractWeekends` |
| `AsWrittenSpan.CalculateAsWritten` | com/higo/hive/udf/UDFAccWeekdays.java:47-89 | `calculate` as written; for spans below 2^31 seconds it gives the same result as the unbounded `Calculate` |
| `AsWrittenSpan.OverflowExample` | com/higo/hive/udf/UDFAccWeekdays.java:75 | a span of exactly 2^31 seconds makes the code as written return more than the span itself |

## Left out

- Hive plumbing is not modelled: the `@Description` annotation, the `UDF` base class, `LongWritable` boxing, and the reused output holder `r` (lines 16-35, 42). `Evaluate` takes and returns `Option<int>`.
- The host's default time zone is replaced by a fixed `offset` parameter. Daylight-saving changes are not modelled.
- `SimpleDateFormat` is not modelled. Its format/parse round trip is modelled directly as the local midnight (`Calendar.Midnight`). The `ParseException` fallback that leaves `ts = 0` (lines 109-111) is left out, because parsing the formatter's own "yyyy-MM-dd" output does not fail. For years before 1 AD the pattern drops the era, which the arithmetic model does not reproduce.
- `java.util.Calendar` switches from the Julian to the Gregorian calendar in 1582. This does not affect the model, because the day-of-week cycle runs on unbroken across the switch.
- The millisecond `Date` values (`st * 1000`, lines 53-54) and 64-bit `long` overflow are not modelled. They only matter beyond about 9.2 × 10^15 seconds.
- The `int` products on lines 83 and 85 are computed without a 32-bit wrap. After the line-75 cast, `|weeks|` is at most 3550, so those products stay well inside 32 bits.
- The `dt == null` branch of `convertDate` (lines 95-97) is left out. `calculate` always passes a fresh `Date`.
- `AccWeekdays.Calculate` (and so `Evaluate`) leaves out the `(int)` cast of line 75 on purpose: it divides the full span. Its bound `0 <= r <= end - st` is therefore a property of the corrected code, not of the code as written, which can break it once the snapped span reaches 2^31 seconds. `AsWrittenSpan.CalculateAsWritten` keeps the cast (see Findings).
- `Calculate` takes `st <= end` as a precondition instead of throwing `IllegalArgumentException` (lines 49-51). `evaluate` already returns null for that input, so the throw cannot be reached.

## Findings

| source | as written | input that shows it | evidently intended | confidence | as-written member | corrected member |
|---|---|---|---|---|---|---|
| com/higo/hive/udf/UDFAccWeekdays.java:75 | `(int) totalPeriodTs / SECONDS_COUNT_IN_A_DAY` casts the 64-bit span to `int` before dividing. A span of 2^31 seconds or more wraps, often to a negative number. | `evaluate(0, 2147483648)` in UTC (Thursday 1970-01-01 00:00 to Tuesday 2038-01-19 03:14:08) returns 2760750848, which is more than the whole span of 2147483648 seconds | divide first, or keep the day count in a `long`, so that the week count is the true number of whole weeks; the same input then gives 1533870848 | not executed; high (Java's cast binds tighter than `/`) | `AsWrittenSpan.OverflowExample` | `AccWeekdays.Calculate` |

`AccWeekdays.Evaluate` uses the corrected `Calculate`. The contract of `AsWrittenSpan.CalculateAsWritten` states that the two agree on every span below 2^31 seconds.
