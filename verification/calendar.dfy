/** Local calendar arithmetic on epoch seconds.

    The Java code asks `java.util.Calendar` and `SimpleDateFormat` for the
    day of week and the local midnight of an instant in the host's default
    time zone. Here the zone is an explicit fixed `offset` in seconds east of
    UTC (no daylight saving), so every quantity below is integer arithmetic.
    Dafny's `/` and `%` floor for a positive divisor, which is what the Java
    calendar does for instants before the epoch.
 */
module Calendar {

  const SecondsPerDay: int := 86400
  const DaysPerWeek: int := 7
  const SecondsPerWeek: int := 604800

  /** Day-of-week numbering of `java.util.Calendar.DAY_OF_WEEK`. */
  const Sunday: int := 1
  const Monday: int := 2
  const Friday: int := 6
  const Saturday: int := 7

  /** 1970-01-01 was a Thursday: the local Sunday 1969-12-28 00:00 lies this
      many seconds before the local epoch. */
  const SundayBeforeEpoch: int := 4 * SecondsPerDay

  /** Number of local days since 1970-01-01 (negative before it). */
  function DayNumber(t: int, offset: int): int
  {
    (t + offset) / SecondsPerDay
  }

  /** Seconds elapsed since the local midnight that starts the day of `t`. */
  function SecondOfDay(t: int, offset: int): (s: int)
    ensures 0 <= s < SecondsPerDay
  {
    (t + offset) % SecondsPerDay
  }

  /** The local midnight starting the day that contains `t`: what
      `ft.parse(ft.format(dt))` with pattern "yyyy-MM-dd" yields. */
  function Midnight(t: int, offset: int): (m: int)
    ensures m <= t < m + SecondsPerDay
    ensures SecondOfDay(m, offset) == 0
    ensures DayNumber(m, offset) == DayNumber(t, offset)
  {
    t - SecondOfDay(t, offset)
  }

  /** `Calendar.DAY_OF_WEEK` of `t`: Sunday = 1, ..., Saturday = 7. */
  function DayOfWeek(t: int, offset: int): (d: int)
    ensures Sunday <= d <= Saturday
  {
    (DayNumber(t, offset) + 4) % DaysPerWeek + 1
  }

  predicate IsWeekend(t: int, offset: int)
  {
    DayOfWeek(t, offset) == Sunday || DayOfWeek(t, offset) == Saturday
  }

  predicate IsWeekday(t: int, offset: int)
  {
    Monday <= DayOfWeek(t, offset) <= Friday
  }

  /** A local Saturday 00:00: the instant at which Friday ends. */
  predicate IsSaturdayMidnight(t: int, offset: int)
  {
    DayOfWeek(t, offset) == Saturday && SecondOfDay(t, offset) == 0
  }

  /** A local Monday 00:00: the instant at which a weekend ends. */
  predicate IsMondayMidnight(t: int, offset: int)
  {
    DayOfWeek(t, offset) == Monday && SecondOfDay(t, offset) == 0
  }

  /** Local weeks, each starting on a Sunday 00:00, counted from the week
      of 1970-01-01. */
  function WeekNumber(t: int, offset: int): int
  {
    (t + offset + SundayBeforeEpoch) / SecondsPerWeek
  }

  /** Seconds elapsed since the local Sunday 00:00 that starts the week of `t`. */
  function WeekPosition(t: int, offset: int): int
  {
    (t + offset + SundayBeforeEpoch) % SecondsPerWeek
  }

  lemma DivModUnique(x: int, d: int, q: int, r: int)
    requires 0 < d && x == d * q + r && 0 <= r < d
    ensures x / d == q && x % d == r
  {
    var q', r' := x / d, x % d;
    assert d * q + r == d * q' + r';
    if q > q' {
      NonNegProduct(d, q - q' - 1);
      assert false;
    } else if q < q' {
      NonNegProduct(d, q' - q - 1);
      assert false;
    }
  }

  lemma NonNegProduct(a: int, b: int)
    requires 0 <= a && 0 <= b
    ensures 0 <= a * b
  {
  }

  /** Every calendar quantity of `t` is read off its week number and its
      position in the week. */
  lemma Decompose(t: int, offset: int)
    ensures t + offset + SundayBeforeEpoch == SecondsPerWeek * WeekNumber(t, offset) + WeekPosition(t, offset)
    ensures 0 <= WeekPosition(t, offset) < SecondsPerWeek
    ensures DayOfWeek(t, offset) == WeekPosition(t, offset) / SecondsPerDay + 1
    ensures SecondOfDay(t, offset) == WeekPosition(t, offset) % SecondsPerDay
    ensures WeekPosition(t, offset) == SecondsPerDay * (DayOfWeek(t, offset) - 1) + SecondOfDay(t, offset)
    ensures IsWeekday(t, offset) <==> SecondsPerDay <= WeekPosition(t, offset) < 6 * SecondsPerDay
    ensures IsWeekend(t, offset) <==> !IsWeekday(t, offset)
    ensures IsMondayMidnight(t, offset) <==> WeekPosition(t, offset) == SecondsPerDay
    ensures IsSaturdayMidnight(t, offset) <==> WeekPosition(t, offset) == 6 * SecondsPerDay
  {
    var n, s := DayNumber(t, offset), SecondOfDay(t, offset);
    var k, m := (n + 4) / DaysPerWeek, (n + 4) % DaysPerWeek;
    assert t + offset == SecondsPerDay * n + s;
    assert n + 4 == DaysPerWeek * k + m;
    var p := SecondsPerDay * m + s;
    assert t + offset + SundayBeforeEpoch == SecondsPerWeek * k + p;
    DivModUnique(t + offset + SundayBeforeEpoch, SecondsPerWeek, k, p);
    DivModUnique(p, SecondsPerDay, m, s);
  }

  /** Recognising a week number and position from a decomposition. */
  lemma WeekOf(t: int, offset: int, w: int, p: int)
    requires t + offset + SundayBeforeEpoch == SecondsPerWeek * w + p
    requires 0 <= p < SecondsPerWeek
    ensures WeekNumber(t, offset) == w && WeekPosition(t, offset) == p
    ensures DayOfWeek(t, offset) == p / SecondsPerDay + 1
    ensures SecondOfDay(t, offset) == p % SecondsPerDay
  {
    Decompose(t, offset);
    DivModUnique(t + offset + SundayBeforeEpoch, SecondsPerWeek, w, p);
  }

  /** The epoch is a Thursday in UTC. */
  lemma EpochIsThursday()
    ensures DayOfWeek(0, 0) == 5
  {
  }

  /** Moving a whole number of days forward advances the day of week
      cyclically; in particular whole weeks leave it unchanged. */
  lemma DayOfWeekAfterDays(t: int, offset: int, k: int)
    ensures DayOfWeek(t + SecondsPerDay * k, offset) - 1 == (DayOfWeek(t, offset) - 1 + k) % DaysPerWeek
    ensures SecondOfDay(t + SecondsPerDay * k, offset) == SecondOfDay(t, offset)
  {
    var n, s := DayNumber(t, offset), SecondOfDay(t, offset);
    assert t + SecondsPerDay * k + offset == SecondsPerDay * (n + k) + s;
    DivModUnique(t + SecondsPerDay * k + offset, SecondsPerDay, n + k, s);
    var m := (n + 4) % DaysPerWeek;
    var j := (n + 4) / DaysPerWeek;
    var c := (m + k) / DaysPerWeek;
    assert n + k + 4 == DaysPerWeek * (j + c) + (m + k) % DaysPerWeek;
    DivModUnique(n + k + 4, DaysPerWeek, j + c, (m + k) % DaysPerWeek);
  }
}
