/** An independent reference for "seconds that lie on a weekday".

    `CountWeekdaySeconds` counts, second by second, the instants of a
    half-open interval whose local day is Monday to Friday. It is the
    obvious meaning of the function's documented result, and it is what
    the day-of-week heuristic of `calculate` is compared against.
    `WeekdaySecondsBefore` is a closed form of the same count, measured from
    a fixed local Sunday 00:00, which makes the comparison provable.
 */
module WeekdayCount {
  import opened Calendar

  /** Weekday seconds in one full week. */
  const WeekdaySecondsPerWeek: int := 5 * SecondsPerDay

  /** Number of instants `u` with `a <= u < b` that lie on a local weekday. */
  function CountWeekdaySeconds(a: int, b: int, offset: int): (n: nat)
    ensures a <= b ==> n <= b - a
    decreases b - a
  {
    if b <= a then 0
    else CountWeekdaySeconds(a, b - 1, offset) + (if IsWeekday(b - 1, offset) then 1 else 0)
  }

  function Clamp(x: int, lo: int, hi: int): int
  {
    if x < lo then lo else if x > hi then hi else x
  }

  /** Weekday seconds from the local Sunday 1969-12-28 00:00 up to `t`
      (negative before it): five days for each whole week, plus the part of
      Monday 00:00 .. Saturday 00:00 already elapsed in the current week. */
  function WeekdaySecondsBefore(t: int, offset: int): int
  {
    WeekdaySecondsPerWeek * WeekNumber(t, offset)
      + Clamp(WeekPosition(t, offset) - SecondsPerDay, 0, WeekdaySecondsPerWeek)
  }

  /** The closed form grows by exactly one across a weekday second and stays
      put across a weekend second. */
  lemma WeekdaySecondsBeforeStep(t: int, offset: int)
    ensures WeekdaySecondsBefore(t + 1, offset) - WeekdaySecondsBefore(t, offset)
         == if IsWeekday(t, offset) then 1 else 0
  {
    Decompose(t, offset);
    var w, p := WeekNumber(t, offset), WeekPosition(t, offset);
    if p + 1 < SecondsPerWeek {
      WeekOf(t + 1, offset, w, p + 1);
    } else {
      WeekOf(t + 1, offset, w + 1, 0);
    }
  }

  /** The second-by-second count equals the difference of the closed form. */
  lemma {:induction false} CountClosedForm(a: int, b: int, offset: int)
    requires a <= b
    ensures CountWeekdaySeconds(a, b, offset) == WeekdaySecondsBefore(b, offset) - WeekdaySecondsBefore(a, offset)
    decreases b - a
  {
    if b > a {
      CountClosedForm(a, b - 1, offset);
      WeekdaySecondsBeforeStep(b - 1, offset);
    }
  }

  /** Counting up to a later instant never yields less. */
  lemma WeekdaySecondsBeforeMonotone(t: int, u: int, offset: int)
    requires t <= u
    ensures WeekdaySecondsBefore(t, offset) <= WeekdaySecondsBefore(u, offset)
  {
    CountClosedForm(t, u, offset);
  }

  /** A whole week, wherever it starts, holds exactly five days of weekday
      seconds. */
  lemma WholeWeekCount(t: int, offset: int)
    ensures CountWeekdaySeconds(t, t + SecondsPerWeek, offset) == WeekdaySecondsPerWeek
  {
    WeekdaySecondsBeforeNextWeek(t, offset);
    CountClosedForm(t, t + SecondsPerWeek, offset);
  }

  lemma WeekdaySecondsBeforeNextWeek(t: int, offset: int)
    ensures WeekdaySecondsBefore(t + SecondsPerWeek, offset) == WeekdaySecondsBefore(t, offset) + WeekdaySecondsPerWeek
  {
    Decompose(t, offset);
    WeekOf(t + SecondsPerWeek, offset, WeekNumber(t, offset) + 1, WeekPosition(t, offset));
  }
}
