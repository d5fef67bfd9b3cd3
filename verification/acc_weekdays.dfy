/** The `accweekdays` Hive function: the seconds between two epoch
    timestamps with weekend days taken out by a day-of-week heuristic.

    `Evaluate` is the null/order guard, `Calculate` snaps both ends off
    weekends and subtracts two days per week, `ConvertDate` does the
    snapping. The host's default time zone is the fixed `offset` of the
    Calendar module.
 */
module AccWeekdays {
  import opened Calendar
  import opened WeekdayCount

  datatype Option<T> = None | Some(value: T)

  /** Which end of the interval `ConvertDate` is snapping
      (`START_DATE` = 1 and `END_DATE` = 2 in the Java class). */
  datatype DateKind = StartDate | EndDate

  /** Weekend days in a week (`WEEKENDS_COUNT_IN_A_WEEK`). */
  const WeekendDaysPerWeek: int := 2

  /** Where a snapped end may lie: any weekday instant, or the Saturday
      00:00 that closes a working week. */
  predicate EndSnapped(t: int, offset: int)
  {
    IsWeekday(t, offset) || IsSaturdayMidnight(t, offset)
  }

  /** `convertDate`: a start on a weekend moves forward to the following
      Monday 00:00, an end on a weekend moves back to that weekend's
      Saturday 00:00, and a weekday instant is left alone. */
  function ConvertDate(t: int, kind: DateKind, offset: int): (r: int)
    ensures IsWeekday(t, offset) ==> r == t
    ensures kind == StartDate ==> t <= r && IsWeekday(r, offset)
    ensures kind == EndDate ==> r <= t && EndSnapped(r, offset)
    ensures IsWeekend(t, offset) && kind == StartDate ==>
              IsMondayMidnight(r, offset) && t < r <= t + WeekendDaysPerWeek * SecondsPerDay
    ensures IsWeekend(t, offset) && kind == EndDate ==>
              IsSaturdayMidnight(r, offset) && r <= t < r + WeekendDaysPerWeek * SecondsPerDay
  {
    Decompose(t, offset);
    var dayOfWeek := DayOfWeek(t, offset);
    var ts := Midnight(t, offset);
    var w, p := WeekNumber(t, offset), WeekPosition(t, offset);
    if dayOfWeek == Sunday then
      if kind == StartDate then
        WeekOf(ts + SecondsPerDay, offset, w, SecondsPerDay);
        ts + SecondsPerDay
      else
        WeekOf(ts - SecondsPerDay, offset, w - 1, 6 * SecondsPerDay);
        ts - SecondsPerDay
    else if dayOfWeek == Saturday then
      if kind == StartDate then
        WeekOf(ts + 2 * SecondsPerDay, offset, w + 1, SecondsPerDay);
        ts + 2 * SecondsPerDay
      else
        WeekOf(ts, offset, w, 6 * SecondsPerDay);
        ts
    else
      t
  }

  /** The end falls on the same weekday as the start but at an earlier time
      of day. Such an interval wraps through a weekend that comparing days of
      week does not notice. */
  predicate MissedWeekend(st: int, end: int, offset: int)
  {
    && IsWeekday(st, offset) && IsWeekday(end, offset)
    && DayOfWeek(st, offset) == DayOfWeek(end, offset)
    && SecondOfDay(end, offset) < SecondOfDay(st, offset)
  }

  /** Both instants lie in one and the same weekend. */
  predicate SameWeekend(st: int, end: int, offset: int)
  {
    IsWeekend(st, offset) && IsWeekend(end, offset) && 0 <= end - st < WeekendDaysPerWeek * SecondsPerDay
  }

  /** The subtraction step of `calculate`, once both ends are snapped: the
      snapped span less two days per whole week, and two more days when the
      end's day of week comes before the start's. */
  function SubtractWeekends(adjStart: int, adjEnd: int, offset: int): (r: int)
    requires adjStart <= adjEnd
    requires IsWeekday(adjStart, offset) && EndSnapped(adjEnd, offset)
    ensures 0 <= r <= adjEnd - adjStart
  {
    WeeksOfSpan(adjEnd - adjStart);
    WrapSpansWeekend(adjStart, adjEnd, offset);
    var totalPeriod := adjEnd - adjStart;
    var days := totalPeriod / SecondsPerDay;
    var weeks := days / DaysPerWeek;
    if DayOfWeek(adjStart, offset) <= DayOfWeek(adjEnd, offset) then
      totalPeriod - SecondsPerDay * WeekendDaysPerWeek * weeks
    else
      totalPeriod - SecondsPerDay * (weeks + 1) * WeekendDaysPerWeek
  }

  /** `calculate`. The Java method throws when `st > end`; `evaluate` never
      lets that through, so here it is a precondition. */
  function Calculate(st: int, end: int, offset: int): (r: int)
    requires st <= end
    ensures 0 <= r <= end - st
  {
    var adjStart := ConvertDate(st, StartDate, offset);
    var adjEnd := ConvertDate(end, EndDate, offset);
    if adjStart > adjEnd then 0 else SubtractWeekends(adjStart, adjEnd, offset)
  }

  /** `evaluate`: no result when an argument is missing or the start comes
      after the end, otherwise the weekday seconds of `calculate`. */
  function Evaluate(startTs: Option<int>, endTs: Option<int>, offset: int): (r: Option<int>)
    ensures r.None? <==> startTs.None? || endTs.None? || startTs.value > endTs.value
    ensures r.Some? ==> r.value == Calculate(startTs.value, endTs.value, offset)
    ensures r.Some? ==> 0 <= r.value <= endTs.value - startTs.value
  {
    if startTs.None? || endTs.None? || startTs.value > endTs.value then None
    else Some(Calculate(startTs.value, endTs.value, offset))
  }

  /** When the end's day of week comes before the start's, the span wraps
      through a weekend: beyond its whole weeks it holds more than two days. */
  lemma WrapSpansWeekend(adjStart: int, adjEnd: int, offset: int)
    requires IsWeekday(adjStart, offset) && EndSnapped(adjEnd, offset)
    ensures DayOfWeek(adjStart, offset) > DayOfWeek(adjEnd, offset) ==>
              (adjEnd - adjStart) % SecondsPerWeek > WeekendDaysPerWeek * SecondsPerDay
  {
    Decompose(adjStart, offset);
    Decompose(adjEnd, offset);
    var wa, pa := WeekNumber(adjStart, offset), WeekPosition(adjStart, offset);
    var wb, pb := WeekNumber(adjEnd, offset), WeekPosition(adjEnd, offset);
    if DayOfWeek(adjStart, offset) > DayOfWeek(adjEnd, offset) {
      DivModUnique(adjEnd - adjStart, SecondsPerWeek, wb - wa - 1, SecondsPerWeek + pb - pa);
    }
  }

  /** Whole weeks of the span counted with floor division by a week. */
  lemma WeeksOfSpan(total: int)
    requires 0 <= total
    ensures (total / SecondsPerDay) / DaysPerWeek == total / SecondsPerWeek
  {
    var d, s := total / SecondsPerDay, total % SecondsPerDay;
    var w, m := d / DaysPerWeek, d % DaysPerWeek;
    assert total == SecondsPerWeek * w + (SecondsPerDay * m + s);
    DivModUnique(total, SecondsPerWeek, w, SecondsPerDay * m + s);
  }

  /** On snapped ends the subtraction counts the weekday seconds exactly,
      except that it misses one weekend (two days) in the wrap case of
      `MissedWeekend`. */
  lemma SubtractWeekendsCount(adjStart: int, adjEnd: int, offset: int)
    requires adjStart <= adjEnd
    requires IsWeekday(adjStart, offset) && EndSnapped(adjEnd, offset)
    ensures SubtractWeekends(adjStart, adjEnd, offset)
         == CountWeekdaySeconds(adjStart, adjEnd, offset)
            + (if MissedWeekend(adjStart, adjEnd, offset) then WeekendDaysPerWeek * SecondsPerDay else 0)
  {
    SubtractWeekendsClosedForm(adjStart, adjEnd, offset);
    CountClosedForm(adjStart, adjEnd, offset);
  }

  lemma SubtractWeekendsClosedForm(adjStart: int, adjEnd: int, offset: int)
    requires adjStart <= adjEnd
    requires IsWeekday(adjStart, offset) && EndSnapped(adjEnd, offset)
    ensures SubtractWeekends(adjStart, adjEnd, offset)
         == WeekdaySecondsBefore(adjEnd, offset) - WeekdaySecondsBefore(adjStart, offset)
            + (if MissedWeekend(adjStart, adjEnd, offset) then WeekendDaysPerWeek * SecondsPerDay else 0)
  {
    SnappedClosedForm(adjStart, offset);
    SnappedClosedForm(adjEnd, offset);
    SnappedWeeks(adjStart, adjEnd, offset);
  }

  /** Between Monday 00:00 and Saturday 00:00 the closed-form count is linear
      in the week position. */
  lemma SnappedClosedForm(t: int, offset: int)
    requires EndSnapped(t, offset)
    ensures WeekdaySecondsBefore(t, offset)
         == WeekdaySecondsPerWeek * WeekNumber(t, offset) + WeekPosition(t, offset) - SecondsPerDay
    ensures WeekPosition(t, offset) == SecondsPerDay * (DayOfWeek(t, offset) - 1) + SecondOfDay(t, offset)
  {
    Decompose(t, offset);
  }

  /** The whole weeks of a snapped span, in week numbers and positions. */
  lemma SnappedWeeks(adjStart: int, adjEnd: int, offset: int)
    requires adjStart <= adjEnd
    ensures var wa, pa := WeekNumber(adjStart, offset), WeekPosition(adjStart, offset);
            var wb, pb := WeekNumber(adjEnd, offset), WeekPosition(adjEnd, offset);
            && adjEnd - adjStart == SecondsPerWeek * (wb - wa) + (pb - pa)
            && ((adjEnd - adjStart) / SecondsPerDay) / DaysPerWeek
               == if pa <= pb then wb - wa else wb - wa - 1
  {
    Decompose(adjStart, offset);
    Decompose(adjEnd, offset);
    var wa, pa := WeekNumber(adjStart, offset), WeekPosition(adjStart, offset);
    var wb, pb := WeekNumber(adjEnd, offset), WeekPosition(adjEnd, offset);
    var total := adjEnd - adjStart;
    var weeks := if pa <= pb then wb - wa else wb - wa - 1;
    WeeksOfSpan(total);
    DivModUnique(total, SecondsPerWeek, weeks, total - SecondsPerWeek * weeks);
  }

  /** The two local days starting at a Saturday 00:00 are weekend days. */
  lemma WeekendAfterSaturdayMidnight(s: int, u: int, offset: int)
    requires IsSaturdayMidnight(s, offset)
    requires s <= u < s + WeekendDaysPerWeek * SecondsPerDay
    ensures IsWeekend(u, offset)
  {
    Decompose(s, offset);
    var w := WeekNumber(s, offset);
    if u - s < SecondsPerDay {
      WeekOf(u, offset, w, 6 * SecondsPerDay + (u - s));
    } else {
      WeekOf(u, offset, w + 1, u - s - SecondsPerDay);
    }
  }

  /** Where `ConvertDate` lands, read off the week position `p` of `t`:
      Sunday (`p < 1 day`) and Saturday (`p >= 6 days`) move, weekdays stay. */
  lemma SnapPositions(t: int, offset: int)
    ensures var w, p := WeekNumber(t, offset), WeekPosition(t, offset);
            var a := ConvertDate(t, StartDate, offset);
            && (p < SecondsPerDay ==>
                  a == t + SecondsPerDay - p && WeekNumber(a, offset) == w)
            && (6 * SecondsPerDay <= p ==>
                  a == t + 8 * SecondsPerDay - p && WeekNumber(a, offset) == w + 1)
            && (SecondsPerDay <= p < 6 * SecondsPerDay ==> a == t)
            && (a != t ==> WeekPosition(a, offset) == SecondsPerDay)
    ensures var w, p := WeekNumber(t, offset), WeekPosition(t, offset);
            var b := ConvertDate(t, EndDate, offset);
            && (p < SecondsPerDay ==>
                  b == t - SecondsPerDay - p && WeekNumber(b, offset) == w - 1)
            && (6 * SecondsPerDay <= p ==>
                  b == t + 6 * SecondsPerDay - p && WeekNumber(b, offset) == w)
            && (SecondsPerDay <= p < 6 * SecondsPerDay ==> b == t)
            && (b != t || IsWeekend(t, offset) ==> WeekPosition(b, offset) == 6 * SecondsPerDay)
  {
    Decompose(t, offset);
    var a, b := ConvertDate(t, StartDate, offset), ConvertDate(t, EndDate, offset);
    Decompose(a, offset);
    Decompose(b, offset);
  }

  /** Snapping moves an end only across weekend seconds: no weekday second
      lies between an instant and its snapped start or snapped end. */
  lemma SnapSkipsOnlyWeekend(t: int, offset: int)
    ensures CountWeekdaySeconds(t, ConvertDate(t, StartDate, offset), offset) == 0
    ensures CountWeekdaySeconds(ConvertDate(t, EndDate, offset), t, offset) == 0
  {
    var a, b := ConvertDate(t, StartDate, offset), ConvertDate(t, EndDate, offset);
    SnapKeepsClosedForm(t, offset);
    CountClosedForm(t, a, offset);
    CountClosedForm(b, t, offset);
  }

  lemma SnapKeepsClosedForm(t: int, offset: int)
    ensures WeekdaySecondsBefore(ConvertDate(t, StartDate, offset), offset) == WeekdaySecondsBefore(t, offset)
    ensures WeekdaySecondsBefore(ConvertDate(t, EndDate, offset), offset) == WeekdaySecondsBefore(t, offset)
  {
    Decompose(t, offset);
    SnapPositions(t, offset);
  }

  /** The snapped start overtakes the snapped end exactly when both
      endpoints fall in one weekend; `calculate` then returns 0. */
  lemma SnapsCrossIffSameWeekend(st: int, end: int, offset: int)
    requires st <= end
    ensures ConvertDate(st, StartDate, offset) > ConvertDate(end, EndDate, offset) <==> SameWeekend(st, end, offset)
    ensures SameWeekend(st, end, offset) ==> Calculate(st, end, offset) == 0
  {
    var a, b := ConvertDate(st, StartDate, offset), ConvertDate(end, EndDate, offset);
    if a > b {
      SnapsCrossOnlyInWeekend(st, end, offset);
    } else if SameWeekend(st, end, offset) {
      Decompose(a, offset);
      Decompose(b, offset);
    }
  }

  lemma SnapsCrossOnlyInWeekend(st: int, end: int, offset: int)
    requires st <= end
    requires ConvertDate(st, StartDate, offset) > ConvertDate(end, EndDate, offset)
    ensures SameWeekend(st, end, offset)
  {
    var a, b := ConvertDate(st, StartDate, offset), ConvertDate(end, EndDate, offset);
    if IsWeekday(st, offset) {
      WeekendAfterSaturdayMidnight(b, st, offset);
      assert false;
    } else if IsWeekday(end, offset) {
      DayOfWeekAfterDays(a, offset, -2);
      WeekendAfterSaturdayMidnight(a - 2 * SecondsPerDay, end, offset);
      assert false;
    } else {
      Decompose(a, offset);
      Decompose(b, offset);
      var wa, wb := WeekNumber(a, offset), WeekNumber(b, offset);
      assert a - b == SecondsPerWeek * (wa - wb) - 5 * SecondsPerDay;
      assert wa - wb == 1;
    }
  }

  /** All instants of one weekend snap to the same Monday 00:00 as a start
      and to the same Saturday 00:00 as an end. */
  lemma SameWeekendSnapsAlike(t: int, u: int, offset: int)
    requires SameWeekend(t, u, offset)
    ensures ConvertDate(t, StartDate, offset) == ConvertDate(u, StartDate, offset)
    ensures ConvertDate(t, EndDate, offset) == ConvertDate(u, EndDate, offset)
  {
    var at, au := ConvertDate(t, StartDate, offset), ConvertDate(u, StartDate, offset);
    assert at == au by {
      Decompose(at, offset);
      Decompose(au, offset);
      assert at - au == SecondsPerWeek * (WeekNumber(at, offset) - WeekNumber(au, offset));
    }
    var bt, bu := ConvertDate(t, EndDate, offset), ConvertDate(u, EndDate, offset);
    assert bt == bu by {
      Decompose(bt, offset);
      Decompose(bu, offset);
      assert bt - bu == SecondsPerWeek * (WeekNumber(bt, offset) - WeekNumber(bu, offset));
    }
  }

  /** What `calculate` computes, against the exact count of weekday seconds
      in `[st, end)`: the two agree, except that `calculate` returns two days
      too many when the end is on the same weekday as the start but at an
      earlier time of day. */
  lemma CalculateAgainstCount(st: int, end: int, offset: int)
    requires st <= end
    ensures Calculate(st, end, offset)
         == CountWeekdaySeconds(st, end, offset)
            + (if MissedWeekend(st, end, offset) then WeekendDaysPerWeek * SecondsPerDay else 0)
  {
    var a, b := ConvertDate(st, StartDate, offset), ConvertDate(end, EndDate, offset);
    SnapSkipsOnlyWeekend(st, offset);
    SnapSkipsOnlyWeekend(end, offset);
    CountClosedForm(st, a, offset);
    CountClosedForm(b, end, offset);
    CountClosedForm(st, end, offset);
    if a > b {
      WeekdaySecondsBeforeMonotone(b, a, offset);
    } else {
      SubtractWeekendsCount(a, b, offset);
      CountClosedForm(a, b, offset);
      Decompose(a, offset);
      Decompose(b, offset);
    }
  }

  /** `calculate` never undercounts, and it is exact precisely when the
      interval is not a `MissedWeekend` one. */
  lemma CalculateExactIff(st: int, end: int, offset: int)
    requires st <= end
    ensures CountWeekdaySeconds(st, end, offset) <= Calculate(st, end, offset)
    ensures Calculate(st, end, offset) == CountWeekdaySeconds(st, end, offset) <==> !MissedWeekend(st, end, offset)
  {
    CalculateAgainstCount(st, end, offset);
  }

  /** An interval of whole weeks starting on a weekday yields five days per
      week. */
  lemma WholeWeeks(st: int, k: nat, offset: int)
    requires IsWeekday(st, offset)
    ensures Calculate(st, st + SecondsPerWeek * k, offset) == 5 * SecondsPerDay * k
  {
    var end := st + SecondsPerWeek * k;
    Decompose(st, offset);
    WeekOf(end, offset, WeekNumber(st, offset) + k, WeekPosition(st, offset));
    assert ConvertDate(st, StartDate, offset) == st;
    assert ConvertDate(end, EndDate, offset) == end;
    assert (SecondsPerWeek * k / SecondsPerDay) / DaysPerWeek == k by {
      WeeksOfSpan(SecondsPerWeek * k);
      DivModUnique(SecondsPerWeek * k, SecondsPerWeek, k, 0);
    }
    assert SubtractWeekends(st, end, offset) == SecondsPerWeek * k - SecondsPerDay * WeekendDaysPerWeek * k;
  }

  /** A zero-width interval holds no weekday seconds, wherever it lies. */
  lemma ZeroWidth(t: int, offset: int)
    ensures Calculate(t, t, offset) == 0
  {
  }

  /** Friday 1970-01-02 23:00 UTC to Friday 1970-01-09 22:00 UTC: the
      weekend in between is not subtracted. */
  lemma MissedWeekendExample()
    ensures MissedWeekend(169200, 770400, 0)
    ensures Calculate(169200, 770400, 0) == 601200
    ensures CountWeekdaySeconds(169200, 770400, 0) == 428400
  {
    WeekOf(169200, 0, 0, 5 * SecondsPerDay + 82800);
    WeekOf(770400, 0, 1, 5 * SecondsPerDay + 79200);
    assert ConvertDate(169200, StartDate, 0) == 169200;
    assert ConvertDate(770400, EndDate, 0) == 770400;
    assert SubtractWeekends(169200, 770400, 0) == 601200;
    CalculateAgainstCount(169200, 770400, 0);
  }

  /** The example of the function's documentation (both instants on Thursday
      2016-01-07, in UTC and in UTC+8). */
  lemma DocumentedExample()
    ensures Evaluate(Some(1452149997), Some(1452150015), 0) == Some(18)
    ensures Evaluate(Some(1452149997), Some(1452150015), 8 * 3600) == Some(18)
  {
  }
}
