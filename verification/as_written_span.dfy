/** `calculate` with Java's 32-bit `int` arithmetic kept.

    The Java code computes the number of days as `(int) totalPeriodTs / 86400`:
    the cast binds tighter than the division, so the span in seconds is
    narrowed to 32 bits before it is divided, and `/` truncates toward zero.
    A snapped span of 2^31 seconds (about 68 years) or more wraps around and
    the week count goes wrong. `AccWeekdays.Calculate` uses unbounded
    arithmetic; this module keeps the narrowing and shows where the two part.
 */
module AsWrittenSpan {
  import opened Calendar
  import opened AccWeekdays

  const IntMin: int := -0x8000_0000
  const IntMax: int := 0x7fff_ffff
  const IntModulus: int := 0x1_0000_0000

  /** Java's narrowing conversion from `long` to `int`: keep the low 32 bits
      as a two's-complement value. */
  function ToInt(x: int): (r: int)
    ensures IntMin <= r <= IntMax
    ensures (x - r) % IntModulus == 0
    ensures IntMin <= x <= IntMax ==> r == x
  {
    (x - IntMin) % IntModulus + IntMin
  }

  /** Java's integer division for a positive divisor: the quotient is
      rounded toward zero, so `q * b` never lies beyond `a` on the far side
      of zero and misses it by less than one divisor. */
  function JavaDiv(a: int, b: int): (q: int)
    requires 0 < b
    ensures 0 <= a ==> 0 <= q * b <= a < q * b + b
    ensures a < 0 ==> q * b - b < a <= q * b <= 0
  {
    if a >= 0 then
      FloorDivBounds(a, b);
      a / b
    else
      FloorDivBounds(-a, b);
      assert (-((-a) / b)) * b == -(((-a) / b) * b);
      -((-a) / b)
  }

  /** For a non-negative dividend, floor and truncation agree: the
      quotient times the divisor lies within one divisor below it. */
  lemma FloorDivBounds(a: int, b: int)
    requires 0 <= a && 0 < b
    ensures 0 <= (a / b) * b <= a < (a / b) * b + b
  {
    var q, r := a / b, a % b;
    assert a == b * q + r;
    NonNegProduct(q, b);
  }

  /** Lines 73-88 of `calculate` with the `(int)` cast and Java division.
      On snapped ends whose span fits in an `int` it is the unbounded
      subtraction. */
  function SubtractWeekendsAsWritten(adjStart: int, adjEnd: int, offset: int): (r: int)
    ensures (0 <= adjEnd - adjStart <= IntMax && IsWeekday(adjStart, offset) && EndSnapped(adjEnd, offset))
              ==> r == SubtractWeekends(adjStart, adjEnd, offset)
  {
    var totalPeriod := adjEnd - adjStart;
    var days := JavaDiv(ToInt(totalPeriod), SecondsPerDay);
    var weeks := JavaDiv(days, DaysPerWeek);
    if DayOfWeek(adjStart, offset) <= DayOfWeek(adjEnd, offset) then
      totalPeriod - SecondsPerDay * WeekendDaysPerWeek * weeks
    else
      totalPeriod - SecondsPerDay * (weeks + 1) * WeekendDaysPerWeek
  }

  /** Lines 47-89 of `calculate` as written. Below 2^31 seconds the
      narrowing is harmless: it agrees with the unbounded model. */
  function CalculateAsWritten(st: int, end: int, offset: int): (r: int)
    requires st <= end
    ensures end - st <= IntMax ==> r == Calculate(st, end, offset)
  {
    var adjStart := ConvertDate(st, StartDate, offset);
    var adjEnd := ConvertDate(end, EndDate, offset);
    if adjStart > adjEnd then 0 else SubtractWeekendsAsWritten(adjStart, adjEnd, offset)
  }

  /** 1970-01-01 00:00 UTC (a Thursday) to 2038-01-19 03:14:08 UTC (a
      Tuesday): the span is exactly 2^31 seconds, narrows to -2^31, and the
      code as written reports more weekday seconds than the whole span. */
  lemma OverflowExample()
    ensures CalculateAsWritten(0, 0x8000_0000, 0) == 2760750848
    ensures CalculateAsWritten(0, 0x8000_0000, 0) > 0x8000_0000 - 0
    ensures Calculate(0, 0x8000_0000, 0) == 1533870848
  {
    OverflowAsWritten();
    OverflowCorrected();
  }

  lemma OverflowAsWritten()
    ensures CalculateAsWritten(0, 0x8000_0000, 0) == 2760750848
  {
    OverflowEndpoints();
    OverflowAsWrittenSpan();
  }

  lemma OverflowAsWrittenSpan()
    ensures SubtractWeekendsAsWritten(0, 0x8000_0000, 0) == 2760750848
  {
    OverflowEndpoints();
    NarrowedWeeks();
  }

  /** 2^31 narrows to -2^31, which is -24855 days and -3550 weeks. */
  lemma NarrowedWeeks()
    ensures JavaDiv(JavaDiv(ToInt(0x8000_0000), SecondsPerDay), DaysPerWeek) == -3550
  {
    DivModUnique(0x8000_0000 - IntMin, IntModulus, 1, 0);
    DivModUnique(-IntMin, SecondsPerDay, 24855, 11648);
    DivModUnique(24855, DaysPerWeek, 3550, 5);
  }

  lemma OverflowCorrected()
    ensures Calculate(0, 0x8000_0000, 0) == 1533870848
  {
    OverflowEndpoints();
    OverflowCorrectedSpan();
  }

  lemma OverflowCorrectedSpan()
    ensures SubtractWeekends(0, 0x8000_0000, 0) == 1533870848
  {
    OverflowEndpoints();
    UnboundedWeeks();
  }

  /** 2^31 seconds are 24855 whole days and 3550 whole weeks. */
  lemma UnboundedWeeks()
    ensures (0x8000_0000 / SecondsPerDay) / DaysPerWeek == 3550
  {
    DivModUnique(0x8000_0000, SecondsPerDay, 24855, 11648);
    DivModUnique(24855, DaysPerWeek, 3550, 5);
  }

  /** Both ends of the example are weekday instants, Thursday and Tuesday. */
  lemma OverflowEndpoints()
    ensures DayOfWeek(0, 0) == 5 && DayOfWeek(0x8000_0000, 0) == 3
    ensures ConvertDate(0, StartDate, 0) == 0
    ensures ConvertDate(0x8000_0000, EndDate, 0) == 0x8000_0000
  {
    WeekOf(0, 0, 0, 4 * SecondsPerDay);
    WeekOf(0x8000_0000, 0, 3551, 184448);
  }
}
