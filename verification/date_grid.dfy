/**
 * The Sunday-to-Saturday month grid that the calendar page (month view), the
 * dashboard and the journal calendar each build with the same loop: from the
 * Sunday on or before the first of the month to the Saturday on or after its
 * last day, one day at a time.
 */
module DateGrid {
  import opened CivilDate
  import opened Seqs

  /** `new Date(year, month, 1)`. */
  function FirstDay(year: int, month: int): int {
    MakeDay(year, month, 1)
  }

  /** `new Date(year, month + 1, 0)`: the last day of the month. */
  function LastDay(year: int, month: int): int {
    MakeDay(year, month + 1, 0)
  }

  /** The Sunday on or before the first of the month. */
  function GridStart(year: int, month: int): int {
    FirstDay(year, month) - Weekday(FirstDay(year, month))
  }

  /** The Saturday on or after the last day of the month. */
  function GridEnd(year: int, month: int): int {
    LastDay(year, month) + (6 - Weekday(LastDay(year, month)))
  }

  /** The days the grid shows, in order. */
  function MonthGridDays(year: int, month: int): seq<int> {
    Span(GridStart(year, month), GridEnd(year, month))
  }

  /** The month has between 28 and 31 days, from its first day to its last. */
  lemma MonthBounds(year: int, month: int)
    ensures 28 <= LastDay(year, month) - FirstDay(year, month) + 1 <= 31
  {
    MonthStep(year, month);
  }

  /**
   * The grid is whole weeks, Sunday first and Saturday last, between four and
   * six of them, and it shows every day of the month.
   */
  lemma MonthGridShape(year: int, month: int)
    ensures var days := MonthGridDays(year, month);
      && |days| % 7 == 0 && 28 <= |days| <= 42
      && Consecutive(days)
      && days[0] == GridStart(year, month) && days[|days| - 1] == GridEnd(year, month)
      && Weekday(days[0]) == 0 && Weekday(days[|days| - 1]) == 6
      && days[0] <= FirstDay(year, month) < days[0] + 7
      && days[|days| - 1] - 7 < LastDay(year, month) <= days[|days| - 1]
      && forall d :: FirstDay(year, month) <= d <= LastDay(year, month) ==> d in days
  {
    var first, last := FirstDay(year, month), LastDay(year, month);
    MonthBounds(year, month);
    SundayOnOrBefore(first);
    SundayOnOrBefore(last);
    WeeksAround(GridStart(year, month), first, last, GridEnd(year, month));
  }

  /**
   * The days from a Sunday to a Saturday, around a stretch of 28 to 31 days
   * that starts in the first week and ends in the last, are four to six whole
   * weeks holding the stretch.
   */
  lemma WeeksAround(start: int, first: int, last: int, end: int)
    requires Weekday(start) == 0 && Weekday(end) == 6
    requires start <= first < start + 7 && end - 7 < last <= end
    requires 28 <= last - first + 1 <= 31
    ensures var days := Span(start, end);
      && |days| % 7 == 0 && 28 <= |days| <= 42
      && Consecutive(days)
      && days[0] == start && days[|days| - 1] == end
      && Weekday(days[0]) == 0 && Weekday(days[|days| - 1]) == 6
      && days[0] <= first < days[0] + 7
      && days[|days| - 1] - 7 < last <= days[|days| - 1]
      && forall d :: first <= d <= last ==> d in days
  {
    WeeksBetween(start, end);
    SpanAt(start, end);
    var days := Span(start, end);
    forall d | first <= d <= last
      ensures d in days
    {
      assert days[d - start] == d;
    }
  }

  /** Six weeks (42 days) from the Sunday on or before the first of the month. */
  function SixWeeks(year: int, month: int): seq<int> {
    Span(GridStart(year, month), GridStart(year, month) + 41)
  }

  /** The six weeks of a month are the 42 days from its grid start. */
  lemma SixWeeksFrom(year: int, month: int, start: int)
    requires start == FirstDay(year, month) - Weekday(FirstDay(year, month))
    ensures SixWeeks(year, month) == Span(start, start + 41)
  {
  }

  /** Six weeks from the Sunday on or before the first always hold the whole month. */
  lemma SixWeeksHoldMonth(year: int, month: int)
    ensures var days := SixWeeks(year, month);
      && |days| == 42 && Consecutive(days) && days[0] == GridStart(year, month) && Weekday(days[0]) == 0
      && forall d :: FirstDay(year, month) <= d <= LastDay(year, month) ==> d in days
  {
    var first, last := FirstDay(year, month), LastDay(year, month);
    var start := GridStart(year, month);
    var days := SixWeeks(year, month);
    SpanAt(start, start + 41);
    SundayOnOrBefore(first);
    MonthBounds(year, month);
    forall d | first <= d <= last
      ensures d in days
    {
      assert days[d - start] == d;
    }
  }

  /** From a Sunday to a Saturday there are whole weeks. */
  lemma WeeksBetween(start: int, end: int)
    requires Weekday(start) == 0 && Weekday(end) == 6 && start <= end
    ensures (end - start + 1) % 7 == 0
  {
  }

  /**
   * The grid loop: a cursor starts at the Sunday on or before the first and is
   * pushed and advanced by one day while it is not past the closing Saturday.
   */
  method MonthGrid(year: int, month: int) returns (days: seq<int>)
    ensures days == MonthGridDays(year, month)
    ensures |days| % 7 == 0 && 28 <= |days| <= 42
    ensures Consecutive(days) && Weekday(days[0]) == 0 && Weekday(days[|days| - 1]) == 6
    ensures forall d :: FirstDay(year, month) <= d <= LastDay(year, month) ==> d in days
  {
    var first := MakeDay(year, month, 1);
    var last := MakeDay(year, month + 1, 0);
    var start := first - Weekday(first);
    var end := last + (6 - Weekday(last));
    MonthBounds(year, month);
    days := [];
    var current := start;
    while current <= end
      invariant start <= current <= end + 1
      invariant days == Span(start, current - 1)
      decreases end - current
    {
      SpanSnoc(start, current - 1);
      days := days + [current];
      current := current + 1;
    }
    MonthGridShape(year, month);
  }

  /**
   * The loop of the week view and of the mini calendar: a cursor starts at
   * `start` and is pushed and advanced by one day `count` times.
   */
  method ConsecutiveDays(start: int, count: nat) returns (days: seq<int>)
    ensures days == Span(start, start + count - 1) && |days| == count
  {
    days := [];
    var current := start;
    for i := 0 to count
      invariant current == start + i
      invariant days == Span(start, current - 1) && |days| == i
    {
      SpanSnoc(start, current - 1);
      days := days + [current];
      current := current + 1;
    }
  }

  /** In a month that needs no normalisation, the first and last days are plain offsets. */
  lemma MonthEnds(year: int, month: int)
    requires 0 <= month < 12
    ensures FirstDay(year, month) == MonthStart(year, month)
    ensures LastDay(year, month) == MonthStart(year, month + 1) - 1
  {
    MakeDayInYear(year, month, 1);
    MonthStep(year, month);
    DivMod12(year, month);
    MonthLength(year, month);
  }

  /**
   * A grid cell's month index (`getMonth()`) equals the displayed month exactly
   * when the cell lies between the first and the last day of that month: the
   * leading and trailing cells belong to the neighbouring months.
   */
  lemma CurrentMonthCells(year: int, month: int, d: int)
    requires 0 <= month < 12
    requires d in MonthGridDays(year, month)
    ensures ToCivil(d).month == month <==> FirstDay(year, month) <= d <= LastDay(year, month)
  {
    var first, last := FirstDay(year, month), LastDay(year, month);
    MonthEnds(year, month);
    SpanMember(GridStart(year, month), GridEnd(year, month), d);
    assert first - 7 < d < last + 7;
    MonthIndexNearMonth(year, month, d);
  }

  /** The shown day lies in its own month, so the month grid built for it contains it. */
  lemma ShownDayInGrid(n: int)
    ensures var c := ToCivil(n);
      FirstDay(c.year, c.month) <= n <= LastDay(c.year, c.month) && n in MonthGridDays(c.year, c.month)
  {
    var c := ToCivil(n);
    MakeDayInYear(c.year, c.month, c.day);
    MonthEnds(c.year, c.month);
    MonthLength(c.year, c.month);
    MonthGridShape(c.year, c.month);
  }

  /** `isCurrentMonth`: a day's month index (`getMonth()`) is that of the shown day. */
  predicate InShownMonth(shown: int, d: int) {
    ToCivil(d).month == ToCivil(shown).month
  }

  /** In the shown day's grid, a cell is in the shown month exactly when it lies between its first and last day. */
  lemma ShownMonthCells(shown: int, d: int)
    requires d in MonthGridDays(ToCivil(shown).year, ToCivil(shown).month)
    ensures InShownMonth(shown, d) <==>
      FirstDay(ToCivil(shown).year, ToCivil(shown).month) <= d <= LastDay(ToCivil(shown).year, ToCivil(shown).month)
  {
    CurrentMonthCells(ToCivil(shown).year, ToCivil(shown).month, d);
  }

  /**
   * The month navigation of the pages: `new Date(year, month + delta, 1)` for
   * the year and month of the shown day, i.e. the first of a month `delta`
   * months away.
   */
  function ShiftMonth(date: int, delta: int): int {
    MakeDay(ToCivil(date).year, ToCivil(date).month + delta, 1)
  }

  /** One step back or forward lands on the first of the adjacent month, rolling the year over. */
  lemma ShiftMonthAdjacent(date: int)
    ensures var c := ToCivil(date);
      && ToCivil(ShiftMonth(date, 1)) == (if c.month == 11 then Civil(c.year + 1, 0, 1) else Civil(c.year, c.month + 1, 1))
      && ToCivil(ShiftMonth(date, -1)) == (if c.month == 0 then Civil(c.year - 1, 11, 1) else Civil(c.year, c.month - 1, 1))
  {
    var c := ToCivil(date);
    NextMonthFirst(c.year, c.month);
    PreviousMonthFirst(c.year, c.month);
  }

  /** Forward then back, or back then forward, returns to the first of the month that was shown. */
  lemma ShiftMonthRoundTrip(date: int)
    ensures ShiftMonth(ShiftMonth(date, 1), -1) == FirstDay(ToCivil(date).year, ToCivil(date).month)
    ensures ShiftMonth(ShiftMonth(date, -1), 1) == FirstDay(ToCivil(date).year, ToCivil(date).month)
  {
    ForwardBack(date);
    BackForward(date);
  }

  lemma ForwardBack(date: int)
    ensures ShiftMonth(ShiftMonth(date, 1), -1) == FirstDay(ToCivil(date).year, ToCivil(date).month)
  {
    var c := ToCivil(date);
    ForwardBackFrom(c.year, c.month);
  }

  lemma ForwardBackFrom(y: int, m: int)
    requires 0 <= m < 12
    ensures ShiftMonth(MakeDay(y, m + 1, 1), -1) == MakeDay(y, m, 1)
  {
    var x := MakeDay(y, m + 1, 1);
    NextMonthFirst(y, m);
    if m == 11 {
      assert ShiftMonth(x, -1) == MakeDay(y + 1, -1, 1);
      MakeDayCarry(y);
    } else {
      assert ShiftMonth(x, -1) == MakeDay(y, m, 1);
    }
  }

  lemma BackForward(date: int)
    ensures ShiftMonth(ShiftMonth(date, -1), 1) == FirstDay(ToCivil(date).year, ToCivil(date).month)
  {
    var c := ToCivil(date);
    BackForwardFrom(c.year, c.month);
  }

  lemma BackForwardFrom(y: int, m: int)
    requires 0 <= m < 12
    ensures ShiftMonth(MakeDay(y, m - 1, 1), 1) == MakeDay(y, m, 1)
  {
    var x := MakeDay(y, m - 1, 1);
    PreviousMonthFirst(y, m);
    if m == 0 {
      assert ShiftMonth(x, 1) == MakeDay(y - 1, 12, 1);
      MakeDayBorrow(y);
    } else {
      assert ShiftMonth(x, 1) == MakeDay(y, m, 1);
    }
  }

  /** `new Date(y + 1, -1, 1)` is `new Date(y, 11, 1)`. */
  lemma MakeDayCarry(y: int)
    ensures MakeDay(y + 1, -1, 1) == MakeDay(y, 11, 1)
  {
    assert 12 * (y + 1) + -1 == 12 * y + 11;
  }

  /** `new Date(y - 1, 12, 1)` is `new Date(y, 0, 1)`. */
  lemma MakeDayBorrow(y: int)
    ensures MakeDay(y - 1, 12, 1) == MakeDay(y, 0, 1)
  {
    assert 12 * (y - 1) + 12 == 12 * y + 0;
  }
}
