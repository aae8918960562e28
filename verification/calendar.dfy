/**
 * The calendar page: the week and month grids, the mini calendar, the ranges
 * that a drag selects (whole days in the month view, hours in the week view),
 * and the page state that the mouse handlers, the navigation buttons and the
 * start/end date inputs change.
 */
module Calendar {
  import opened Options
  import opened CivilDate
  import opened Seqs
  import opened DateGrid
  import opened CellStyle

  datatype ViewMode = Week | Month

  /** A cell of the week view: a day and an hour of it. */
  datatype TimeSlot = TimeSlot(date: int, hour: int)

  /** `new Date(slot.date).setHours(slot.hour, 0, 0, 0)`, counted in whole hours from day 0. */
  function Instant(s: TimeSlot): int {
    s.date * 24 + s.hour
  }

  /** The slot the range loop builds for an instant: its day and `getHours()`. */
  function SlotAt(t: int): (s: TimeSlot)
    ensures Instant(s) == t && 0 <= s.hour < 24
  {
    TimeSlot(t / 24, t % 24)
  }

  predicate ValidSlot(s: TimeSlot) {
    0 <= s.hour < 24
  }

  /** A slot with an hour of the day is the slot of its own instant. */
  lemma SlotAtInstant(s: TimeSlot)
    requires ValidSlot(s)
    ensures SlotAt(Instant(s)) == s
  {
    var t := Instant(s);
    assert t == 24 * s.date + s.hour;
    DivMod24(s.date, s.hour);
  }

  lemma DivMod24(q: int, r: int)
    requires 0 <= r < 24
    ensures (24 * q + r) / 24 == q && (24 * q + r) % 24 == r
  {
  }

  function Min(a: int, b: int): int {
    if a <= b then a else b
  }

  function Max(a: int, b: int): int {
    if a <= b then b else a
  }

  // ---------------------------------------------------------------------
  // Grids
  // ---------------------------------------------------------------------

  /** The Sunday on or before a day. */
  function WeekStart(date: int): int {
    date - Weekday(date)
  }

  /** The week view: seven days from the Sunday of the reference day's week. */
  method WeekDays(date: int) returns (days: seq<int>)
    ensures days == Span(WeekStart(date), WeekStart(date) + 6)
    ensures |days| == 7 && Consecutive(days)
    ensures Weekday(days[0]) == 0 && Weekday(days[6]) == 6
    ensures date in days
  {
    var start := date - Weekday(date);
    days := ConsecutiveDays(start, 7);
    SundayWeek(date, start);
  }

  /** The seven days from the Sunday on or before a day run Sunday to Saturday and hold that day. */
  lemma SundayWeek(date: int, start: int)
    requires start == date - Weekday(date)
    ensures var days := Span(start, start + 6);
      |days| == 7 && Consecutive(days) && Weekday(days[0]) == 0 && Weekday(days[6]) == 6 && date in days
  {
    SpanAt(start, start + 6);
    SundayOnOrBefore(date);
    WeekdayShift(start, 6);
    SpanMember(start, start + 6, date);
  }

  /**
   * The mini calendar: six weeks (42 days) from the Sunday on or before the
   * first of the shown month, which always hold the whole month
   * (`SixWeeksHoldMonth`).
   */
  method MiniCalendarDays(date: int) returns (days: seq<int>)
    ensures days == SixWeeks(ToCivil(date).year, ToCivil(date).month)
  {
    var c := ToCivil(date);
    days := MonthSixWeeks(c.year, c.month);
  }

  /** The mini calendar's loop for the month `month` of `year`: 42 days from the Sunday on or before the first. */
  method MonthSixWeeks(year: int, month: int) returns (days: seq<int>)
    ensures days == SixWeeks(year, month)
  {
    var firstDay := MakeDay(year, month, 1);
    var start := firstDay - Weekday(firstDay);
    days := ConsecutiveDays(start, 42);
  }

  // ---------------------------------------------------------------------
  // Ranges
  // ---------------------------------------------------------------------

  /** The days from the earlier of two days to the later, both included. */
  function DayRange(a: int, b: int): seq<int> {
    Span(Min(a, b), Max(a, b))
  }

  /**
   * The range does not depend on the order of its endpoints, runs from the
   * earlier to the later one a day at a time, and holds exactly the days
   * between them.
   */
  lemma DayRangeFacts(a: int, b: int)
    ensures DayRange(a, b) == DayRange(b, a)
    ensures |DayRange(a, b)| == Max(a, b) - Min(a, b) + 1
    ensures DayRange(a, b)[0] == Min(a, b) && DayRange(a, b)[|DayRange(a, b)| - 1] == Max(a, b)
    ensures Consecutive(DayRange(a, b))
    ensures forall d :: d in DayRange(a, b) <==> Min(a, b) <= d <= Max(a, b)
    ensures DayRange(a, a) == [a]
  {
    SpanAt(Min(a, b), Max(a, b));
    SpanAt(a, a);
    forall d
      ensures d in DayRange(a, b) <==> Min(a, b) <= d <= Max(a, b)
    {
      SpanMember(Min(a, b), Max(a, b), d);
    }
  }

  /** `getDateRange(start, end)`: a cursor walks from the earlier day to the later one. */
  method DateRange(start: int, end: int) returns (dates: seq<int>)
    ensures dates == DayRange(start, end)
    ensures |dates| == Max(start, end) - Min(start, end) + 1 && Consecutive(dates)
    ensures dates[0] == Min(start, end) && dates[|dates| - 1] == Max(start, end)
  {
    var minTime := Min(start, end);
    var maxTime := Max(start, end);
    dates := [];
    var current := minTime;
    while current <= maxTime
      invariant minTime <= current <= maxTime + 1
      invariant dates == Span(minTime, current - 1)
      decreases maxTime - current
    {
      SpanSnoc(minTime, current - 1);
      dates := dates + [current];
      current := current + 1;
    }
    DayRangeFacts(start, end);
  }

  /** The slots of the instants lo, lo + 1, ..., hi. */
  function SlotSpan(lo: int, hi: int): (r: seq<TimeSlot>)
    requires lo <= hi + 1
    ensures |r| == hi - lo + 1 && forall i :: 0 <= i < |r| ==> r[i] == SlotAt(lo + i)
  {
    seq(hi - lo + 1, i => SlotAt(lo + i))
  }

  /** The slots from the earlier of two slots to the later, an hour apart. */
  function SlotRange(a: TimeSlot, b: TimeSlot): seq<TimeSlot> {
    SlotSpan(Min(Instant(a), Instant(b)), Max(Instant(a), Instant(b)))
  }

  /** Each slot of a run is one hour after the one before. */
  predicate HourlyRun(slots: seq<TimeSlot>) {
    forall i :: 0 < i < |slots| ==> Instant(slots[i]) == Instant(slots[i - 1]) + 1
  }

  /**
   * The slot range is symmetric in its endpoints, steps by one hour, has one
   * slot per hour between them, and starts and ends at the given slots.
   */
  lemma SlotRangeFacts(a: TimeSlot, b: TimeSlot)
    ensures SlotRange(a, b) == SlotRange(b, a)
    ensures |SlotRange(a, b)| == Max(Instant(a), Instant(b)) - Min(Instant(a), Instant(b)) + 1
    ensures forall i :: 0 <= i < |SlotRange(a, b)| ==> Instant(SlotRange(a, b)[i]) == Min(Instant(a), Instant(b)) + i
    ensures HourlyRun(SlotRange(a, b))
    ensures ValidSlot(a) && ValidSlot(b) && Instant(a) <= Instant(b) ==>
      SlotRange(a, b)[0] == a && SlotRange(a, b)[|SlotRange(a, b)| - 1] == b
  {
    if ValidSlot(a) && ValidSlot(b) && Instant(a) <= Instant(b) {
      SlotAtInstant(a);
      SlotAtInstant(b);
    }
  }

  /** `getTimeSlotRange(start, end)`: a cursor walks hour by hour from the earlier instant to the later. */
  method TimeSlotRange(start: TimeSlot, end: TimeSlot) returns (slots: seq<TimeSlot>)
    ensures slots == SlotRange(start, end)
    ensures |slots| == Max(Instant(start), Instant(end)) - Min(Instant(start), Instant(end)) + 1
    ensures HourlyRun(slots)
  {
    var startTime := Instant(start);
    var endTime := Instant(end);
    var minTime := Min(startTime, endTime);
    var maxTime := Max(startTime, endTime);
    slots := [];
    var current := minTime;
    while current <= maxTime
      invariant minTime <= current <= maxTime + 1
      invariant slots == SlotSpan(minTime, current - 1)
      decreases maxTime - current
    {
      slots := slots + [SlotAt(current)];
      current := current + 1;
    }
    SlotRangeFacts(start, end);
  }

  // ---------------------------------------------------------------------
  // Comparisons and selection tests
  // ---------------------------------------------------------------------

  /** `isSameDay`: equal day of month, month and year. */
  predicate IsSameDay(a: int, b: int) {
    ToCivil(a).day == ToCivil(b).day && ToCivil(a).month == ToCivil(b).month && ToCivil(a).year == ToCivil(b).year
  }

  /** Comparing the three date fields is the same as comparing the days. */
  lemma IsSameDayIff(a: int, b: int)
    ensures IsSameDay(a, b) <==> a == b
  {
    if IsSameDay(a, b) {
      assert ToCivil(a) == ToCivil(b);
    }
  }

  /** `isSameTimeSlot`: the same day and the same hour. */
  predicate IsSameTimeSlot(s: TimeSlot, t: TimeSlot) {
    IsSameDay(s.date, t.date) && s.hour == t.hour
  }

  lemma IsSameTimeSlotIff(s: TimeSlot, t: TimeSlot)
    ensures IsSameTimeSlot(s, t) <==> s == t
    ensures ValidSlot(s) && ValidSlot(t) ==> (IsSameTimeSlot(s, t) <==> Instant(s) == Instant(t))
  {
    IsSameDayIff(s.date, t.date);
    if ValidSlot(s) && ValidSlot(t) && Instant(s) == Instant(t) {
      SlotAtInstant(s);
      SlotAtInstant(t);
    }
  }

  /** `isDateSelected`: some selected day is the same day. */
  predicate IsDateSelected(selected: seq<int>, d: int) {
    exists i :: 0 <= i < |selected| && IsSameDay(selected[i], d)
  }

  lemma IsDateSelectedIff(selected: seq<int>, d: int)
    ensures IsDateSelected(selected, d) <==> d in selected
  {
    if d in selected {
      var i :| 0 <= i < |selected| && selected[i] == d;
      IsSameDayIff(selected[i], d);
    }
    if IsDateSelected(selected, d) {
      var i :| 0 <= i < |selected| && IsSameDay(selected[i], d);
      IsSameDayIff(selected[i], d);
    }
  }

  /** `isTimeSlotSelected`: some selected slot is the same slot. */
  predicate IsTimeSlotSelected(selected: seq<TimeSlot>, s: TimeSlot) {
    exists i :: 0 <= i < |selected| && IsSameTimeSlot(selected[i], s)
  }

  lemma IsTimeSlotSelectedIff(selected: seq<TimeSlot>, s: TimeSlot)
    ensures IsTimeSlotSelected(selected, s) <==> s in selected
  {
    if s in selected {
      var i :| 0 <= i < |selected| && selected[i] == s;
      IsSameTimeSlotIff(selected[i], s);
    }
    if IsTimeSlotSelected(selected, s) {
      var i :| 0 <= i < |selected| && IsSameTimeSlot(selected[i], s);
      IsSameTimeSlotIff(selected[i], s);
    }
  }

  /** After a drag from a to b, exactly the days between them test as selected. */
  lemma DraggedDaysSelected(a: int, b: int, d: int)
    ensures IsDateSelected(DayRange(a, b), d) <==> Min(a, b) <= d <= Max(a, b)
  {
    IsDateSelectedIff(DayRange(a, b), d);
    DayRangeFacts(a, b);
  }

  /** `isCurrentMonth`: every day of the week view counts; in the month view the month index must match. */
  predicate IsCurrentMonth(mode: ViewMode, shown: int, d: int) {
    mode == Week || InShownMonth(shown, d)
  }

  /** In the month view, a grid cell counts as the current month exactly when it lies in the shown month. */
  lemma MonthViewCurrentMonth(shown: int, d: int)
    requires d in MonthGridDays(ToCivil(shown).year, ToCivil(shown).month)
    ensures IsCurrentMonth(Month, shown, d) <==>
      FirstDay(ToCivil(shown).year, ToCivil(shown).month) <= d <= LastDay(ToCivil(shown).year, ToCivil(shown).month)
  {
    ShownMonthCells(shown, d);
  }

  /** The mini calendar's highlight: today first, then a selected day, then in-month shading. */
  function MiniCellStyles(today: int, selected: seq<int>, shown: int, d: int): (r: set<Style>)
    ensures |r| == 1
    ensures TodayStyle in r <==> d == today
    ensures SelectedStyle in r <==> d != today && d in selected
    ensures InMonthStyle in r <==> d != today && d !in selected && InShownMonth(shown, d)
    ensures OutOfMonthStyle in r <==> d != today && d !in selected && !InShownMonth(shown, d)
  {
    IsSameDayIff(d, today);
    IsDateSelectedIff(selected, d);
    AppliedStyles(IsSameDay(d, today), IsDateSelected(selected, d), InShownMonth(shown, d))
  }

  // ---------------------------------------------------------------------
  // Navigation
  // ---------------------------------------------------------------------

  /**
   * The reference day after a previous/next click: seven days back or forward
   * in the week view, `new Date(year, month -/+ 1)` (the first of the adjacent
   * month) in the month view.
   */
  function Navigated(mode: ViewMode, date: int, forward: bool): int {
    if mode == Week then (if forward then date + 7 else date - 7)
    else ShiftMonth(date, if forward then 1 else -1)
  }

  /**
   * Next then previous returns to the same day in the week view, and to the
   * first of the same month in the month view.
   */
  lemma NavigateRoundTrip(mode: ViewMode, date: int)
    ensures Navigated(mode, Navigated(mode, date, true), false) ==
      if mode == Week then date else FirstDay(ToCivil(date).year, ToCivil(date).month)
  {
    ShiftMonthRoundTrip(date);
  }

  // ---------------------------------------------------------------------
  // Page state
  // ---------------------------------------------------------------------

  /** All the state the page's handlers read and write, as one value. */
  datatype CalendarState = CalendarState(
    currentDate: int,
    selectedDates: seq<int>,
    isDragging: bool,
    dragStartDate: Option<int>,
    miniCalendarDate: int,
    viewMode: ViewMode,
    selectedTimeSlots: seq<TimeSlot>,
    dragStartTimeSlot: Option<TimeSlot>)

  class CalendarPage {
    var currentDate: int
    var selectedDates: seq<int>
    var isDragging: bool
    var dragStartDate: Option<int>
    var miniCalendarDate: int
    var viewMode: ViewMode
    var selectedTimeSlots: seq<TimeSlot>
    var dragStartTimeSlot: Option<TimeSlot>

    function State(): CalendarState
      reads this
    {
      CalendarState(currentDate, selectedDates, isDragging, dragStartDate,
                    miniCalendarDate, viewMode, selectedTimeSlots, dragStartTimeSlot)
    }

    /** Every selection the handlers make is one unbroken run of days, and of hours. */
    ghost predicate Valid()
      reads this
    {
      Consecutive(selectedDates) && HourlyRun(selectedTimeSlots)
    }

    /** The page as it opens on day `today`: month view, nothing selected. */
    constructor(today: int)
      ensures State() == CalendarState(today, [], false, None, today, Month, [], None)
      ensures Valid()
    {
      currentDate := today;
      selectedDates := [];
      isDragging := false;
      dragStartDate := None;
      miniCalendarDate := today;
      viewMode := Month;
      selectedTimeSlots := [];
      dragStartTimeSlot := None;
    }

    /** `getCalendarDays(currentDate)`: the week or the month grid, by view mode. */
    method CalendarDays() returns (days: seq<int>)
      ensures viewMode == Week ==> days == Span(WeekStart(currentDate), WeekStart(currentDate) + 6)
      ensures viewMode == Month ==> days == MonthGridDays(ToCivil(currentDate).year, ToCivil(currentDate).month)
      ensures currentDate in days
    {
      if viewMode == Week {
        days := WeekDays(currentDate);
      } else {
        var c := ToCivil(currentDate);
        days := MonthGrid(c.year, c.month);
        ShownDayInGrid(currentDate);
      }
    }

    method SetViewMode(mode: ViewMode)
      requires Valid()
      modifies this
      ensures State() == old(State()).(viewMode := mode)
      ensures Valid()
    {
      viewMode := mode;
    }

    /** `handleMouseDown`: start a drag anchored at the day, selecting just that day. */
    method MouseDown(date: int)
      requires Valid()
      modifies this
      ensures State() == old(State()).(isDragging := true, dragStartDate := Some(date), selectedDates := [date])
      ensures Valid()
    {
      isDragging := true;
      dragStartDate := Some(date);
      selectedDates := [date];
    }

    /** `handleMouseEnter`: while dragging, select the days from the anchor to this one. */
    method MouseEnter(date: int)
      requires Valid()
      modifies this
      ensures old(isDragging && dragStartDate.Some?) ==>
        State() == old(State()).(selectedDates := DayRange(old(dragStartDate).value, date))
      ensures !old(isDragging && dragStartDate.Some?) ==> State() == old(State())
      ensures Valid()
    {
      if isDragging && dragStartDate.Some? {
        var range := DateRange(dragStartDate.value, date);
        selectedDates := range;
      }
    }

    /** `handleMouseUp`: the drag ends and the selection stays. */
    method MouseUp()
      requires Valid()
      modifies this
      ensures State() == old(State()).(isDragging := false)
      ensures Valid()
    {
      isDragging := false;
    }

    /** `handleTimeSlotMouseDown`: start a drag in the week view, selecting just that hour. */
    method TimeSlotMouseDown(slot: TimeSlot)
      requires Valid()
      modifies this
      ensures State() == old(State()).(isDragging := true, dragStartTimeSlot := Some(slot), selectedTimeSlots := [slot])
      ensures Valid()
    {
      isDragging := true;
      dragStartTimeSlot := Some(slot);
      selectedTimeSlots := [slot];
    }

    /** `handleTimeSlotMouseEnter`: while dragging, select the hours from the anchor slot to this one. */
    method TimeSlotMouseEnter(slot: TimeSlot)
      requires Valid()
      modifies this
      ensures old(isDragging && dragStartTimeSlot.Some?) ==>
        State() == old(State()).(selectedTimeSlots := SlotRange(old(dragStartTimeSlot).value, slot))
      ensures !old(isDragging && dragStartTimeSlot.Some?) ==> State() == old(State())
      ensures Valid()
    {
      if isDragging && dragStartTimeSlot.Some? {
        var range := TimeSlotRange(dragStartTimeSlot.value, slot);
        selectedTimeSlots := range;
      }
    }

    /** `handleTimeSlotMouseUp`: the same flag as the day drag is cleared. */
    method TimeSlotMouseUp()
      requires Valid()
      modifies this
      ensures State() == old(State()).(isDragging := false)
      ensures Valid()
    {
      isDragging := false;
    }

    /** `navigatePrevious`. */
    method NavigatePrevious()
      requires Valid()
      modifies this
      ensures State() == old(State()).(currentDate := Navigated(old(viewMode), old(currentDate), false))
      ensures Valid()
    {
      if viewMode == Week {
        currentDate := currentDate - 7;
      } else {
        var c := ToCivil(currentDate);
        currentDate := MakeDay(c.year, c.month - 1, 1);
      }
    }

    /** `navigateNext`. */
    method NavigateNext()
      requires Valid()
      modifies this
      ensures State() == old(State()).(currentDate := Navigated(old(viewMode), old(currentDate), true))
      ensures Valid()
    {
      if viewMode == Week {
        currentDate := currentDate + 7;
      } else {
        var c := ToCivil(currentDate);
        currentDate := MakeDay(c.year, c.month + 1, 1);
      }
    }

    /** `goToToday`: show, select and mini-show today. */
    method GoToToday(today: int)
      requires Valid()
      modifies this
      ensures State() == old(State()).(currentDate := today, selectedDates := [today], miniCalendarDate := today)
      ensures Valid()
    {
      currentDate := today;
      selectedDates := [today];
      miniCalendarDate := today;
    }

    /**
     * `handleStartDateChange`: `None` is the empty input, which changes
     * nothing; otherwise the selection runs from the new day to the last
     * selected day, or is the new day alone when nothing was selected.
     */
    method StartDateChange(input: Option<int>)
      requires Valid()
      modifies this
      ensures input.None? ==> State() == old(State())
      ensures input.Some? ==> State() == old(State()).(selectedDates :=
        if |old(selectedDates)| > 0 then DayRange(input.value, old(selectedDates)[|old(selectedDates)| - 1])
        else [input.value])
      ensures Valid()
    {
      if input.None? {
        return;
      }
      var newStartDate := input.value;
      var endDate := if |selectedDates| > 0 then selectedDates[|selectedDates| - 1] else newStartDate;
      var range := DateRange(newStartDate, endDate);
      DayRangeFacts(newStartDate, newStartDate);
      selectedDates := range;
    }

    /**
     * `handleEndDateChange`: the selection runs from the first selected day
     * to the new day, or is the new day alone when nothing was selected.
     */
    method EndDateChange(input: Option<int>)
      requires Valid()
      modifies this
      ensures input.None? ==> State() == old(State())
      ensures input.Some? ==> State() == old(State()).(selectedDates :=
        if |old(selectedDates)| > 0 then DayRange(old(selectedDates)[0], input.value)
        else [input.value])
      ensures Valid()
    {
      if input.None? {
        return;
      }
      var newEndDate := input.value;
      var startDate := if |selectedDates| > 0 then selectedDates[0] else newEndDate;
      var range := DateRange(startDate, newEndDate);
      DayRangeFacts(newEndDate, newEndDate);
      selectedDates := range;
    }

    /** The mini calendar's `onDateClick`: select that day alone and show it. */
    method MiniDateClick(date: int)
      requires Valid()
      modifies this
      ensures State() == old(State()).(selectedDates := [date], currentDate := date)
      ensures Valid()
    {
      selectedDates := [date];
      currentDate := date;
    }

    /** The mini calendar's previous button: the first of the month before. */
    method MiniNavigatePrevious()
      requires Valid()
      modifies this
      ensures State() == old(State()).(miniCalendarDate := Navigated(Month, old(miniCalendarDate), false))
      ensures Valid()
    {
      var c := ToCivil(miniCalendarDate);
      miniCalendarDate := MakeDay(c.year, c.month - 1, 1);
    }

    /** The mini calendar's next button: the first of the month after. */
    method MiniNavigateNext()
      requires Valid()
      modifies this
      ensures State() == old(State()).(miniCalendarDate := Navigated(Month, old(miniCalendarDate), true))
      ensures Valid()
    {
      var c := ToCivil(miniCalendarDate);
      miniCalendarDate := MakeDay(c.year, c.month + 1, 1);
    }

    /**
     * The mini calendar's days for the month it shows: the six weeks from the
     * Sunday on or before its first, which hold the whole month.
     */
    method MiniDays() returns (days: seq<int>)
      ensures days == SixWeeks(ToCivil(miniCalendarDate).year, ToCivil(miniCalendarDate).month)
      ensures |days| == 42 && Consecutive(days) && Weekday(days[0]) == 0
      ensures MakeDay(ToCivil(miniCalendarDate).year, ToCivil(miniCalendarDate).month, 1) in days
      ensures var c := ToCivil(miniCalendarDate);
        forall d :: FirstDay(c.year, c.month) <= d <= LastDay(c.year, c.month) ==> d in days
    {
      days := MiniCalendarDays(miniCalendarDate);
      ghost var c := ToCivil(miniCalendarDate);
      SixWeeksHoldMonth(c.year, c.month);
      MonthBounds(c.year, c.month);
    }
  }

  /**
   * A whole drag on a fresh page: press on day a, move onto day b, release.
   * The selection is the days between a and b and the drag has ended.
   */
  method DragSelect(today: int, a: int, b: int) returns (selection: seq<int>, dragging: bool)
    ensures selection == DayRange(a, b) && !dragging
    ensures forall d :: IsDateSelected(selection, d) <==> Min(a, b) <= d <= Max(a, b)
  {
    var page := new CalendarPage(today);
    page.MouseDown(a);
    page.MouseEnter(b);
    page.MouseUp();
    selection, dragging := page.selectedDates, page.isDragging;
    forall d
      ensures IsDateSelected(selection, d) <==> Min(a, b) <= d <= Max(a, b)
    {
      DraggedDaysSelected(a, b, d);
    }
  }

  /** Moving the pointer without pressing first selects nothing. */
  method HoverWithoutPress(today: int, a: int) returns (selection: seq<int>)
    ensures selection == []
  {
    var page := new CalendarPage(today);
    page.MouseEnter(a);
    page.MouseUp();
    selection := page.selectedDates;
  }
}
