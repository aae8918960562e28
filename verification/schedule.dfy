/**
 * The schedule page: its record of a task, the filter / sort / per-project pipeline
 * that feeds the list and board views, the date picker's 42-day grid, and the
 * page state that its handlers change.
 *
 * Times (`startTime`, `endTime`, `createdAt`) are the ISO strings of the
 * source read as milliseconds since 1970-01-01T00:00; "now", new ids and the
 * answer to the delete confirmation are parameters.
 */
module Schedule {
  import opened Options
  import opened CivilDate
  import opened Seqs
  import opened Text
  import opened DateGrid
  import opened CellStyle

  // ---------------------------------------------------------------------
  // Data
  // ---------------------------------------------------------------------

  datatype Status = Todo | InProgress | Done

  datatype Priority = High | Medium | Low

  /** `project?: string | null`: missing, `null` (general tasks), or a project id. */
  datatype ProjectField = Missing | General | Project(id: string)

  /** A task as the page holds it. */
  datatype Task = Task(
    id: string,
    title: string,
    description: string,
    startTime: int,
    endTime: int,
    createdAt: int,
    status: Option<Status>,
    priority: Option<Priority>,
    project: ProjectField,
    note: Option<string>)

  datatype FilterMode = All | Incomplete | Complete | ThisWeek | Overdue

  datatype SortMode = Unsorted | DueDate | Alphabet | CreatedDate

  const HourMs: int := 60 * 60 * 1000
  const DayMs: int := 24 * HourMs
  const WeekMs: int := 7 * DayMs

  /** The value a project id of the UI (`string | null`) compares equal to. */
  function ProjectOf(projectId: Option<string>): ProjectField {
    match projectId
    case None => General
    case Some(id) => Project(id)
  }

  // ---------------------------------------------------------------------
  // Filtering
  // ---------------------------------------------------------------------

  /** Whether a filter mode keeps a task. */
  predicate Keeps(mode: FilterMode, now: int, t: Task) {
    match mode
    case All => true
    case Incomplete => t.status != Some(Done)
    case Complete => t.status == Some(Done)
    case ThisWeek => now <= t.endTime <= now + WeekMs
    case Overdue => t.endTime < now && t.status != Some(Done)
  }

  /**
   * `getFilteredSchedules`: those the filter mode keeps, in their order
   * and with their repetitions; `all` hands back the list itself.
   */
  function FilteredSchedules(mode: FilterMode, now: int, schedules: seq<Task>): (r: seq<Task>)
    ensures IsSubsequence(r, schedules)
    ensures forall t :: t in r <==> t in schedules && Keeps(mode, now, t)
    ensures forall t :: multiset(r)[t] == (if Keeps(mode, now, t) then multiset(schedules)[t] else 0)
    ensures mode == All ==> r == schedules
  {
    if mode == All then
      SubsequenceRefl(schedules);
      schedules
    else
      Filter(schedules, t => Keeps(mode, now, t))
  }

  lemma {:induction false} SubsequenceRefl<T>(s: seq<T>)
    ensures IsSubsequence(s, s)
  {
    if s != [] {
      SubsequenceRefl(s[1..]);
    }
  }

  /** `complete` and `incomplete` split the list: every task lands in exactly one of them. */
  lemma {:induction false} CompleteIncompleteSplit(now: int, schedules: seq<Task>)
    ensures |FilteredSchedules(Complete, now, schedules)| + |FilteredSchedules(Incomplete, now, schedules)| == |schedules|
    ensures multiset(FilteredSchedules(Complete, now, schedules)) + multiset(FilteredSchedules(Incomplete, now, schedules))
         == multiset(schedules)
  {
    var c, i := FilteredSchedules(Complete, now, schedules), FilteredSchedules(Incomplete, now, schedules);
    assert multiset(c) + multiset(i) == multiset(schedules) by {
      forall t
        ensures (multiset(c) + multiset(i))[t] == multiset(schedules)[t]
      {
      }
    }
    assert |multiset(c) + multiset(i)| == |multiset(schedules)|;
  }

  /** A task marked done is never overdue, however late it is. */
  lemma DoneNeverOverdue(now: int, schedules: seq<Task>, t: Task)
    requires t.status == Some(Done)
    ensures t !in FilteredSchedules(Overdue, now, schedules)
  {
  }

  /** The this-week window includes both ends: a task due now, or due exactly a week from now. */
  lemma ThisWeekBoundsInclusive(now: int, schedules: seq<Task>, t: Task)
    requires t in schedules && (t.endTime == now || t.endTime == now + WeekMs)
    ensures t in FilteredSchedules(ThisWeek, now, schedules)
  {
  }

  // ---------------------------------------------------------------------
  // Sorting
  // ---------------------------------------------------------------------

  /** The order a sort mode's comparator puts tasks in: `a` may come before `b`. */
  predicate Leq(mode: SortMode, a: Task, b: Task) {
    match mode
    case Unsorted => true
    case DueDate => a.endTime <= b.endTime
    case Alphabet => LexLeq(a.title, b.title)
    case CreatedDate => a.createdAt <= b.createdAt
  }

  lemma LeqTotal(mode: SortMode, a: Task, b: Task)
    ensures Leq(mode, a, b) || Leq(mode, b, a)
  {
    if mode == Alphabet {
      LexTotal(a.title, b.title);
    }
  }

  lemma LeqTransitive(mode: SortMode, a: Task, b: Task, c: Task)
    requires Leq(mode, a, b) && Leq(mode, b, c)
    ensures Leq(mode, a, c)
  {
    if mode == Alphabet {
      LexTransitive(a.title, b.title, c.title);
    }
  }

  /** The comparator finds a and b equal: a stable sort keeps them in their input order. */
  predicate Tied(mode: SortMode, a: Task, b: Task) {
    Leq(mode, a, b) && Leq(mode, b, a)
  }

  /** Those tied with c. */
  function TiedWith(mode: SortMode, c: Task): Task -> bool {
    t => Tied(mode, c, t)
  }

  predicate Sorted(mode: SortMode, s: seq<Task>) {
    forall i, j :: 0 <= i < j < |s| ==> Leq(mode, s[i], s[j])
  }

  /** Put x before the first task it may precede. */
  function Insert(mode: SortMode, x: Task, s: seq<Task>): (r: seq<Task>)
    ensures multiset(r) == multiset(s) + multiset{x}
    ensures |r| == |s| + 1
  {
    if s == [] then [x]
    else if Leq(mode, x, s[0]) then [x] + s
    else
      assert s == [s[0]] + s[1..];
      [s[0]] + Insert(mode, x, s[1..])
  }

  /** A stable sort by the mode's comparator (`Array.prototype.sort` is stable). */
  function StableSort(mode: SortMode, s: seq<Task>): (r: seq<Task>)
    ensures multiset(r) == multiset(s) && |r| == |s|
  {
    if s == [] then []
    else
      assert s == [s[0]] + s[1..];
      Insert(mode, s[0], StableSort(mode, s[1..]))
  }

  /** `getSortedSchedules`: a sorted copy; `none` leaves the copy as it is. */
  function SortedSchedules(mode: SortMode, s: seq<Task>): (r: seq<Task>)
    ensures multiset(r) == multiset(s) && |r| == |s|
    ensures mode == Unsorted ==> r == s
  {
    if mode == Unsorted then s else StableSort(mode, s)
  }

  lemma {:induction false} InsertSorted(mode: SortMode, x: Task, s: seq<Task>)
    requires Sorted(mode, s)
    ensures Sorted(mode, Insert(mode, x, s))
  {
    if s == [] {
    } else if Leq(mode, x, s[0]) {
      forall y | y in s
        ensures Leq(mode, x, y)
      {
        var k :| 0 <= k < |s| && s[k] == y;
        if k > 0 {
          LeqTransitive(mode, x, s[0], y);
        }
      }
      ConsSorted(mode, x, s);
    } else {
      LeqTotal(mode, x, s[0]);
      var rest := Insert(mode, x, s[1..]);
      InsertSorted(mode, x, s[1..]);
      forall y | y in rest
        ensures Leq(mode, s[0], y)
      {
        assert y in multiset(rest);
        if y != x {
          assert y in s[1..];
          var k :| 0 <= k < |s| - 1 && s[1..][k] == y;
          assert s[k + 1] == y;
        }
      }
      ConsSorted(mode, s[0], rest);
    }
  }

  /** A task that may precede every task of a sorted list can be put in front of it. */
  lemma ConsSorted(mode: SortMode, a: Task, t: seq<Task>)
    requires Sorted(mode, t)
    requires forall y :: y in t ==> Leq(mode, a, y)
    ensures Sorted(mode, [a] + t)
  {
    var r := [a] + t;
    forall i, j | 0 <= i < j < |r|
      ensures Leq(mode, r[i], r[j])
    {
      assert r[j] == t[j - 1];
      if i == 0 {
        assert t[j - 1] in t;
      } else {
        assert r[i] == t[i - 1];
      }
    }
  }

  /** Sorting by due date, title or creation time orders the list by that key. */
  lemma {:induction false} SortIsSorted(mode: SortMode, s: seq<Task>)
    ensures Sorted(mode, SortedSchedules(mode, s))
  {
    if mode != Unsorted {
      StableSortSorted(mode, s);
    }
  }

  lemma {:induction false} StableSortSorted(mode: SortMode, s: seq<Task>)
    ensures Sorted(mode, StableSort(mode, s))
  {
    if s != [] {
      StableSortSorted(mode, s[1..]);
      InsertSorted(mode, s[0], StableSort(mode, s[1..]));
    }
  }

  /** Inserting x keeps those tied with any c in the order they had, x first among them. */
  lemma {:induction false} InsertStable(mode: SortMode, x: Task, s: seq<Task>, c: Task)
    ensures Filter(Insert(mode, x, s), TiedWith(mode, c)) == Filter([x] + s, TiedWith(mode, c))
  {
    if s != [] && !Leq(mode, x, s[0]) {
      InsertStable(mode, x, s[1..], c);
      InsertStableStep(mode, x, s, c);
    }
  }

  /** The step of `InsertStable` where x goes past the first task. */
  lemma InsertStableStep(mode: SortMode, x: Task, s: seq<Task>, c: Task)
    requires s != [] && !Leq(mode, x, s[0])
    requires Filter(Insert(mode, x, s[1..]), TiedWith(mode, c)) == Filter([x] + s[1..], TiedWith(mode, c))
    ensures Filter(Insert(mode, x, s), TiedWith(mode, c)) == Filter([x] + s, TiedWith(mode, c))
  {
    var p := TiedWith(mode, c);
    var rest := Insert(mode, x, s[1..]);
    FilterConsCongruent(s[0], rest, [x] + s[1..], p);
    NotBothTied(mode, x, s[0], c);
    FilterSwapFront(x, s[0], s[1..], p);
    assert [s[0]] + s[1..] == s;
  }

  /** Two tasks out of order for the comparator cannot both be tied with the same task. */
  lemma NotBothTied(mode: SortMode, x: Task, y: Task, c: Task)
    requires !Leq(mode, x, y)
    ensures !(TiedWith(mode, c)(x) && TiedWith(mode, c)(y))
  {
    if Tied(mode, c, x) && Tied(mode, c, y) {
      LeqTransitive(mode, x, c, y);
    }
  }

  /**
   * The sort is stable: those the comparator finds equal to any task c
   * come out in the order they went in.
   */
  lemma {:induction false} SortStable(mode: SortMode, s: seq<Task>, c: Task)
    ensures Filter(SortedSchedules(mode, s), TiedWith(mode, c)) == Filter(s, TiedWith(mode, c))
  {
    if mode != Unsorted {
      StableSortStable(mode, s, c);
    }
  }

  lemma {:induction false} StableSortStable(mode: SortMode, s: seq<Task>, c: Task)
    ensures Filter(StableSort(mode, s), TiedWith(mode, c)) == Filter(s, TiedWith(mode, c))
  {
    if s != [] {
      var p := TiedWith(mode, c);
      var sorted := StableSort(mode, s[1..]);
      StableSortStable(mode, s[1..], c);
      InsertStable(mode, s[0], sorted, c);
      assert ([s[0]] + sorted)[1..] == sorted;
      assert s == [s[0]] + s[1..];
    }
  }

  // ---------------------------------------------------------------------
  // Grouping
  // ---------------------------------------------------------------------

  /** The tasks of a project's section before sorting: those the filter mode keeps, then those of the project. */
  function SectionTasks(filter: FilterMode, now: int, schedules: seq<Task>, projectId: Option<string>): (r: seq<Task>)
    ensures IsSubsequence(r, schedules)
    ensures forall t :: t in r <==> t in schedules && Keeps(filter, now, t) && t.project == ProjectOf(projectId)
    ensures forall t :: multiset(r)[t] == (if Keeps(filter, now, t) && t.project == ProjectOf(projectId)
                                           then multiset(schedules)[t] else 0)
  {
    var filtered := FilteredSchedules(filter, now, schedules);
    var r := Filter(filtered, (t: Task) => t.project == ProjectOf(projectId));
    SubsequenceTrans(r, filtered, schedules);
    r
  }

  /**
   * `getSchedulesByProject(projectId)`: filter, keep the project's tasks, then
   * sort.  The section holds exactly those tasks, as often as they occur,
   * ordered by the sort key; under `none` they keep the list's order, and
   * under any mode tasks tied by the key keep it too.
   */
  function SchedulesByProject(filter: FilterMode, sort: SortMode, now: int, schedules: seq<Task>,
                              projectId: Option<string>): (r: seq<Task>)
    ensures forall t :: t in r <==> t in schedules && Keeps(filter, now, t) && t.project == ProjectOf(projectId)
    ensures forall t :: multiset(r)[t] == (if Keeps(filter, now, t) && t.project == ProjectOf(projectId)
                                           then multiset(schedules)[t] else 0)
    ensures Sorted(sort, r)
    ensures sort == Unsorted ==> IsSubsequence(r, schedules)
    ensures forall c :: Filter(r, TiedWith(sort, c)) == Filter(SectionTasks(filter, now, schedules, projectId), TiedWith(sort, c))
  {
    var section := SectionTasks(filter, now, schedules, projectId);
    var r := SortedSchedules(sort, section);
    SortIsSorted(sort, section);
    assert forall t :: t in r <==> t in section by {
      forall t ensures t in r <==> t in section {
        assert t in r <==> multiset(r)[t] > 0;
        assert t in section <==> multiset(section)[t] > 0;
      }
    }
    forall c
      ensures Filter(r, TiedWith(sort, c)) == Filter(section, TiedWith(sort, c))
    {
      SortStable(sort, section, c);
    }
    r
  }

  /** A task whose `project` field is missing shows up in no group (`undefined !== null`). */
  lemma MissingProjectInNoGroup(filter: FilterMode, sort: SortMode, now: int, schedules: seq<Task>,
                                projectId: Option<string>, t: Task)
    requires t.project == Missing
    ensures t !in SchedulesByProject(filter, sort, now, schedules, projectId)
  {
  }

  // ---------------------------------------------------------------------
  // Labels
  // ---------------------------------------------------------------------

  /** `getPriorityLabel`. */
  function PriorityLabel(p: Option<Priority>): string {
    match p
    case Some(High) => "높음"
    case Some(Medium) => "보통"
    case Some(Low) => "낮음"
    case None => "-"
  }

  /** `getStatusLabel`. */
  function StatusLabel(s: Option<Status>): string {
    match s
    case Some(Todo) => "할 일"
    case Some(InProgress) => "진행 중"
    case Some(Done) => "완료"
    case None => "-"
  }

  /** Distinct priorities and statuses get distinct labels; an absent one shows as "-". */
  lemma LabelsDistinct(p: Option<Priority>, q: Option<Priority>, s: Option<Status>, t: Option<Status>)
    ensures PriorityLabel(p) == PriorityLabel(q) <==> p == q
    ensures StatusLabel(s) == StatusLabel(t) <==> s == t
    ensures PriorityLabel(None) == "-" && StatusLabel(None) == "-"
  {
  }

  // ---------------------------------------------------------------------
  // List mutations
  // ---------------------------------------------------------------------

  /** The id by which the page replaces and removes tasks. */
  function TaskId(y: Task): string {
    y.id
  }

  /** The status a toggle gives: done becomes todo, anything else (absent included) becomes done. */
  function ToggledStatus(s: Option<Status>): (r: Option<Status>)
    ensures r == Some(Done) <==> s != Some(Done)
    ensures r == Some(Todo) <==> s == Some(Done)
  {
    if s == Some(Done) then Some(Todo) else Some(Done)
  }

  /** Toggling twice restores todo and done, and turns in-progress or absent into todo. */
  lemma ToggleTwice(s: Option<Status>)
    ensures ToggledStatus(ToggledStatus(s)) == if s == Some(Done) then Some(Done) else Some(Todo)
  {
  }

  /** `toggleSection`: collapse an expanded section, expand a collapsed one. */
  function ToggledSection(collapsed: set<Option<string>>, projectId: Option<string>): (r: set<Option<string>>)
    ensures projectId in r <==> projectId !in collapsed
    ensures forall p :: p != projectId ==> (p in r <==> p in collapsed)
  {
    if projectId in collapsed then collapsed - {projectId} else collapsed + {projectId}
  }

  lemma ToggleSectionTwice(collapsed: set<Option<string>>, projectId: Option<string>)
    ensures ToggledSection(ToggledSection(collapsed, projectId), projectId) == collapsed
  {
  }

  /** A property edit in the detail panel. */
  datatype Edit =
    | SetTitle(title: string)
    | SetDescription(description: string)
    | SetProject(value: string)
    | SetStatus(status: Status)
    | SetPriority(priority: Priority)

  /** The edited copy after one change; the project select maps the empty value to `null`. */
  function Edited(t: Task, e: Edit): (r: Task)
    ensures r.id == t.id && r.createdAt == t.createdAt
  {
    match e
    case SetTitle(title) => t.(title := title)
    case SetDescription(description) => t.(description := description)
    case SetProject(value) => t.(project := if value == "" then General else Project(value))
    case SetStatus(status) => t.(status := Some(status))
    case SetPriority(priority) => t.(priority := Some(priority))
  }

  /**
   * A day picked in the date picker becomes the due day; the due time keeps
   * the hour and minute it had (`setHours`, `setMinutes` on the picked day).
   */
  function PickedDueTime(day: int, endTime: int): (r: int)
    ensures r / DayMs == day
    ensures (r % DayMs) / 60000 == (endTime % DayMs) / 60000
  {
    var timeOfDay := endTime % DayMs;
    day * DayMs + (timeOfDay / HourMs) * HourMs + (timeOfDay % HourMs) / 60000 * 60000
  }

  // ---------------------------------------------------------------------
  // Date picker
  // ---------------------------------------------------------------------

  /**
   * `generateCalendarDays(year, month)`: the last `startingDayOfWeek` days of
   * the month before, the days of the month, then days of the month after up
   * to 42 cells.  The result is six weeks from the Sunday on or before the
   * first, the same days the calendar page's mini calendar shows, and the
   * cells from the first's weekday on are the days 1, 2, ... of the month.
   */
  method GenerateCalendarDays(year: int, month: int) returns (days: seq<int>)
    ensures days == SixWeeks(year, month)
  {
    var firstDay := MakeDay(year, month, 1);
    var daysInMonth, prevMonthLastDay := MonthLengths(year, month);
    var startingDayOfWeek := Weekday(firstDay);
    MonthDayOffsets(year, month);
    days := PickerLoops(year, month, firstDay, daysInMonth, prevMonthLastDay, startingDayOfWeek);
    SixWeeksFrom(year, month, firstDay - startingDayOfWeek);
  }

  /**
   * The picker's three loops, given the first of the month, the lengths of the
   * month and of the month before, and the first's weekday: 42 consecutive
   * days from the Sunday on or before the first.
   */
  method PickerLoops(year: int, month: int, ghost firstDay: int, daysInMonth: int, prevMonthLastDay: int,
                     startingDayOfWeek: int)
    returns (days: seq<int>)
    requires DatesFrom(year, month - 1, firstDay - prevMonthLastDay)
    requires DatesFrom(year, month, firstDay)
    requires DatesFrom(year, month + 1, firstDay + daysInMonth)
    requires 0 <= startingDayOfWeek < 7 && 28 <= daysInMonth <= 31
    ensures days == Span(firstDay - startingDayOfWeek, firstDay - startingDayOfWeek + 41)
  {
    days := PreviousMonthTail(year, month, prevMonthLastDay, startingDayOfWeek, firstDay);
    days := PushDaysOfMonth(days, year, month, daysInMonth, firstDay);
    var remainingDays := 42 - |days|;
    days := PushDaysOfMonth(days, year, month + 1, remainingDays, firstDay + daysInMonth);
    PickerSpans(firstDay - startingDayOfWeek, firstDay, daysInMonth, remainingDays);
  }

  /** The picker's three runs of days (before, within and after the month) make up six weeks. */
  lemma PickerSpans(start: int, firstDay: int, length: int, remaining: int)
    requires start <= firstDay && 0 <= length && remaining == 42 - (firstDay - start + length) && remaining >= 0
    ensures Span(start, firstDay - 1) + Span(firstDay, firstDay + length - 1)
      + Span(firstDay + length, firstDay + length + remaining - 1) == Span(start, start + 41)
  {
    SpanAppend3(start, firstDay, firstDay + length, firstDay + length + remaining - 1);
  }

  /**
   * The picker's first loop: for i from `count - 1` down to 0 it pushes
   * `new Date(year, month - 1, prevMonthLastDay - i)`, the last `count` days
   * of the month before, which ends the day before `next`.
   */
  method PreviousMonthTail(year: int, month: int, prevMonthLastDay: int, count: int, ghost next: int)
    returns (days: seq<int>)
    requires count >= 0
    requires DatesFrom(year, month - 1, next - prevMonthLastDay)
    ensures days == Span(next - count, next - 1) && |days| == count
  {
    days := [];
    var i := count - 1;
    while i >= 0
      invariant -1 <= i < count
      invariant days == Span(next - count, next - i - 2) && |days| == count - i - 1
      decreases i
    {
      SpanSnoc(next - count, next - i - 2);
      days := days + [MakeDay(year, month - 1, prevMonthLastDay - i)];
      i := i - 1;
    }
  }

  /**
   * The picker's second and third loops: for j from 1 to `count` it pushes
   * `new Date(year, month, j)`, the first `count` days of the month, which
   * begins on `first`.
   */
  method PushDaysOfMonth(days: seq<int>, year: int, month: int, count: int, ghost first: int)
    returns (r: seq<int>)
    requires count >= 0
    requires DatesFrom(year, month, first)
    ensures r == days + Span(first, first + count - 1) && |r| == |days| + count
  {
    r := days;
    for j := 1 to count + 1
      invariant r == days + Span(first, first + j - 2) && |r| == |days| + j - 1
    {
      SpanSnoc(first, first + j - 2);
      r := r + [MakeDay(year, month, j)];
    }
  }

  /** A day number is an offset from the first of its (possibly unnormalised) month. */
  lemma MakeDayOffset(year: int, month: int, date: int)
    ensures MakeDay(year, month, date) == MakeDay(year, month, 1) + date - 1
  {
  }

  /** `new Date(year, month, d)` is day `first + d - 1` for every d: the month begins on day `first`. */
  ghost predicate DatesFrom(year: int, month: int, first: int) {
    forall d :: MakeDay(year, month, d) == first + d - 1
  }

  /** Every day of a month (and past either end) is an offset from its first. */
  lemma MonthDayOffsets(year: int, month: int)
    ensures DatesFrom(year, month, MakeDay(year, month, 1))
  {
  }

  /**
   * The lengths the picker reads off `Date` objects: `getDate()` of the last
   * day of the month (`new Date(year, month + 1, 0)`) and of the last day of
   * the month before (`new Date(year, month, 0)`).  The month before ends the
   * day before the first, and the month after starts the day after the last.
   */
  method MonthLengths(year: int, month: int) returns (daysInMonth: int, prevMonthLastDay: int)
    ensures 28 <= daysInMonth <= 31 && 28 <= prevMonthLastDay <= 31
    ensures DatesFrom(year, month - 1, MakeDay(year, month, 1) - prevMonthLastDay)
    ensures DatesFrom(year, month + 1, MakeDay(year, month, 1) + daysInMonth)
  {
    daysInMonth := ToCivil(MakeDay(year, month + 1, 0)).day;
    prevMonthLastDay := ToCivil(MakeDay(year, month, 0)).day;
    LastDayOfMonth(year, month);
    LastDayOfMonth(year, month - 1);
    assert month - 1 + 1 == month;
    MonthStep(year, month);
    MonthDayOffsets(year, month - 1);
    MonthDayOffsets(year, month + 1);
  }

  /**
   * The six-week list the picker builds, read cell by cell: it has 42 cells,
   * and from the first's weekday on the cells are the days 1, 2, ... of the
   * month, up to its last day.
   */
  lemma PickerCells(year: int, month: int)
    ensures var days := SixWeeks(year, month);
      && |days| == 42
      && forall i :: Weekday(FirstDay(year, month)) <= i <= Weekday(FirstDay(year, month)) + LastDay(year, month) - FirstDay(year, month) ==>
        days[i] == MakeDay(year, month, i - Weekday(FirstDay(year, month)) + 1)
  {
    var w := Weekday(FirstDay(year, month));
    var days := SixWeeks(year, month);
    MonthBounds(year, month);
    SpanAt(GridStart(year, month), GridStart(year, month) + 41);
    forall i | w <= i <= w + LastDay(year, month) - FirstDay(year, month)
      ensures days[i] == MakeDay(year, month, i - w + 1)
    {
      MakeDayOffset(year, month, i - w + 1);
    }
  }

  /** `new Date(y, m + 1, 0).getDate()` is the length of month m, and that day is its last. */
  lemma LastDayOfMonth(year: int, month: int)
    ensures MakeDay(year, month + 1, 0) == MakeDay(year, month, 1) + DaysInMonth((12 * year + month) / 12, (12 * year + month) % 12) - 1
    ensures ToCivil(MakeDay(year, month + 1, 0)).day == DaysInMonth((12 * year + month) / 12, (12 * year + month) % 12)
  {
    var am := 12 * year + month;
    var y, m := am / 12, am % 12;
    MonthStep(year, month);
    assert MakeDay(year, month, 1) == MonthStart(y, m);
    DayOfMonth(y, m, DaysInMonth(y, m));
  }

  /**
   * The picker's month navigation as written: `setMonth(getMonth() + delta)`
   * keeps the day of the month, which overflows into the month after when the
   * target month is shorter.
   */
  function SetMonthAsWritten(date: int, delta: int): int {
    MakeDay(ToCivil(date).year, ToCivil(date).month + delta, ToCivil(date).day)
  }

  /**
   * From 31 March of any year, "previous month" lands on 2 or 3 March (31
   * minus February's length): the picker stays on March.
   */
  lemma SetMonthOverflow(year: int)
    ensures var march31 := MakeDay(year, 2, 31);
      ToCivil(SetMonthAsWritten(march31, -1)) == Civil(year, 2, 31 - DaysInMonth(year, 1))
  {
    var march31 := MakeDay(year, 2, 31);
    March31(year);
    assert SetMonthAsWritten(march31, -1) == MakeDay(year, 1, 31);
    FebruaryOverflow(year);
  }

  lemma March31(year: int)
    ensures ToCivil(MakeDay(year, 2, 31)) == Civil(year, 2, 31)
  {
    ToCivilMakeDay(Civil(year, 2, 31));
  }

  /** "31 February" is the (31 - length of February)-th of March. */
  lemma FebruaryOverflow(year: int)
    ensures ToCivil(MakeDay(year, 1, 31)) == Civil(year, 2, 31 - DaysInMonth(year, 1))
  {
    var k := 31 - DaysInMonth(year, 1);
    MakeDayInYear(year, 1, 31);
    MonthLength(year, 1);
    assert MakeDay(year, 1, 31) == MonthStart(year, 2) + k - 1;
    DayOfMonth(year, 2, k);
  }

  /** The picker's month navigation as intended: the first of the adjacent month. */
  function DatePickerShift(date: int, delta: int): int {
    ShiftMonth(date, delta)
  }

  /** The corrected navigation always leaves the shown month, whatever the day of the month. */
  lemma DatePickerShiftAdjacent(date: int)
    ensures ToCivil(DatePickerShift(date, -1)).month != ToCivil(date).month
    ensures ToCivil(DatePickerShift(date, 1)).month != ToCivil(date).month
    ensures ToCivil(DatePickerShift(date, -1)).day == 1 && ToCivil(DatePickerShift(date, 1)).day == 1
  {
    ShiftMonthAdjacent(date);
  }

  /** The picker's day highlight: today, then the edited due day, then in-month shading. */
  function PickerCellStyle(today: int, dueDay: int, shown: int, d: int): (r: Style)
    ensures r == TodayStyle <==> d == today
    ensures r == SelectedStyle <==> d != today && d == dueDay
    ensures r == InMonthStyle <==> d != today && d != dueDay && InShownMonth(shown, d)
    ensures r == OutOfMonthStyle <==> d != today && d != dueDay && !InShownMonth(shown, d)
  {
    ToCivilInjective(d, today);
    ToCivilInjective(d, dueDay);
    PickerStyle(ToCivil(d) == ToCivil(today), ToCivil(d) == ToCivil(dueDay), InShownMonth(shown, d))
  }

  // ---------------------------------------------------------------------
  // Page state
  // ---------------------------------------------------------------------

  datatype ScheduleState = ScheduleState(
    schedules: seq<Task>,
    selectedSchedule: Option<Task>,
    editedSchedule: Option<Task>,
    isDetailOpen: bool,
    isAddingTask: bool,
    newTaskTitle: string,
    currentProject: Option<string>,
    collapsedSections: set<Option<string>>,
    filterMode: FilterMode,
    sortMode: SortMode,
    datePickerMonth: int)

  class SchedulePage {
    var schedules: seq<Task>
    var selectedSchedule: Option<Task>
    var editedSchedule: Option<Task>
    var isDetailOpen: bool
    var isAddingTask: bool
    var newTaskTitle: string
    var currentProject: Option<string>
    var collapsedSections: set<Option<string>>
    var filterMode: FilterMode
    var sortMode: SortMode
    var datePickerMonth: int

    function State(): ScheduleState
      reads this
    {
      ScheduleState(schedules, selectedSchedule, editedSchedule, isDetailOpen, isAddingTask, newTaskTitle,
                    currentProject, collapsedSections, filterMode, sortMode, datePickerMonth)
    }

    /** The detail panel holds a selected task and its edited copy together, with the same id. */
    ghost predicate Valid()
      reads this
    {
      (selectedSchedule.Some? <==> editedSchedule.Some?)
      && (selectedSchedule.Some? ==> selectedSchedule.value.id == editedSchedule.value.id)
    }

    constructor(initial: seq<Task>, today: int)
      ensures State() == ScheduleState(initial, None, None, false, false, "", None, {}, All, Unsorted, today)
      ensures Valid()
    {
      schedules := initial;
      selectedSchedule := None;
      editedSchedule := None;
      isDetailOpen := false;
      isAddingTask := false;
      newTaskTitle := "";
      currentProject := None;
      collapsedSections := {};
      filterMode := All;
      sortMode := Unsorted;
      datePickerMonth := today;
    }

    /** What a project section lists. */
    function VisibleTasks(now: int, projectId: Option<string>): seq<Task>
      reads this
    {
      SchedulesByProject(filterMode, sortMode, now, schedules, projectId)
    }

    method SetFilterMode(mode: FilterMode)
      requires Valid()
      modifies this
      ensures State() == old(State()).(filterMode := mode)
      ensures Valid()
    {
      filterMode := mode;
    }

    method SetSortMode(mode: SortMode)
      requires Valid()
      modifies this
      ensures State() == old(State()).(sortMode := mode)
      ensures Valid()
    {
      sortMode := mode;
    }

    /** `handleTaskClick`: open the detail panel on a task. */
    method TaskClick(t: Task)
      requires Valid()
      modifies this
      ensures State() == old(State()).(selectedSchedule := Some(t), editedSchedule := Some(t), isDetailOpen := true)
      ensures Valid()
    {
      selectedSchedule := Some(t);
      editedSchedule := Some(t);
      isDetailOpen := true;
    }

    /** A change in the detail panel, which is shown only while a task is open. */
    method EditDetail(e: Edit)
      requires Valid() && isDetailOpen && selectedSchedule.Some? && editedSchedule.Some?
      modifies this
      ensures State() == old(State()).(editedSchedule := Some(Edited(old(editedSchedule).value, e)))
      ensures Valid()
    {
      editedSchedule := Some(Edited(editedSchedule.value, e));
    }

    /** The panel's close button. */
    method CloseDetail()
      requires Valid()
      modifies this
      ensures State() == old(State()).(isDetailOpen := false)
      ensures Valid()
    {
      isDetailOpen := false;
    }

    /**
     * `handleUpdateSchedule`: with a task open, the edited copy replaces every
     * task with its id and becomes the selected task.
     */
    method UpdateSchedule()
      requires Valid()
      modifies this
      ensures old(editedSchedule.None? || selectedSchedule.None?) ==> State() == old(State())
      ensures old(editedSchedule.Some? && selectedSchedule.Some?) ==>
        var updated := old(editedSchedule).value;
        State() == old(State()).(schedules := ReplaceById(old(schedules), TaskId, updated.id, updated),
                                 selectedSchedule := Some(updated), editedSchedule := Some(updated))
      ensures Valid()
    {
      if editedSchedule.None? || selectedSchedule.None? {
        return;
      }
      var updated := editedSchedule.value;
      schedules := ReplaceById(schedules, TaskId, updated.id, updated);
      selectedSchedule := Some(updated);
      editedSchedule := Some(updated);
    }

    /**
     * `handleDeleteSchedule`: with a task open and the deletion confirmed,
     * every task with its id goes and the panel closes; otherwise nothing changes.
     */
    method DeleteSchedule(confirmed: bool)
      requires Valid()
      modifies this
      ensures old(selectedSchedule.None?) || !confirmed ==> State() == old(State())
      ensures old(selectedSchedule.Some?) && confirmed ==>
        State() == old(State()).(schedules := RemoveById(old(schedules), TaskId, old(selectedSchedule).value.id),
                                 isDetailOpen := false, selectedSchedule := None, editedSchedule := None)
      ensures Valid()
    {
      if selectedSchedule.None? {
        return;
      }
      if !confirmed {
        return;
      }
      schedules := RemoveById(schedules, TaskId, selectedSchedule.value.id);
      isDetailOpen := false;
      selectedSchedule := None;
      editedSchedule := None;
    }

    /** `handleAddTask`: open the new-task input in a project's section. */
    method AddTask(projectId: Option<string>)
      requires Valid()
      modifies this
      ensures State() == old(State()).(currentProject := projectId, isAddingTask := true)
      ensures Valid()
    {
      currentProject := projectId;
      isAddingTask := true;
    }

    method SetNewTaskTitle(title: string)
      requires Valid()
      modifies this
      ensures State() == old(State()).(newTaskTitle := title)
      ensures Valid()
    {
      newTaskTitle := title;
    }

    /** Escape in the new-task input: the input closes and the typed title is dropped. */
    method NewTaskEscape()
      requires Valid()
      modifies this
      ensures State() == old(State()).(isAddingTask := false, newTaskTitle := "")
      ensures Valid()
    {
      isAddingTask := false;
      newTaskTitle := "";
    }

    /** Leaving the new-task input: it closes when the title is blank, and stays open with a title typed. */
    method NewTaskBlur()
      requires Valid()
      modifies this
      ensures IsBlank(old(newTaskTitle)) ==> State() == old(State()).(isAddingTask := false)
      ensures !IsBlank(old(newTaskTitle)) ==> State() == old(State())
      ensures Valid()
    {
      if IsBlank(newTaskTitle) {
        isAddingTask := false;
      }
    }

    /**
     * `handleCreateTask`: a blank title changes nothing; otherwise a todo task
     * of medium priority in the current project is appended and the input closes.
     */
    method CreateTask(newId: string, now: int)
      requires Valid()
      modifies this
      ensures IsBlank(old(newTaskTitle)) ==> State() == old(State())
      ensures !IsBlank(old(newTaskTitle)) ==>
        State() == old(State()).(
          schedules := old(schedules) + [Task(newId, old(newTaskTitle), "", now, now, now, Some(Todo), Some(Medium),
                                              ProjectOf(old(currentProject)), None)],
          newTaskTitle := "", isAddingTask := false)
      ensures Valid()
    {
      if IsBlank(newTaskTitle) {
        return;
      }
      var newSchedule := Task(newId, newTaskTitle, "", now, now, now, Some(Todo), Some(Medium), ProjectOf(currentProject), None);
      schedules := schedules + [newSchedule];
      newTaskTitle := "";
      isAddingTask := false;
    }

    /**
     * `handleToggleComplete`: every task with the toggled task's id becomes
     * the toggled copy, and so does the selected task when it has that id.
     */
    method ToggleComplete(t: Task)
      requires Valid()
      modifies this
      ensures var updated := t.(status := ToggledStatus(t.status));
        State() == old(State()).(
          schedules := ReplaceById(old(schedules), TaskId, t.id, updated),
          selectedSchedule := if old(selectedSchedule).Some? && old(selectedSchedule).value.id == t.id
                              then Some(updated) else old(selectedSchedule))
      ensures Valid()
    {
      var newStatus := if t.status == Some(Done) then Some(Todo) else Some(Done);
      var updated := t.(status := newStatus);
      schedules := ReplaceById(schedules, TaskId, t.id, updated);
      if selectedSchedule.Some? && selectedSchedule.value.id == t.id {
        selectedSchedule := Some(updated);
      }
    }

    /** `toggleSection`. */
    method ToggleSection(projectId: Option<string>)
      requires Valid()
      modifies this
      ensures State() == old(State()).(collapsedSections := ToggledSection(old(collapsedSections), projectId))
      ensures Valid()
    {
      if projectId in collapsedSections {
        collapsedSections := collapsedSections - {projectId};
      } else {
        collapsedSections := collapsedSections + {projectId};
      }
    }

    /** Opening the date picker shows the month of the edited task's due day. */
    method OpenDatePicker()
      requires Valid() && editedSchedule.Some?
      modifies this
      ensures State() == old(State()).(datePickerMonth := old(editedSchedule).value.endTime / DayMs)
      ensures Valid()
    {
      datePickerMonth := editedSchedule.value.endTime / DayMs;
    }

    /** The picker's previous-month button, as intended (see `SetMonthAsWritten`). */
    method DatePickerPrevious()
      requires Valid()
      modifies this
      ensures State() == old(State()).(datePickerMonth := DatePickerShift(old(datePickerMonth), -1))
      ensures Valid()
    {
      var c := ToCivil(datePickerMonth);
      datePickerMonth := MakeDay(c.year, c.month - 1, 1);
    }

    /** The picker's next-month button, as intended (see `SetMonthAsWritten`). */
    method DatePickerNext()
      requires Valid()
      modifies this
      ensures State() == old(State()).(datePickerMonth := DatePickerShift(old(datePickerMonth), 1))
      ensures Valid()
    {
      var c := ToCivil(datePickerMonth);
      datePickerMonth := MakeDay(c.year, c.month + 1, 1);
    }

    /** Picking a day in the date picker moves the edited task's due time to that day. */
    method PickDueDay(day: int)
      requires Valid() && editedSchedule.Some?
      modifies this
      ensures State() == old(State()).(editedSchedule :=
        Some(old(editedSchedule).value.(endTime := PickedDueTime(day, old(editedSchedule).value.endTime))))
      ensures Valid()
    {
      var e := editedSchedule.value;
      editedSchedule := Some(e.(endTime := PickedDueTime(day, e.endTime)));
    }
  }

  /**
   * Toggling a task twice on the page: its status ends where a double toggle
   * puts it, and the list keeps its length.
   */
  method ToggleTwiceOnPage(initial: seq<Task>, today: int, i: nat) returns (after: seq<Task>)
    requires i < |initial|
    ensures |after| == |initial|
    ensures after[i].status == if initial[i].status == Some(Done) then Some(Done) else Some(Todo)
    ensures forall j :: 0 <= j < |initial| && initial[j].id != initial[i].id ==> after[j] == initial[j]
  {
    var page := new SchedulePage(initial, today);
    var t := initial[i];
    page.ToggleComplete(t);
    var once := page.schedules[i];
    page.ToggleComplete(once);
    after := page.schedules;
  }

  /**
   * Opening the new-task input in a section and leaving it, by Escape or by
   * moving away before typing: the input is closed, no title is kept, and
   * the list is as it was.
   */
  method AbandonNewTask(initial: seq<Task>, today: int, projectId: Option<string>, title: string, escape: bool)
    returns (after: seq<Task>, adding: bool, typed: string)
    ensures after == initial
    ensures escape ==> !adding && typed == ""
    ensures !escape ==> typed == title && (adding <==> !IsBlank(title))
  {
    var page := new SchedulePage(initial, today);
    page.AddTask(projectId);
    page.SetNewTaskTitle(title);
    if escape {
      page.NewTaskEscape();
    } else {
      page.NewTaskBlur();
    }
    after, adding, typed := page.schedules, page.isAddingTask, page.newTaskTitle;
  }
}
