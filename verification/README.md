# Scheduler pages, modelled in Dafny

A model of the page logic of a personal scheduler web front end: the
calendar page, the schedule page, the journal page, the dashboard and
the journal's month calendar.  Each page's state is a Dafny `class` whose
fields are the page's state variables and whose methods are its event
handlers.  The logic the pages compute (date grids, ranges, filters, sorts,
labels, cell highlighting, `YYYY-MM-DD` dates) is written as functions and
loops proved against specification functions.

The project is laid out by concept:

- `civil_date.dfy` (`CivilDate`): JavaScript `Date` arithmetic on whole day
  numbers.  It covers `new Date(y, m, d)` with month and day overflow,
  `getDay`, and `getFullYear`/`getMonth`/`getDate`, in the proleptic
  Gregorian calendar.
- `date_grid.dfy` (`DateGrid`): the Sunday-to-Saturday month grid that three
  pages build with the same loop, the 42-day grid, and month navigation.
- `date_text.dfy` (`DateText`): the `YYYY-MM-DD` formatting the pages use to
  compare days, with `padStart`.  It proves the format injective.
- `text.dfy` (`Text`): `trim`, ASCII `toLowerCase`, `includes`, and the
  title order used by the alphabetical sort.
- `seqs.dfy` (`Seqs`): `filter` and runs of consecutive days.
- `cell_style.dfy` (`CellStyle`): the precedence of a day cell's highlight
  (today, selected, in-month, out-of-month) and its journal dot.
- `calendar.dfy`, `schedule.dfy`, `journal.dfy`, `dashboard.dfy` and
  `journal_calendar.dfy`: one module per page or component.
- `options.dfy`: the `Option` type.

The clock (`new Date()`, `Date.now()`), the answer to `window.confirm`, and
new ids are parameters of the members that use them.

## Model

| member | source | states |
|---|---|---|
| CivilDate.DaysInMonth | src/pages/Schedule.tsx:191-192 | a month has 28 to 31 days, and 29 exactly for February of a leap year |
| CivilDate.Weekday | src/pages/Calendar.tsx:35 | `getDay()` is between 0 (Sunday) and 6 |
| CivilDate.ToCivil | src/pages/Calendar.tsx:48-49 | the year, month and day a day number reads back are a valid date whose day number is that day |
| CivilDate.ToCivilMakeDay | src/pages/Calendar.tsx:51 | `new Date(y, m, d)` of a valid date reads back as y, m, d |
| CivilDate.ToCivilInjective | src/pages/Calendar.tsx:76-80 | two days have the same year, month and day exactly when they are the same day |
| CivilDate.MonthStep | src/pages/Calendar.tsx:51-52 | the first of month m + 1 is the first of month m plus the length of month m, across year ends too |
| CivilDate.DayOfMonth | src/pages/Schedule.tsx:192 | the k-th day of a month reads back as day k of that month |
| CivilDate.FirstOfMonth | src/pages/Dashboard.tsx:75 | `new Date(y, m, 1)` is the first of month m normalised into its year |
| CivilDate.PreviousMonthFirst | src/pages/Dashboard.tsx:66-68 | `new Date(y, m - 1, 1)` is the first of the month before, December of the year before for January |
| CivilDate.NextMonthFirst | src/pages/Dashboard.tsx:70-72 | `new Date(y, m + 1, 1)` is the first of the month after, January of the next year for December |
| CivilDate.MonthIndexNearMonth | src/pages/Calendar.tsx:90-96 | within a week of a month, a day's `getMonth()` is that month exactly when the day lies in it |
| CivilDate.SundayOnOrBefore | src/pages/Calendar.tsx:55-60 | stepping back by `getDay()` reaches a Sunday, stepping forward by `6 - getDay()` a Saturday |
| CivilDate.WeekdayShift | src/pages/Calendar.tsx:40-43 | k days later the weekday has moved on by k, modulo 7 |
| DateGrid.MonthBounds | src/pages/Calendar.tsx:51-52 | from the first to the last day of a month there are 28 to 31 days |
| DateGrid.MonthGridShape | src/pages/Calendar.tsx:48-72 | the month grid is 4 to 6 whole weeks of consecutive days, Sunday first and Saturday last, and holds every day of the month |
| DateGrid.WeeksAround | src/pages/Calendar.tsx:55-60 | the days from a Sunday to a Saturday around a 28–31 day stretch are whole weeks holding the stretch |
| DateGrid.MonthGrid | src/pages/Calendar.tsx:62-69 | the grid loop yields the month grid, with its shape and every day of the month |
| DateGrid.ConsecutiveDays | src/pages/Calendar.tsx:37-43 | the fixed-count loop yields `count` consecutive days from the start |
| DateGrid.SixWeeksHoldMonth | src/pages/Calendar.tsx:555-573 | the 42 days from the Sunday on or before the first are consecutive and always hold the whole month |
| DateGrid.CurrentMonthCells | src/pages/Calendar.tsx:90-96 | a grid cell's month index matches the displayed month exactly when the cell lies in that month |
| DateGrid.ShownDayInGrid | src/pages/Calendar.tsx:74 | the shown day lies in its own month, so its month grid contains it |
| DateGrid.ShownMonthCells | src/pages/Dashboard.tsx:116-118 | in the shown day's grid, `isCurrentMonth` holds exactly for the days of the shown month |
| DateGrid.ShiftMonthAdjacent | src/pages/Dashboard.tsx:66-72 | previous/next lands on the first of the adjacent month, rolling the year over |
| DateGrid.ShiftMonthRoundTrip | src/components/JournalCalendar.tsx:18-24 | next then previous, or previous then next, returns to the first of the month shown |
| DateGrid.ForwardBackFrom | src/components/JournalCalendar.tsx:18-24 | from month m of year y, next then previous gives the first of month m |
| DateGrid.BackForwardFrom | src/components/JournalCalendar.tsx:18-24 | from month m of year y, previous then next gives the first of month m |
| Calendar.SlotAt | src/pages/Calendar.tsx:134-139 | the slot built for an instant has that instant and an hour between 0 and 23 |
| Calendar.SlotAtInstant | src/pages/Calendar.tsx:127-128 | a slot with an hour of the day is the slot of its own instant |
| Calendar.WeekDays | src/pages/Calendar.tsx:32-45 | the week view is 7 consecutive days, Sunday to Saturday, holding the reference day |
| Calendar.SundayWeek | src/pages/Calendar.tsx:34-35 | the seven days from the Sunday on or before a day run Sunday to Saturday and contain that day |
| Calendar.MonthSixWeeks | src/pages/Calendar.tsx:556-572 | the mini calendar's loop yields the 42 days from the Sunday on or before the first |
| Calendar.MiniCalendarDays | src/pages/Calendar.tsx:555-573 | `getMiniCalendarDays` yields the six weeks of the shown day's month |
| Calendar.DayRangeFacts | src/pages/Calendar.tsx:107-121 | the date range does not depend on endpoint order, runs a day at a time from the earlier to the later, and holds exactly the days between them |
| Calendar.DateRange | src/pages/Calendar.tsx:107-121 | the range loop yields the days from the earlier endpoint to the later, one per day |
| Calendar.SlotRangeFacts | src/pages/Calendar.tsx:124-143 | the slot range is symmetric, steps one hour at a time, has one slot per hour, and starts and ends at the given slots |
| Calendar.TimeSlotRange | src/pages/Calendar.tsx:124-143 | the hour loop yields the slot range, one slot per hour between the endpoints |
| Calendar.IsSameDayIff | src/pages/Calendar.tsx:76-80 | comparing date, month and year is comparing days |
| Calendar.IsSameTimeSlotIff | src/pages/Calendar.tsx:82-84 | two slots compare equal exactly when they are the same slot, i.e. the same instant |
| Calendar.IsDateSelectedIff | src/pages/Calendar.tsx:98-100 | a day tests as selected exactly when it is in the selection |
| Calendar.IsTimeSlotSelectedIff | src/pages/Calendar.tsx:102-104 | a slot tests as selected exactly when it is in the slot selection |
| Calendar.DraggedDaysSelected | src/pages/Calendar.tsx:147-160 | after a drag from a to b, exactly the days between a and b test as selected |
| Calendar.MonthViewCurrentMonth | src/pages/Calendar.tsx:90-96 | in the month view a grid cell is current-month exactly when it lies in the shown month |
| Calendar.MiniCellStyles | src/pages/Calendar.tsx:648-653 | one highlight per cell: today wins, a selected day next, then the in-month shade exactly for the shown month's days and the out-of-month shade for the rest |
| Calendar.NavigateRoundTrip | src/pages/Calendar.tsx:186-208 | next then previous returns to the same day in the week view and to the first of the month in the month view |
| Calendar.CalendarPage.constructor | src/pages/Calendar.tsx:11-21 | the page opens on today in the month view with nothing selected |
| Calendar.CalendarPage.CalendarDays | src/pages/Calendar.tsx:31-74 | the week or month grid by view mode, holding the shown day |
| Calendar.CalendarPage.SetViewMode | src/pages/Calendar.tsx:272-282 | only the view mode changes |
| Calendar.CalendarPage.MouseDown | src/pages/Calendar.tsx:147-151 | a drag starts at the day, and only that day is selected |
| Calendar.CalendarPage.MouseEnter | src/pages/Calendar.tsx:154-159 | while dragging, the selection becomes the range from the anchor; otherwise nothing changes |
| Calendar.CalendarPage.MouseUp | src/pages/Calendar.tsx:162-164 | the drag ends and the selection stays |
| Calendar.CalendarPage.TimeSlotMouseDown | src/pages/Calendar.tsx:167-171 | a slot drag starts, and only that slot is selected |
| Calendar.CalendarPage.TimeSlotMouseEnter | src/pages/Calendar.tsx:174-179 | while dragging, the slot selection becomes the hour range from the anchor |
| Calendar.CalendarPage.TimeSlotMouseUp | src/pages/Calendar.tsx:182-184 | the drag flag clears and the selection stays |
| Calendar.CalendarPage.NavigatePrevious | src/pages/Calendar.tsx:186-196 | a week back in the week view, the first of the previous month in the month view |
| Calendar.CalendarPage.NavigateNext | src/pages/Calendar.tsx:198-208 | a week on in the week view, the first of the next month in the month view |
| Calendar.CalendarPage.GoToToday | src/pages/Calendar.tsx:210-215 | shows, selects and mini-shows today |
| Calendar.CalendarPage.StartDateChange | src/pages/Calendar.tsx:226-232 | an empty input changes nothing; otherwise the selection runs from the new day to the last selected day |
| Calendar.CalendarPage.EndDateChange | src/pages/Calendar.tsx:235-241 | an empty input changes nothing; otherwise the selection runs from the first selected day to the new day |
| Calendar.CalendarPage.MiniDateClick | src/pages/Calendar.tsx:437-440 | selects the clicked day alone and shows it |
| Calendar.CalendarPage.MiniNavigatePrevious | src/pages/Calendar.tsx:595-597 | the mini calendar moves to the first of the previous month |
| Calendar.CalendarPage.MiniNavigateNext | src/pages/Calendar.tsx:599-601 | the mini calendar moves to the first of the next month |
| Calendar.CalendarPage.MiniDays | src/pages/Calendar.tsx:575 | exactly the six weeks from the Sunday on or before the first of the shown month: 42 consecutive days starting on a Sunday and holding every day of that month |
| Calendar.DragSelect | src/pages/Calendar.tsx:147-164 | press on a, move to b, release: the selection is exactly the days between a and b, and the drag has ended |
| Calendar.HoverWithoutPress | src/pages/Calendar.tsx:154-159 | moving without pressing selects nothing |
| CellStyle.AppliedStyles | src/components/JournalCalendar.tsx:161-166 | exactly one of the four guarded class fragments applies, the one the precedence order picks |
| CellStyle.EntryDots | src/components/JournalCalendar.tsx:169-174 | a day with an entry gets exactly one dot, white on today or the selected day and blue elsewhere; a day without one gets none |
| DateText.NatToString | src/components/JournalCalendar.tsx:48 | a number's decimal text is all digits, one digit long exactly below 10 |
| DateText.PadStart | src/components/JournalCalendar.tsx:49-50 | the padded text has at least the width and ends with the original |
| DateText.FormatCivilInjective | src/components/JournalCalendar.tsx:47-52 | two valid dates with the same `YYYY-MM-DD` text are the same date |
| DateText.FormatDateLength | src/components/JournalCalendar.tsx:47-52 | for four-digit years the text is ten characters, dashes at 4 and 7 and digits elsewhere |
| DateText.FormatDateInjective | src/components/JournalCalendar.tsx:47-52 | two days with the same formatted text are the same day |
| DateText.IsTodayIff | src/components/JournalCalendar.tsx:74-76 | comparing formatted texts with today's is comparing days |
| Text.BlankIffAllWhitespace | src/pages/Journal.tsx:168 | `!s.trim()` holds exactly when every character is whitespace |
| Text.ToLower | src/pages/Journal.tsx:278 | lower-casing keeps the length and maps each character |
| Text.ContainsAt | src/pages/Journal.tsx:278-279 | `includes` holds exactly when the query occurs at some index |
| Text.LexTotal | src/pages/Schedule.tsx:129 | any two titles are comparable |
| Text.LexTransitive | src/pages/Schedule.tsx:129 | the title order is transitive |
| Text.LexAntisymmetric | src/pages/Schedule.tsx:129 | titles ordered both ways are equal |
| Seqs.Filter | src/pages/Schedule.tsx:140 | `filter` keeps exactly the elements satisfying the predicate, in order, with their multiplicities |
| Seqs.FilterAppend | src/pages/Schedule.tsx:140 | filtering a concatenation is concatenating the filtered parts |
| Seqs.ReplaceById | src/pages/Journal.tsx:218 | every element whose id is the given one is replaced, position by position, and nothing else changes; the schedule page's `map` at src/pages/Schedule.tsx:244 is the same |
| Seqs.RemoveById | src/pages/Journal.tsx:227 | exactly the elements with the id go; the others stay, in order and with their counts; the schedule page's `filter` at src/pages/Schedule.tsx:253 is the same |
| Dashboard.MockJournals | src/pages/Dashboard.tsx:13-47 | three sample entries, dated the load day, the day before and the day before that |
| Dashboard.MockJournalDays | src/pages/Dashboard.tsx:106-108 | the sample entries mark exactly the load day and the two days before |
| Dashboard.TodayJournal | src/pages/Dashboard.tsx:59-63 | nothing exactly when no entry is dated today; otherwise an entry dated today |
| Dashboard.FindDated | src/pages/Dashboard.tsx:62 | `find` by date: nothing exactly when no entry has the key, otherwise an entry with it |
| Dashboard.FindDatedIsFirst | src/pages/Dashboard.tsx:62 | `find` returns the first entry with the key |
| Dashboard.TodayJournalIsFirst | src/pages/Dashboard.tsx:59-63 | today's journal is the first entry dated today |
| Dashboard.MockTodayJournal | src/pages/Dashboard.tsx:49-63 | on the load day the first sample entry shows; a day later, with the sample data unchanged, none does |
| Dashboard.CellStyles | src/pages/Dashboard.tsx:211-215 | one highlight per cell, today first; there is no selected day here; any other day gets the in-month shade exactly when it is in the shown month, the out-of-month shade otherwise |
| Dashboard.CellDots | src/pages/Dashboard.tsx:218-223 | at most one dot: none without an entry; with one, white exactly on today and blue exactly on every other day |
| Dashboard.DashboardPage.constructor | src/pages/Dashboard.tsx:53 | the dashboard opens on today |
| Dashboard.DashboardPage.CalendarDays | src/pages/Dashboard.tsx:75-92 | the month grid of the shown month, whole weeks, holding the shown day |
| Dashboard.DashboardPage.GoToPreviousMonth | src/pages/Dashboard.tsx:66-68 | the first of the previous month |
| Dashboard.DashboardPage.GoToNextMonth | src/pages/Dashboard.tsx:70-72 | the first of the next month |
| Dashboard.PageForwardAndBack | src/pages/Dashboard.tsx:66-72 | one step forward is the first of the next month; forward then back is the first of the starting month |
| JournalCalendar.HasJournalIff | src/components/JournalCalendar.tsx:64-66 | with the page's journal dates, a day is marked exactly when some entry is of that day |
| JournalCalendar.SelectedAfterClick | src/components/JournalCalendar.tsx:58-71 | after a click on a day, that day's cell and no other is selected |
| JournalCalendar.CellStyles | src/components/JournalCalendar.tsx:161-166 | one highlight per cell: today, then the selected day, then in-month shading |
| JournalCalendar.CellDots | src/components/JournalCalendar.tsx:169-174 | at most one dot: none without an entry; with one, white exactly on today or the selected day and blue exactly on the other days |
| JournalCalendar.JournalCalendarView.constructor | src/components/JournalCalendar.tsx:12 | the calendar opens on today |
| JournalCalendar.JournalCalendarView.CalendarDays | src/components/JournalCalendar.tsx:27-44 | the month grid of the shown month, holding the shown day |
| JournalCalendar.JournalCalendarView.GoToPreviousMonth | src/components/JournalCalendar.tsx:18-20 | the first of the previous month |
| JournalCalendar.JournalCalendarView.GoToNextMonth | src/components/JournalCalendar.tsx:22-24 | the first of the next month |
| JournalCalendar.JournalCalendarView.DateClick | src/components/JournalCalendar.tsx:58-61 | the text handed to the page is the day's `YYYY-MM-DD`, and it selects that day alone |
| JournalCalendar.ClickDay | src/pages/Journal.tsx:265-285 | with no search typed, a click on a day lists exactly that day's entries, in order, each as many times as it occurs |
| JournalCalendar.SaveMarksToday | src/pages/Journal.tsx:167-187 | with a Save that reads the form as typed, a blank title or content alerts and changes nothing; otherwise the marked days become the old ones plus today |
| Journal.FilteredJournals | src/pages/Journal.tsx:275-285 | the listed entries are those matching both the search and the date filter, in order, with their multiplicities |
| Journal.SearchIsSlice | src/pages/Journal.tsx:277-279 | the search holds exactly when the lower-cased query is a slice of the lower-cased title or content |
| Journal.EmptySearchKeepsAll | src/pages/Journal.tsx:275-285 | an empty search with no date selected lists every entry |
| Journal.DateFilterExact | src/pages/Journal.tsx:282 | with a day selected, every listed entry is of that day |
| Journal.JournalDates | src/pages/Journal.tsx:260-262 | the dates are the entries' days, in list order |
| Journal.JournalDatesMember | src/pages/Journal.tsx:260-262 | a day is among the journal dates exactly when some entry is of that day |
| Journal.Revised | src/pages/Journal.tsx:212-216 | the saved entry has the form's title and content and keeps its id, day and creation time |
| Journal.ReviseKeepsDates | src/pages/Journal.tsx:212-218 | saving an edit leaves the journal dates, so the calendar dots, unchanged |
| Journal.NewEntryDateMismatch | src/pages/Journal.tsx:173 | east of UTC the written date differs from the local day exactly in the first offset hours of each local day |
| Journal.NewEntryDateCounterexample | src/pages/Journal.tsx:173 | at 23:00 UTC in UTC+9 the entry gets the day before the local day |
| Journal.NewEntryDateIsLocalToday | src/pages/Journal.tsx:173 | the corrected date is the local day that the calendars show as today |
| Journal.LocalDayOf | src/pages/Journal.tsx:173 | the local day is the UTC day, or the next day once the offset carries past midnight |
| Journal.JournalPage.constructor | src/pages/Journal.tsx:41-51 | the page opens on the list with an empty form and no filters |
| Journal.JournalPage.SetSearchQuery | src/pages/Journal.tsx:336 | only the query changes |
| Journal.JournalPage.SetFormTitle | src/pages/Journal.tsx:366 | only the form title changes |
| Journal.JournalPage.SetFormContent | src/pages/Journal.tsx:83 | only the form content changes |
| Journal.JournalPage.CreateNew | src/pages/Journal.tsx:157-165 | an empty form in creating mode with nothing selected |
| Journal.JournalPage.SaveNew | src/pages/Journal.tsx:167-187 | a blank title or content alerts and changes nothing; otherwise the entry goes first, is selected, and creating ends |
| Journal.JournalPage.SelectJournal | src/pages/Journal.tsx:189-197 | view the entry, with its title and content in the form |
| Journal.JournalPage.Edit | src/pages/Journal.tsx:199-204 | with an entry selected, editing starts; otherwise nothing changes |
| Journal.JournalPage.SaveEdit | src/pages/Journal.tsx:206-222 | nothing selected or a blank field alerts and changes nothing; otherwise the revised entry replaces its id and editing ends |
| Journal.JournalPage.Delete | src/pages/Journal.tsx:224-232 | declined, nothing; confirmed, the id's entries go, and the selection ends only if it was the one deleted |
| Journal.JournalPage.Cancel | src/pages/Journal.tsx:234-247 | creating: the form empties; editing: the form reverts to the entry; otherwise nothing |
| Journal.JournalPage.BackToList | src/pages/Journal.tsx:249-257 | back to the list with an empty form and no date filter |
| Journal.JournalPage.CloseView | src/pages/Journal.tsx:413-417 | the selection and both modes end |
| Journal.JournalPage.SelectDate | src/pages/Journal.tsx:265-267 | only the date filter changes |
| Journal.JournalPage.ShowAll | src/pages/Journal.tsx:270-272 | the date filter is dropped |
| Journal.WriteEntry | src/pages/Journal.tsx:157-187 | create, type, then a Save that reads the form as typed (the corrected header): blank fields leave the list as it was; otherwise the list gains exactly the new entry, first, and selected |
| Journal.ReviseEntry | src/pages/Journal.tsx:189-222 | select, edit, retype, then a Save that reads the form as typed (the corrected header): every entry with the id is revised, and the rest and the length stay |
| Journal.AbandonEdit | src/pages/Journal.tsx:234-247 | cancelling an edit restores the entry's title and content to the form and changes no entry |
| Journal.Recapture | src/pages/Journal.tsx:433 | the header's handlers always see the current dependencies; when a dependency changed they see the whole current state, and when none did they keep the content and list captured before, however these have changed since |
| Journal.JournalPage.HeaderSave | src/pages/Journal.tsx:386-389 | the header's Save checks and writes the title, content, list and selection captured at the header effect's last run, and applies its updates to the current page |
| Journal.WriteEntryAsWritten | src/pages/Journal.tsx:386-433 | create, type the title, then the content, and Save from the header: the alert always shows and the list stays as it was |
| Journal.ReviseEntryAsWritten | src/pages/Journal.tsx:386-433 | select, edit, retype the title, then the content, and Save from the header: the entry gets the new title but keeps its old content |
| Journal.StaleSaveCounterexample | src/pages/Journal.tsx:433 | title "a" then content "b": the header's Save as written alerts, the Save that reads the form as typed adds the entry |
| Schedule.FilteredSchedules | src/pages/Schedule.tsx:97-120 | those the filter mode keeps, in order with their multiplicities; `all` is the list itself |
| Schedule.CompleteIncompleteSplit | src/pages/Schedule.tsx:102-105 | complete and incomplete partition the list |
| Schedule.DoneNeverOverdue | src/pages/Schedule.tsx:111-115 | a done task is never overdue |
| Schedule.ThisWeekBoundsInclusive | src/pages/Schedule.tsx:106-110 | the this-week window includes both now and exactly a week from now |
| Schedule.LeqTotal | src/pages/Schedule.tsx:125-131 | every sort comparator orders any two tasks one way or the other |
| Schedule.LeqTransitive | src/pages/Schedule.tsx:125-131 | every sort comparator is transitive |
| Schedule.Insert | src/pages/Schedule.tsx:125-131 | inserting adds exactly one task |
| Schedule.StableSort | src/pages/Schedule.tsx:122-135 | the sort is a permutation of its input |
| Schedule.SortedSchedules | src/pages/Schedule.tsx:122-135 | a permutation of the input; `none` leaves it as it is |
| Schedule.InsertSorted | src/pages/Schedule.tsx:125-131 | insertion keeps a sorted list sorted |
| Schedule.ConsSorted | src/pages/Schedule.tsx:125-131 | a task that may precede every task of a sorted list can go in front of it |
| Schedule.SortIsSorted | src/pages/Schedule.tsx:125-131 | sorting by due date, title or creation time orders the list by that key |
| Schedule.StableSortSorted | src/pages/Schedule.tsx:125-131 | the stable sort's output is ordered |
| Schedule.InsertStable | src/pages/Schedule.tsx:125-131 | insertion keeps tied tasks in their order, the inserted one first |
| Schedule.InsertStableStep | src/pages/Schedule.tsx:125-131 | the step of insertion past a task keeps tied tasks in order |
| Schedule.NotBothTied | src/pages/Schedule.tsx:125-131 | two tasks out of order cannot both tie with a third |
| Schedule.SortStable | src/pages/Schedule.tsx:122-135 | the sort is stable: tasks the comparator finds equal keep their input order |
| Schedule.StableSortStable | src/pages/Schedule.tsx:125-131 | the stable sort keeps tied tasks in input order |
| Schedule.SectionTasks | src/pages/Schedule.tsx:139-140 | the section's tasks before sorting are those the filter keeps in the project, in list order, with their multiplicities |
| Schedule.SchedulesByProject | src/pages/Schedule.tsx:138-142 | a section lists exactly the project's tasks the filter keeps, with their multiplicities, sorted; under `none` in list order; and tasks tied by the sort key keep their list order |
| Schedule.MissingProjectInNoGroup | src/pages/Schedule.tsx:140 | a task with no `project` field shows up in no section |
| Schedule.LabelsDistinct | src/pages/Schedule.tsx:144-181 | distinct priorities and statuses get distinct labels, and an absent one shows as "-" |
| Schedule.ToggledStatus | src/pages/Schedule.tsx:284 | done becomes todo; anything else, absent included, becomes done |
| Schedule.ToggleTwice | src/pages/Schedule.tsx:283-290 | two toggles restore todo and done and turn in-progress or absent into todo |
| Schedule.ToggledSection | src/pages/Schedule.tsx:292-300 | the section's collapsed flag flips and no other section's does |
| Schedule.ToggleSectionTwice | src/pages/Schedule.tsx:292-300 | toggling a section twice restores the collapsed set |
| Schedule.Edited | src/pages/Schedule.tsx:879 | a detail edit keeps the id and creation time |
| Schedule.PickedDueTime | src/pages/Schedule.tsx:849-853 | the picked day becomes the due day, and the hour and minute are kept |
| Schedule.GenerateCalendarDays | src/pages/Schedule.tsx:189-215 | the picker's 42 cells are the six weeks from the Sunday on or before the first |
| Schedule.PickerLoops | src/pages/Schedule.tsx:195-214 | the three loops give 42 consecutive days from the Sunday on or before the first |
| Schedule.PickerSpans | src/pages/Schedule.tsx:195-212 | the runs before, within and after the month make up six weeks |
| Schedule.PreviousMonthTail | src/pages/Schedule.tsx:198-201 | the first loop yields the last days of the previous month, ending the day before the first |
| Schedule.PushDaysOfMonth | src/pages/Schedule.tsx:204-212 | the second and third loops append the first `count` days of the month |
| Schedule.MakeDayOffset | src/pages/Schedule.tsx:205 | day d of a month is d - 1 days after its first |
| Schedule.MonthLengths | src/pages/Schedule.tsx:190-198 | both lengths are 28 to 31, and the adjacent months end and begin next to this one |
| Schedule.PickerCells | src/pages/Schedule.tsx:204-206 | there are 42 cells, and from the first's weekday on they are days 1, 2, ... of the month |
| Schedule.LastDayOfMonth | src/pages/Schedule.tsx:191-192 | `new Date(y, m + 1, 0).getDate()` is the length of month m |
| Schedule.SetMonthOverflow | src/pages/Schedule.tsx:800-804 | from 31 March, `setMonth(getMonth() - 1)` lands on 2 or 3 March |
| Schedule.FebruaryOverflow | src/pages/Schedule.tsx:800-804 | "31 February" is the (31 − February's length)-th of March |
| Schedule.DatePickerShiftAdjacent | src/pages/Schedule.tsx:800-816 | the corrected navigation always leaves the shown month and lands on a first |
| Schedule.PickerCellStyle | src/pages/Schedule.tsx:834-861 | today wins, then the due day, then the in-month shade exactly when the day's month index is the shown month's, the out-of-month shade otherwise |
| Schedule.SchedulePage.constructor | src/pages/Schedule.tsx:76-94 | the page opens with the initial tasks, no selection, filter `all` and sort `none` |
| Schedule.SchedulePage.SetFilterMode | src/pages/Schedule.tsx:361 | only the filter mode changes |
| Schedule.SchedulePage.SetSortMode | src/pages/Schedule.tsx:426 | only the sort mode changes |
| Schedule.SchedulePage.TaskClick | src/pages/Schedule.tsx:234-238 | the detail panel opens on the clicked one, with an edited copy |
| Schedule.SchedulePage.EditDetail | src/pages/Schedule.tsx:762 | only the edited copy changes |
| Schedule.SchedulePage.CloseDetail | src/pages/Schedule.tsx:767 | the panel closes |
| Schedule.SchedulePage.UpdateSchedule | src/pages/Schedule.tsx:240-247 | with a task open, the edited copy replaces its id and becomes the selection; otherwise nothing changes |
| Schedule.SchedulePage.DeleteSchedule | src/pages/Schedule.tsx:249-257 | with a task open and the deletion confirmed, its id goes and the panel closes; otherwise nothing changes |
| Schedule.SchedulePage.AddTask | src/pages/Schedule.tsx:259-262 | the new-task input opens in the project's section |
| Schedule.SchedulePage.SetNewTaskTitle | src/pages/Schedule.tsx:615 | only the typed title changes |
| Schedule.SchedulePage.NewTaskEscape | src/pages/Schedule.tsx:616-621 | Escape closes the new-task input and drops the typed title, and nothing else changes |
| Schedule.SchedulePage.NewTaskBlur | src/pages/Schedule.tsx:622-626 | leaving the input closes it when the title is blank and changes nothing otherwise |
| Schedule.SchedulePage.CreateTask | src/pages/Schedule.tsx:264-281 | a blank title changes nothing; otherwise a todo, medium-priority task in the current project is appended and the input closes |
| Schedule.SchedulePage.ToggleComplete | src/pages/Schedule.tsx:283-290 | the toggled copy replaces every entry with its id, and the selection when it has that id |
| Schedule.SchedulePage.ToggleSection | src/pages/Schedule.tsx:292-300 | the section's collapsed flag flips |
| Schedule.SchedulePage.OpenDatePicker | src/pages/Schedule.tsx:780-783 | the picker shows the month of the edited due day |
| Schedule.SchedulePage.DatePickerPrevious | src/pages/Schedule.tsx:800-804 | the picker shows the first of the previous month (corrected, see Findings) |
| Schedule.SchedulePage.DatePickerNext | src/pages/Schedule.tsx:810-814 | the picker shows the first of the next month (corrected, see Findings) |
| Schedule.SchedulePage.PickDueDay | src/pages/Schedule.tsx:849-854 | the edited task's due time moves to the picked day, keeping hour and minute |
| Schedule.AbandonNewTask | src/pages/Schedule.tsx:608-627 | opening the input and leaving it by Escape, or by moving away with a blank title, closes it and adds no task; a typed title keeps it open on blur |
| Schedule.ToggleTwiceOnPage | src/pages/Schedule.tsx:283-290 | toggling a task twice on the page leaves it where a double toggle puts it and every other task as it was |

## Left out

- Rendering is left out: markup, CSS classes beyond the cell highlight precedence, icons, menus, the list/board view switch and the column visibility toggles of the schedule page.
- The schedule page's click-outside effect that closes the date picker, and the picker's open/closed flag, are left out.
- Header, Sidebar, App, SignIn and HeaderContext are not part of this model.
- The schedule API client is not part of this model; the pages use their own sample data.
- The journal page's header effect is modelled only for its Save button (`Journal.Recapture`, `Journal.JournalPage.HeaderSave`). Its search bar, title input, new-entry, edit and close buttons call setters or read only state the effect depends on, so they behave as the page's own handlers. Cancel behaves the same way, because `handleCancel` reads only such state. A captured selection is compared by value, not by object identity.
- Journal.WriteEntry: models a Save that reads the form as typed, the corrected behaviour; the header's Save as written reads the content captured when the title last changed (`Journal.WriteEntryAsWritten`, see Findings).
- Journal.ReviseEntry: models a Save that reads the form as typed, the corrected behaviour; as written the revised entry keeps its old content (`Journal.ReviseEntryAsWritten`, see Findings).
- JournalCalendar.SaveMarksToday: saves through `Journal.WriteEntry`, so it models a Save that reads the form as typed; as written, typing the content after the title makes the header's Save alert and mark nothing.
- Calendar.CalendarPage.StartDateChange, Calendar.CalendarPage.EndDateChange and Calendar.DateRange: days are whole local day numbers, the typed date is taken as the local day typed, and the range holds every day between the endpoints. In the source, `new Date(dateString)` on a `YYYY-MM-DD` string (src/pages/Calendar.tsx:228, :237) is UTC midnight, read back with local getters. West of UTC the typed date therefore selects the day before the one typed. The endpoints also carry different times of day: `goToToday` keeps the clock's time, and the input has the UTC offset. `getDateRange` steps while `getTime() <= maxTime`, so it can leave out the later endpoint's day. The model's range does not do either.
- The rich-text editor (TipTap) is left out, along with paste and image upload, scrolling arrows and `toLocaleDateString` display text.
  - The journal's `formContent` is whatever text the editor hands back; the model takes it as a plain string.
- Schedule.SchedulePage.NewTaskEscape: models the handler as written in `onKeyPress`; which keys a browser reports through that event is not modelled.
- Time zones and daylight saving are left out. Local time is uniform, every day lasts 24 hours, and the schedule page's ISO times are read as milliseconds in local time. The only exception is the fixed UTC offset in the new-entry finding.
- Invalid dates (`NaN`) and unparsable date inputs are left out; an empty date input is `None`.
- Text.LexTotal: `localeCompare` is modelled as code-unit order of the titles, not a locale collation.
- Text.ToLower: only the ASCII letters are lowered. Other cased scripts (Latin-1, Greek, Cyrillic) are left as they are, while Hangul has no case anyway.
- Day-number arithmetic is unbounded: JavaScript's date range limit of ±10^8 days is not modelled.
- Journal.JournalPage.SaveNew: takes the local day `today` as a parameter. The day the source writes (the UTC day) is modelled separately, in `Journal.NewEntryDateAsWritten`; see Findings.
- Dashboard.MockJournals: the sample entries are computed once when the module loads, so their load day is a parameter separate from the day the page is drawn.
- Schedule.Edited: only states that the id and creation time are kept; the changed field is given by its body.
- Schedule.SchedulePage.DatePickerPrevious and Schedule.SchedulePage.DatePickerNext: model the intended first-of-month navigation; the written `setMonth` is `Schedule.SetMonthAsWritten`.

## Findings

| source | as written | input that shows it | evidently intended | confidence | as-written member | corrected member |
|---|---|---|---|---|---|---|
| src/pages/Schedule.tsx:800-814 | the date picker's month buttons call `setMonth(getMonth() ∓ 1)` on a copy of the shown date, which keeps the day of the month and overflows when the target month is shorter | picker showing 31 March, "previous month": the result is 3 March (2 March in a leap year), so the picker stays on March | move to the adjacent month, as the calendar pages do with `new Date(year, month ∓ 1, 1)` | not executed | Schedule.SetMonthOverflow | Schedule.DatePickerShiftAdjacent |
| src/pages/Journal.tsx:173 | a new journal entry is dated `new Date().toISOString().split('T')[0]`, the UTC day, while every calendar and `isToday` use the local day | saving at 08:00 local time in UTC+9 (23:00 UTC the day before): the entry is filed under yesterday and the dot appears on yesterday's cell | date the entry by the local day, formatted as the calendars format it | not executed | Journal.NewEntryDateCounterexample | Journal.NewEntryDateIsLocalToday |
| src/pages/Journal.tsx:433 | the header effect that installs the Save button lists `formTitle` but not `formContent` among its dependencies, so Save runs the `handleSaveNew` of the render when the title last changed, with that render's content | create, type the title "a", then the content "b", press Save: the check sees the content as it was when the title was typed (empty), so the alert shows and nothing is saved | Save checks and writes the form as typed, i.e. `formContent` among the dependencies | not executed | Journal.StaleSaveCounterexample | Journal.WriteEntry |
| src/pages/Journal.tsx:386-433 | for an edit the same Save runs the `handleSaveEdit` holding the entry's original content | select an entry, edit, retype the title, then the content, press Save: the entry gets the new title and keeps its old content | the entry gets both the new title and the new content | not executed | Journal.ReviseEntryAsWritten | Journal.ReviseEntry |
