/**
 * The journal page's month calendar: it marks today, the selected day and the
 * days that have an entry, and a click on a day hands that day's
 * `YYYY-MM-DD` text to the journal page as its date filter.
 */
module JournalCalendar {
  import opened Options
  import opened CivilDate
  import opened Seqs
  import opened Text
  import opened DateText
  import opened DateGrid
  import opened CellStyle
  import opened Journal

  /** `hasJournal`: the day's text is among the journal dates. */
  predicate HasJournal(journalDates: seq<string>, d: int) {
    FormatDate(d) in journalDates
  }

  /** `isSelected`: the selected date is the day's text. */
  predicate IsSelected(selectedDate: Option<string>, d: int) {
    selectedDate == Some(FormatDate(d))
  }

  /** With the page's journal dates, a day is marked exactly when some entry is of that day. */
  lemma HasJournalIff(journals: seq<Entry>, d: int)
    ensures HasJournal(JournalDates(journals), d) <==> exists e :: e in journals && e.date == FormatDate(d)
  {
    JournalDatesMember(journals, FormatDate(d));
  }

  /** After a click on day c, the selected cell is c's and no other. */
  lemma SelectedAfterClick(c: int, d: int)
    ensures IsSelected(Some(FormatDate(c)), d) <==> d == c
  {
    IsTodayIff(c, d);
  }

  /** A day cell's background: today, then the selected day, then in-month or out-of-month shading. */
  function CellStyles(today: int, selectedDate: Option<string>, shown: int, d: int): (r: set<Style>)
    ensures |r| == 1
    ensures TodayStyle in r <==> d == today
    ensures SelectedStyle in r <==> d != today && IsSelected(selectedDate, d)
    ensures InMonthStyle in r <==> d != today && !IsSelected(selectedDate, d) && InShownMonth(shown, d)
    ensures OutOfMonthStyle in r <==> d != today && !IsSelected(selectedDate, d) && !InShownMonth(shown, d)
  {
    IsTodayIff(today, d);
    AppliedStyles(IsToday(today, d), IsSelected(selectedDate, d), InShownMonth(shown, d))
  }

  /** A day cell's entry dot: white on a highlighted cell, blue elsewhere, none without an entry. */
  function CellDots(journalDates: seq<string>, today: int, selectedDate: Option<string>, d: int): (r: set<Dot>)
    ensures |r| <= 1
    ensures r != {} <==> HasJournal(journalDates, d)
    ensures WhiteDot in r <==> HasJournal(journalDates, d) && (d == today || IsSelected(selectedDate, d))
    ensures BlueDot in r <==> HasJournal(journalDates, d) && d != today && !IsSelected(selectedDate, d)
  {
    IsTodayIff(today, d);
    EntryDots(HasJournal(journalDates, d), IsToday(today, d), IsSelected(selectedDate, d))
  }

  class JournalCalendarView {
    var currentDate: int

    constructor(today: int)
      ensures currentDate == today
    {
      currentDate := today;
    }

    /** `calendarDays`: the month grid of the shown month, which holds the shown day. */
    method CalendarDays() returns (days: seq<int>)
      ensures days == MonthGridDays(ToCivil(currentDate).year, ToCivil(currentDate).month)
      ensures |days| % 7 == 0 && 28 <= |days| <= 42
      ensures Consecutive(days) && Weekday(days[0]) == 0 && Weekday(days[|days| - 1]) == 6
      ensures currentDate in days
    {
      var c := ToCivil(currentDate);
      days := MonthGrid(c.year, c.month);
      ShownDayInGrid(currentDate);
    }

    /** `goToPreviousMonth`: `new Date(year, month - 1, 1)`. */
    method GoToPreviousMonth()
      modifies this
      ensures currentDate == ShiftMonth(old(currentDate), -1)
    {
      var c := ToCivil(currentDate);
      currentDate := MakeDay(c.year, c.month - 1, 1);
    }

    /** `goToNextMonth`: `new Date(year, month + 1, 1)`. */
    method GoToNextMonth()
      modifies this
      ensures currentDate == ShiftMonth(old(currentDate), 1)
    {
      var c := ToCivil(currentDate);
      currentDate := MakeDay(c.year, c.month + 1, 1);
    }

    /** `handleDateClick`: the text handed to the page is the day's `YYYY-MM-DD`. */
    method DateClick(d: int) returns (dateStr: string)
      ensures dateStr == FormatDate(d)
      ensures forall c :: IsSelected(Some(dateStr), c) <==> c == d
    {
      dateStr := FormatDate(d);
      forall c
        ensures IsSelected(Some(dateStr), c) <==> c == d
      {
        SelectedAfterClick(d, c);
      }
    }
  }

  /**
   * A click on day d in the calendar of the journal list (no search typed):
   * the list then shows exactly the entries of day d, in their order.
   */
  method ClickDay(initial: seq<Entry>, today: int, d: int) returns (listed: seq<Entry>)
    ensures IsSubsequence(listed, initial)
    ensures forall e :: e in listed <==> e in initial && e.date == FormatDate(d)
    ensures forall e :: multiset(listed)[e] == if e.date == FormatDate(d) then multiset(initial)[e] else 0
  {
    var page := new JournalPage(initial);
    var view := new JournalCalendarView(today);
    var dateStr := view.DateClick(d);
    page.SelectDate(dateStr);
    listed := page.Listed();
    var key := FormatDate(d);
    assert key != "" by {
      assert |key| > 0;
    }
    assert listed == FilteredJournals(initial, "", Some(key));
    forall e
      ensures MatchesSearch("", e) && (MatchesDate(Some(key), e) <==> e.date == key)
    {
      assert ToLower("") == "";
    }
  }

  /**
   * Saving a new entry puts a dot on today's cell and on no other day that
   * had none: the marked days become the old ones plus today.
   */
  method SaveMarksToday(initial: seq<Entry>, title: string, content: string, newId: string, today: int,
                        createdAt: string)
    returns (journals: seq<Entry>, alerted: bool)
    ensures alerted <==> IsBlank(title) || IsBlank(content)
    ensures alerted ==> journals == initial
    ensures !alerted ==> forall d ::
      HasJournal(JournalDates(journals), d) <==> d == today || HasJournal(JournalDates(initial), d)
  {
    var selected;
    journals, selected, alerted := WriteEntry(initial, title, content, newId, today, createdAt);
    if !alerted {
      var dates := JournalDates(journals);
      assert dates == [FormatDate(today)] + JournalDates(initial) by {
        assert journals == [journals[0]] + journals[1..];
      }
      forall d
        ensures HasJournal(dates, d) <==> d == today || HasJournal(JournalDates(initial), d)
      {
        IsTodayIff(today, d);
      }
    }
  }
}
