/**
 * The dashboard: today's journal entry from the sample entries, and a month
 * calendar that marks today and the days with an entry.
 *
 * The sample entries are made once, when the page module loads, for the
 * day `loadDay`; `today` is the day the page is drawn.
 */
module Dashboard {
  import opened Options
  import opened CivilDate
  import opened Seqs
  import opened DateText
  import opened DateGrid
  import opened CellStyle

  datatype Journal = Journal(id: string, title: string, content: string, date: string)

  /** `getMockJournals`: entries for the load day, the day before and the day before that. */
  function MockJournals(loadDay: int): (r: seq<Journal>)
    ensures |r| == 3
    ensures r[0].date == FormatDate(loadDay) && r[1].date == FormatDate(loadDay - 1) && r[2].date == FormatDate(loadDay - 2)
  {
    [Journal("1", "프로젝트 킥오프 미팅", "오늘 새로운 프로젝트 킥오프 미팅을 진행했다...", FormatDate(loadDay)),
     Journal("2", "알고리즘 스터디", "오늘은 동적 프로그래밍 문제를 풀었다...", FormatDate(loadDay - 1)),
     Journal("3", "주간 회고", "이번 주는 생산성이 높았던 한 주였다...", FormatDate(loadDay - 2))]
  }

  /** `hasJournal`: some entry's date is the day's `YYYY-MM-DD` text. */
  predicate HasJournal(journals: seq<Journal>, d: int) {
    exists j :: j in journals && j.date == FormatDate(d)
  }

  /** The sample entries mark exactly the load day and the two days before it. */
  lemma MockJournalDays(loadDay: int, d: int)
    ensures HasJournal(MockJournals(loadDay), d) <==> loadDay - 2 <= d <= loadDay
  {
    var js := MockJournals(loadDay);
    DatedOneOfThree(js, FormatDate(d));
    IsTodayIff(loadDay, d);
    IsTodayIff(loadDay - 1, d);
    IsTodayIff(loadDay - 2, d);
  }

  /** Three entries hold a date exactly when one of their three dates is it. */
  lemma DatedOneOfThree(js: seq<Journal>, x: string)
    requires |js| == 3
    ensures (exists j :: j in js && j.date == x) <==> x == js[0].date || x == js[1].date || x == js[2].date
  {
    if exists j :: j in js && j.date == x {
      var j :| j in js && j.date == x;
      var k :| 0 <= k < 3 && js[k] == j;
    }
    if x == js[0].date {
      assert js[0] in js;
    } else if x == js[1].date {
      assert js[1] in js;
    } else if x == js[2].date {
      assert js[2] in js;
    }
  }

  /** `getTodayJournal`: the first entry dated today, if any. */
  function TodayJournal(journals: seq<Journal>, today: int): (r: Option<Journal>)
    ensures r.None? <==> !HasJournal(journals, today)
    ensures r.Some? ==> r.value in journals && r.value.date == FormatDate(today)
  {
    FindDated(journals, FormatDate(today))
  }

  /** `journals.find(j => j.date === key)`. */
  function FindDated(journals: seq<Journal>, key: string): (r: Option<Journal>)
    ensures r.None? <==> !exists j :: j in journals && j.date == key
    ensures r.Some? ==> r.value in journals && r.value.date == key
  {
    if journals == [] then None
    else if journals[0].date == key then Some(journals[0])
    else
      var r := FindDated(journals[1..], key);
      assert forall j :: j in journals[1..] ==> j in journals;
      assert forall j :: j in journals ==> j == journals[0] || j in journals[1..];
      r
  }

  /** `find` picks the first match: the entry at i when no entry before it is dated today. */
  lemma TodayJournalIsFirst(journals: seq<Journal>, today: int, i: nat)
    requires i < |journals| && journals[i].date == FormatDate(today)
    requires forall k :: 0 <= k < i ==> journals[k].date != FormatDate(today)
    ensures TodayJournal(journals, today) == Some(journals[i])
  {
    FindDatedIsFirst(journals, FormatDate(today), i);
  }

  /** The entry `find` returns is the one at the first index whose date is the key. */
  lemma {:induction false} FindDatedIsFirst(journals: seq<Journal>, key: string, i: nat)
    requires i < |journals| && journals[i].date == key
    requires forall k :: 0 <= k < i ==> journals[k].date != key
    ensures FindDated(journals, key) == Some(journals[i])
  {
    if i > 0 {
      FindDatedIsFirst(journals[1..], key, i - 1);
    }
  }

  /**
   * On the load day the dashboard shows the first sample entry; drawn the
   * next day, with the entries still those of the load day, it shows none.
   */
  lemma MockTodayJournal(loadDay: int)
    ensures TodayJournal(MockJournals(loadDay), loadDay) == Some(MockJournals(loadDay)[0])
    ensures TodayJournal(MockJournals(loadDay), loadDay + 1) == None
  {
    TodayJournalIsFirst(MockJournals(loadDay), loadDay, 0);
    MockJournalDays(loadDay, loadDay + 1);
  }

  /** A day cell's background: today first, then in-month or out-of-month shading. */
  function CellStyles(today: int, shown: int, d: int): (r: set<Style>)
    ensures |r| == 1
    ensures TodayStyle in r <==> d == today
    ensures SelectedStyle !in r
    ensures InMonthStyle in r <==> d != today && InShownMonth(shown, d)
    ensures OutOfMonthStyle in r <==> d != today && !InShownMonth(shown, d)
  {
    IsTodayIff(today, d);
    AppliedStyles(IsToday(today, d), false, InShownMonth(shown, d))
  }

  /** A day cell's entry dot: white on today, blue elsewhere, none without an entry. */
  function CellDots(journals: seq<Journal>, today: int, d: int): (r: set<Dot>)
    ensures |r| <= 1
    ensures r != {} <==> HasJournal(journals, d)
    ensures WhiteDot in r <==> HasJournal(journals, d) && d == today
    ensures BlueDot in r <==> HasJournal(journals, d) && d != today
  {
    IsTodayIff(today, d);
    EntryDots(HasJournal(journals, d), IsToday(today, d), false)
  }

  class DashboardPage {
    var currentDate: int

    constructor(today: int)
      ensures currentDate == today
    {
      currentDate := today;
    }

    /** `calendarDays`: the month grid of the shown month, which holds the shown day. */
    method CalendarDays() returns (days: seq<int>)
      ensures days == MonthGridDays(ToCivil(currentDate).year, ToCivil(currentDate).month)
      ensures |days| % 7 == 0 && 28 <= |days| <= 42
      ensures Consecutive(days) && Weekday(days[0]) == 0 && Weekday(days[|days| - 1]) == 6
      ensures currentDate in days
    {
      var c := ToCivil(currentDate);
      days := MonthGrid(c.year, c.month);
      ShownDayInGrid(currentDate);
    }

    /** `goToPreviousMonth`: `new Date(year, month - 1, 1)`. */
    method GoToPreviousMonth()
      modifies this
      ensures currentDate == ShiftMonth(old(currentDate), -1)
    {
      var c := ToCivil(currentDate);
      currentDate := MakeDay(c.year, c.month - 1, 1);
    }

    /** `goToNextMonth`: `new Date(year, month + 1, 1)`. */
    method GoToNextMonth()
      modifies this
      ensures currentDate == ShiftMonth(old(currentDate), 1)
    {
      var c := ToCivil(currentDate);
      currentDate := MakeDay(c.year, c.month + 1, 1);
    }
  }

  /**
   * Paging forward then back on the dashboard calendar shows the month it
   * started on, from its first day; one step forward is the first of the
   * next month, rolling over to January.
   */
  method PageForwardAndBack(today: int) returns (next: int, back: int)
    ensures var c := ToCivil(today);
      ToCivil(next) == if c.month == 11 then Civil(c.year + 1, 0, 1) else Civil(c.year, c.month + 1, 1)
    ensures back == FirstDay(ToCivil(today).year, ToCivil(today).month)
  {
    var page := new DashboardPage(today);
    page.GoToNextMonth();
    next := page.currentDate;
    page.GoToPreviousMonth();
    back := page.currentDate;
    ShiftMonthAdjacent(today);
    ShiftMonthRoundTrip(today);
  }
}
