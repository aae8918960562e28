/**
 * The journal page: the entry list, the search and date filter that narrow
 * it, and the handlers that create, edit, delete and cancel, moving the page
 * between its list, view, create and edit screens.
 *
 * The clock, the confirmation dialog and new ids are parameters.  The clock
 * is `nowMs`, milliseconds since 1970-01-01T00:00Z, with `offsetMs` the
 * distance of local time ahead of UTC (`-getTimezoneOffset()` minutes).
 */
module Journal {
  import opened Options
  import opened Seqs
  import opened Text
  import opened DateText

  /** A journal entry; `date` is its `YYYY-MM-DD` day. */
  datatype Entry = Entry(id: string, title: string, content: string, date: string, createdAt: string)

  const DayMs: int := 86400000

  // ---------------------------------------------------------------------
  // Filtering
  // ---------------------------------------------------------------------

  /** The lower-cased query occurs in the lower-cased title or content. */
  predicate MatchesSearch(query: string, e: Entry) {
    Contains(ToLower(e.title), ToLower(query)) || Contains(ToLower(e.content), ToLower(query))
  }

  /** No date is selected (`null` or the empty, falsy, string), or the entry is of that date. */
  predicate MatchesDate(selectedDate: Option<string>, e: Entry) {
    match selectedDate
    case None => true
    case Some(d) => d == "" || e.date == d
  }

  /** `filteredJournals`. */
  function FilteredJournals(journals: seq<Entry>, query: string, selectedDate: Option<string>): (r: seq<Entry>)
    ensures IsSubsequence(r, journals)
    ensures forall e :: e in r <==> e in journals && MatchesSearch(query, e) && MatchesDate(selectedDate, e)
    ensures forall e ::
      multiset(r)[e] == if MatchesSearch(query, e) && MatchesDate(selectedDate, e) then multiset(journals)[e] else 0
  {
    Filter(journals, (e: Entry) => MatchesSearch(query, e) && MatchesDate(selectedDate, e))
  }

  /** The search holds exactly when the lower-cased query is a slice of the lower-cased title or content. */
  lemma SearchIsSlice(query: string, e: Entry)
    ensures MatchesSearch(query, e) <==>
      (exists i :: OccursAt(ToLower(e.title), ToLower(query), i))
      || (exists i :: OccursAt(ToLower(e.content), ToLower(query), i))
  {
    ContainsAt(ToLower(e.title), ToLower(query));
    ContainsAt(ToLower(e.content), ToLower(query));
  }

  /** An empty search with no date selected lists every entry, in order. */
  lemma {:induction false} EmptySearchKeepsAll(journals: seq<Entry>)
    ensures FilteredJournals(journals, "", None) == journals
  {
    var p := (e: Entry) => MatchesSearch("", e) && MatchesDate(None, e);
    forall e | e in journals
      ensures p(e)
    {
      assert ToLower("") == "";
    }
    FilterAll(journals, p);
  }

  /** With a day selected, every listed entry is of that day. */
  lemma DateFilterExact(journals: seq<Entry>, query: string, d: string, e: Entry)
    requires d != ""
    ensures e in FilteredJournals(journals, query, Some(d)) ==> e.date == d
  {
  }

  /** `journalDates`: the entries' days, in list order. */
  function JournalDates(journals: seq<Entry>): (r: seq<string>)
    ensures |r| == |journals|
    ensures forall i :: 0 <= i < |journals| ==> r[i] == journals[i].date
  {
    seq(|journals|, i requires 0 <= i < |journals| => journals[i].date)
  }

  /** A day is among the journal dates exactly when some entry is of that day. */
  lemma JournalDatesMember(journals: seq<Entry>, d: string)
    ensures d in JournalDates(journals) <==> exists e :: e in journals && e.date == d
  {
    var dates := JournalDates(journals);
    if d in dates {
      var i :| 0 <= i < |dates| && dates[i] == d;
      assert journals[i] in journals;
    }
    if exists e :: e in journals && e.date == d {
      var e :| e in journals && e.date == d;
      var i :| 0 <= i < |journals| && journals[i] == e;
      assert dates[i] == d;
    }
  }

  // ---------------------------------------------------------------------
  // List mutations
  // ---------------------------------------------------------------------

  /** The id by which the page replaces and removes entries. */
  function EntryId(y: Entry): string {
    y.id
  }

  /** The entry a save-edit writes back: new title and content, same id, day and creation time. */
  function Revised(e: Entry, title: string, content: string): (r: Entry)
    ensures r.id == e.id && r.date == e.date && r.createdAt == e.createdAt
    ensures r.title == title && r.content == content
  {
    e.(title := title, content := content)
  }

  /**
   * Saving an edit leaves the journal dates as they were, so the calendar's
   * dots do not move, as long as the entries with that id are of its day.
   */
  lemma ReviseKeepsDates(journals: seq<Entry>, e: Entry, title: string, content: string)
    requires forall i :: 0 <= i < |journals| && journals[i].id == e.id ==> journals[i].date == e.date
    ensures JournalDates(ReplaceById(journals, EntryId, e.id, Revised(e, title, content))) == JournalDates(journals)
  {
  }

  // ---------------------------------------------------------------------
  // The day a new entry gets
  // ---------------------------------------------------------------------

  /** The UTC day of an instant, the day `toISOString().split('T')[0]` spells. */
  function UtcDay(nowMs: int): int {
    nowMs / DayMs
  }

  /** The local day of an instant, the day `getFullYear/getMonth/getDate` read. */
  function LocalDay(nowMs: int, offsetMs: int): int {
    (nowMs + offsetMs) / DayMs
  }

  /** `handleSaveNew` as written dates the entry by its UTC day. */
  function NewEntryDateAsWritten(nowMs: int): string {
    FormatDate(UtcDay(nowMs))
  }

  /** The day every calendar formats: the local one. */
  function NewEntryDate(nowMs: int, offsetMs: int): string {
    FormatDate(LocalDay(nowMs, offsetMs))
  }

  /**
   * East of UTC (0 < offset < one day) the day written and the local day
   * disagree exactly in the first `offsetMs` of each local day: an entry
   * saved at 08:00 in UTC+9 is filed under the day before.
   */
  lemma NewEntryDateMismatch(nowMs: int, offsetMs: int)
    requires 0 < offsetMs < DayMs
    ensures NewEntryDateAsWritten(nowMs) == NewEntryDate(nowMs, offsetMs) <==> nowMs % DayMs + offsetMs < DayMs
  {
    var u, l := UtcDay(nowMs), LocalDay(nowMs, offsetMs);
    LocalDayOf(nowMs, offsetMs);
    assert NewEntryDateAsWritten(nowMs) == FormatDate(u);
    assert NewEntryDate(nowMs, offsetMs) == FormatDate(l);
    if FormatDate(u) == FormatDate(l) {
      FormatDateInjective(u, l);
    }
  }

  /** The local day is the UTC day, or the day after once the offset carries past midnight. */
  lemma LocalDayOf(nowMs: int, offsetMs: int)
    requires 0 < offsetMs < DayMs
    ensures LocalDay(nowMs, offsetMs) == if nowMs % DayMs + offsetMs < DayMs then UtcDay(nowMs) else UtcDay(nowMs) + 1
  {
    var q, r := nowMs / DayMs, nowMs % DayMs;
    assert nowMs == q * DayMs + r;
    if r + offsetMs < DayMs {
      assert nowMs + offsetMs == q * DayMs + (r + offsetMs);
    } else {
      assert nowMs + offsetMs == (q + 1) * DayMs + (r + offsetMs - DayMs);
    }
  }

  /** At 23:00 UTC on any day it is 08:00 the next day in UTC+9, yet the entry gets the UTC day. */
  lemma NewEntryDateCounterexample(day: int)
    ensures var nowMs, offsetMs := day * DayMs + 23 * 3600000, 9 * 3600000;
      NewEntryDateAsWritten(nowMs) != NewEntryDate(nowMs, offsetMs)
  {
    var nowMs, offsetMs := day * DayMs + 23 * 3600000, 9 * 3600000;
    assert nowMs % DayMs == 23 * 3600000;
    NewEntryDateMismatch(nowMs, offsetMs);
  }

  /** The corrected date is the local day, the one the calendars show as today. */
  lemma NewEntryDateIsLocalToday(nowMs: int, offsetMs: int, today: int)
    requires today * DayMs <= nowMs + offsetMs < (today + 1) * DayMs
    ensures NewEntryDate(nowMs, offsetMs) == FormatDate(today)
  {
    LocalDayIs(nowMs, offsetMs, today);
  }

  lemma LocalDayIs(nowMs: int, offsetMs: int, today: int)
    requires today * DayMs <= nowMs + offsetMs < (today + 1) * DayMs
    ensures LocalDay(nowMs, offsetMs) == today
  {
    var t := nowMs + offsetMs;
    var k := t - today * DayMs;
    assert t == today * DayMs + k && 0 <= k < DayMs;
  }

  // ---------------------------------------------------------------------
  // Page state
  // ---------------------------------------------------------------------

  datatype JournalState = JournalState(
    journals: seq<Entry>,
    selectedJournal: Option<Entry>,
    isEditing: bool,
    isCreating: bool,
    searchQuery: string,
    selectedDate: Option<string>,
    formTitle: string,
    formContent: string)

  class JournalPage {
    var journals: seq<Entry>
    var selectedJournal: Option<Entry>
    var isEditing: bool
    var isCreating: bool
    var searchQuery: string
    var selectedDate: Option<string>
    var formTitle: string
    var formContent: string

    function State(): JournalState
      reads this
    {
      JournalState(journals, selectedJournal, isEditing, isCreating, searchQuery, selectedDate, formTitle, formContent)
    }

    /**
     * The page is never creating and editing at once; it edits only a
     * selected entry, and creates only with nothing selected.
     */
    ghost predicate Valid()
      reads this
    {
      !(isCreating && isEditing)
      && (isEditing ==> selectedJournal.Some?)
      && (isCreating ==> selectedJournal.None?)
    }

    constructor(initial: seq<Entry>)
      ensures State() == JournalState(initial, None, false, false, "", None, "", "")
      ensures Valid()
    {
      journals := initial;
      selectedJournal := None;
      isEditing := false;
      isCreating := false;
      searchQuery := "";
      selectedDate := None;
      formTitle := "";
      formContent := "";
    }

    /** The entries the list screen shows. */
    function Listed(): seq<Entry>
      reads this
    {
      FilteredJournals(journals, searchQuery, selectedDate)
    }

    method SetSearchQuery(query: string)
      requires Valid()
      modifies this
      ensures State() == old(State()).(searchQuery := query)
      ensures Valid()
    {
      searchQuery := query;
    }

    method SetFormTitle(title: string)
      requires Valid()
      modifies this
      ensures State() == old(State()).(formTitle := title)
      ensures Valid()
    {
      formTitle := title;
    }

    method SetFormContent(content: string)
      requires Valid()
      modifies this
      ensures State() == old(State()).(formContent := content)
      ensures Valid()
    {
      formContent := content;
    }

    /** `handleCreateNew`: an empty form in creating mode, nothing selected. */
    method CreateNew()
      requires Valid()
      modifies this
      ensures State() == old(State()).(formTitle := "", formContent := "", isCreating := true, isEditing := false,
                                       selectedJournal := None)
      ensures Valid()
    {
      formTitle := "";
      formContent := "";
      isCreating := true;
      isEditing := false;
      selectedJournal := None;
    }

    /**
     * `handleSaveNew`: a blank title or content raises the alert and changes
     * nothing; otherwise the new entry goes to the front of the list, dated
     * `today`, the local day of the clock (see `NewEntryDateIsLocalToday`),
     * is selected, and creating mode ends.
     */
    method SaveNew(newId: string, today: int, createdAt: string) returns (alerted: bool)
      requires Valid()
      modifies this
      ensures alerted <==> IsBlank(old(formTitle)) || IsBlank(old(formContent))
      ensures alerted ==> State() == old(State())
      ensures !alerted ==>
        var e := Entry(newId, old(formTitle), old(formContent), FormatDate(today), createdAt);
        State() == old(State()).(journals := [e] + old(journals), selectedJournal := Some(e),
                                 isCreating := false, isEditing := false)
      ensures Valid()
    {
      if IsBlank(formTitle) || IsBlank(formContent) {
        return true;
      }
      var newJournal := Entry(newId, formTitle, formContent, FormatDate(today), createdAt);
      journals := [newJournal] + journals;
      selectedJournal := Some(newJournal);
      isCreating := false;
      isEditing := false;
      return false;
    }

    /** `handleSelectJournal`: view an entry, its title and content in the form. */
    method SelectJournal(e: Entry)
      requires Valid()
      modifies this
      ensures State() == old(State()).(isCreating := false, isEditing := false, selectedJournal := Some(e),
                                       formTitle := e.title, formContent := e.content)
      ensures Valid()
    {
      isCreating := false;
      isEditing := false;
      selectedJournal := Some(e);
      formTitle := e.title;
      formContent := e.content;
    }

    /** `handleEdit`: with an entry selected, switch to editing; otherwise nothing. */
    method Edit()
      requires Valid()
      modifies this
      ensures old(selectedJournal).None? ==> State() == old(State())
      ensures old(selectedJournal).Some? ==> State() == old(State()).(isEditing := true, isCreating := false)
      ensures Valid()
    {
      if selectedJournal.None? {
        return;
      }
      isEditing := true;
      isCreating := false;
    }

    /**
     * `handleSaveEdit`: with nothing selected or a blank title or content the
     * alert shows and nothing changes; otherwise the selected entry, with the
     * form's title and content, replaces every entry with its id.
     */
    method SaveEdit() returns (alerted: bool)
      requires Valid()
      modifies this
      ensures alerted <==> old(selectedJournal).None? || IsBlank(old(formTitle)) || IsBlank(old(formContent))
      ensures alerted ==> State() == old(State())
      ensures !alerted ==>
        var u := Revised(old(selectedJournal).value, old(formTitle), old(formContent));
        State() == old(State()).(journals := ReplaceById(old(journals), EntryId, u.id, u), selectedJournal := Some(u),
                                 isEditing := false)
      ensures Valid()
    {
      if selectedJournal.None? || IsBlank(formTitle) || IsBlank(formContent) {
        return true;
      }
      var updated := selectedJournal.value.(title := formTitle, content := formContent);
      journals := ReplaceById(journals, EntryId, updated.id, updated);
      selectedJournal := Some(updated);
      isEditing := false;
      return false;
    }

    /**
     * `handleDelete`: declined, nothing changes; confirmed, the entries with
     * that id go, and the selection and editing mode end only when the
     * selected entry was the one deleted.
     */
    method Delete(id: string, confirmed: bool)
      requires Valid()
      modifies this
      ensures !confirmed ==> State() == old(State())
      ensures confirmed ==>
        var wasSelected := old(selectedJournal).Some? && old(selectedJournal).value.id == id;
        State() == old(State()).(journals := RemoveById(old(journals), EntryId, id),
                                 selectedJournal := if wasSelected then None else old(selectedJournal),
                                 isEditing := if wasSelected then false else old(isEditing))
      ensures Valid()
    {
      if !confirmed {
        return;
      }
      journals := RemoveById(journals, EntryId, id);
      if selectedJournal.Some? && selectedJournal.value.id == id {
        selectedJournal := None;
        isEditing := false;
      }
    }

    /**
     * `handleCancel`: creating, the form empties and creating ends; editing a
     * selected entry, the form goes back to the entry; otherwise nothing.
     */
    method Cancel()
      requires Valid()
      modifies this
      ensures old(isCreating) ==> State() == old(State()).(isCreating := false, formTitle := "", formContent := "")
      ensures !old(isCreating) && old(isEditing) && old(selectedJournal).Some? ==>
        State() == old(State()).(isEditing := false, formTitle := old(selectedJournal).value.title,
                                 formContent := old(selectedJournal).value.content)
      ensures !old(isCreating) && !(old(isEditing) && old(selectedJournal).Some?) ==> State() == old(State())
      ensures Valid()
    {
      if isCreating {
        isCreating := false;
        formTitle := "";
        formContent := "";
      } else if isEditing && selectedJournal.Some? {
        isEditing := false;
        formTitle := selectedJournal.value.title;
        formContent := selectedJournal.value.content;
      }
    }

    /** `handleBackToList`: back to the list with an empty form and no date filter. */
    method BackToList()
      requires Valid()
      modifies this
      ensures State() == old(State()).(isCreating := false, isEditing := false, selectedJournal := None,
                                       formTitle := "", formContent := "", selectedDate := None)
      ensures Valid()
    {
      isCreating := false;
      isEditing := false;
      selectedJournal := None;
      formTitle := "";
      formContent := "";
      selectedDate := None;
    }

    /** The close button of the view screen's header. */
    method CloseView()
      requires Valid()
      modifies this
      ensures State() == old(State()).(selectedJournal := None, isCreating := false, isEditing := false)
      ensures Valid()
    {
      selectedJournal := None;
      isCreating := false;
      isEditing := false;
    }

    /** `handleDateSelect`: filter the list to one day. */
    method SelectDate(date: string)
      requires Valid()
      modifies this
      ensures State() == old(State()).(selectedDate := Some(date))
      ensures Valid()
    {
      selectedDate := Some(date);
    }

    /** `handleShowAll`: drop the date filter. */
    method ShowAll()
      requires Valid()
      modifies this
      ensures State() == old(State()).(selectedDate := None)
      ensures Valid()
    {
      selectedDate := None;
    }

    /**
     * The header's Save button (`isCreating ? handleSaveNew : handleSaveEdit`)
     * as the page installs it: the handler of the render at the header
     * effect's last run, whose state is `captured`.  Its checks and the entry
     * it writes read the captured title, content, list and selection; its
     * state updates land on the page as it now is.
     */
    method HeaderSave(captured: JournalState, newId: string, today: int, createdAt: string) returns (alerted: bool)
      requires Valid()
      requires DepsOf(captured) == DepsOf(State())
      requires isCreating || isEditing
      modifies this
      ensures captured.isCreating ==> (alerted <==> IsBlank(captured.formTitle) || IsBlank(captured.formContent))
      ensures !captured.isCreating ==>
        (alerted <==> captured.selectedJournal.None? || IsBlank(captured.formTitle) || IsBlank(captured.formContent))
      ensures alerted ==> State() == old(State())
      ensures !alerted && captured.isCreating ==>
        var e := Entry(newId, captured.formTitle, captured.formContent, FormatDate(today), createdAt);
        State() == old(State()).(journals := [e] + captured.journals, selectedJournal := Some(e),
                                 isCreating := false, isEditing := false)
      ensures !alerted && !captured.isCreating ==>
        var u := Revised(captured.selectedJournal.value, captured.formTitle, captured.formContent);
        State() == old(State()).(journals := ReplaceById(captured.journals, EntryId, u.id, u), selectedJournal := Some(u),
                                 isEditing := false)
      ensures Valid()
    {
      if captured.isCreating {
        if IsBlank(captured.formTitle) || IsBlank(captured.formContent) {
          return true;
        }
        var newJournal := Entry(newId, captured.formTitle, captured.formContent, FormatDate(today), createdAt);
        journals := [newJournal] + captured.journals;
        selectedJournal := Some(newJournal);
        isCreating := false;
        isEditing := false;
        return false;
      }
      if captured.selectedJournal.None? || IsBlank(captured.formTitle) || IsBlank(captured.formContent) {
        return true;
      }
      var updated := captured.selectedJournal.value.(title := captured.formTitle, content := captured.formContent);
      journals := ReplaceById(captured.journals, EntryId, updated.id, updated);
      selectedJournal := Some(updated);
      isEditing := false;
      return false;
    }
  }

  // ---------------------------------------------------------------------
  // The header's buttons
  // ---------------------------------------------------------------------

  /**
   * The state the header effect lists as its dependencies.  The effect that
   * installs the header's Save and Cancel buttons runs again only when one of
   * these changes; `formContent` and `journals` are not among them.
   */
  datatype HeaderDeps = HeaderDeps(isCreating: bool, isEditing: bool, selectedJournal: Option<Entry>,
                                   searchQuery: string, formTitle: string)

  function DepsOf(s: JournalState): HeaderDeps {
    HeaderDeps(s.isCreating, s.isEditing, s.selectedJournal, s.searchQuery, s.formTitle)
  }

  /**
   * The state the header's handlers see after a render with state s, given
   * the state they saw before: the effect runs again, capturing s, exactly
   * when a dependency changed.  Either way the captured dependencies are the
   * current ones, while the captured content may lag behind.
   */
  function Recapture(captured: JournalState, s: JournalState): (r: JournalState)
    ensures DepsOf(r) == DepsOf(s)
    ensures r == s || r == captured
    ensures DepsOf(captured) != DepsOf(s) ==> r == s
    ensures DepsOf(captured) == DepsOf(s) ==> r.formContent == captured.formContent && r.journals == captured.journals
  {
    if DepsOf(captured) == DepsOf(s) then captured else s
  }

  /**
   * Writing a new entry from the list screen: create, type, save.  A blank
   * title or content leaves the list as it was; otherwise the list gains
   * exactly the new entry, at the front, and it is the one selected.
   */
  method WriteEntry(initial: seq<Entry>, title: string, content: string, newId: string, today: int, createdAt: string)
    returns (journals: seq<Entry>, selected: Option<Entry>, alerted: bool)
    ensures alerted <==> IsBlank(title) || IsBlank(content)
    ensures alerted ==> journals == initial && selected.None?
    ensures !alerted ==> |journals| == |initial| + 1 && journals[1..] == initial
    ensures !alerted ==> journals[0] == Entry(newId, title, content, FormatDate(today), createdAt)
    ensures !alerted ==> selected == Some(journals[0])
  {
    var page := new JournalPage(initial);
    page.CreateNew();
    page.SetFormTitle(title);
    page.SetFormContent(content);
    alerted := page.SaveNew(newId, today, createdAt);
    journals, selected := page.journals, page.selectedJournal;
  }

  /**
   * Editing the i-th entry: select, edit, retype, save.  Every entry with its
   * id gets the new title and content and keeps its id, day and creation
   * time; the other entries and the length stay as they were.
   */
  method ReviseEntry(initial: seq<Entry>, i: nat, title: string, content: string)
    returns (journals: seq<Entry>, alerted: bool)
    requires i < |initial|
    ensures alerted <==> IsBlank(title) || IsBlank(content)
    ensures alerted ==> journals == initial
    ensures |journals| == |initial|
    ensures !alerted ==> forall j :: 0 <= j < |initial| ==>
      journals[j] == if initial[j].id == initial[i].id then Revised(initial[i], title, content) else initial[j]
  {
    var page := new JournalPage(initial);
    page.SelectJournal(initial[i]);
    page.Edit();
    page.SetFormTitle(title);
    page.SetFormContent(content);
    alerted := page.SaveEdit();
    journals := page.journals;
  }

  /** Abandoning an edit puts the entry's own title and content back in the form, and changes no entry. */
  method AbandonEdit(initial: seq<Entry>, i: nat, title: string, content: string)
    returns (journals: seq<Entry>, formTitle: string, formContent: string, editing: bool)
    requires i < |initial|
    ensures journals == initial
    ensures formTitle == initial[i].title && formContent == initial[i].content
    ensures !editing
  {
    var page := new JournalPage(initial);
    page.SelectJournal(initial[i]);
    page.Edit();
    page.SetFormTitle(title);
    page.SetFormContent(content);
    page.Cancel();
    journals, formTitle, formContent, editing := page.journals, page.formTitle, page.formContent, page.isEditing;
  }

  /**
   * Writing a new entry as the page is written: create, type the title, then
   * the content, and press the header's Save.  The Save handler was last
   * installed when the title changed, when the content was still empty, so
   * it raises the alert and the list stays as it was, whatever was typed.
   */
  method WriteEntryAsWritten(initial: seq<Entry>, title: string, content: string, newId: string, today: int,
                             createdAt: string)
    returns (journals: seq<Entry>, alerted: bool)
    ensures alerted
    ensures journals == initial
  {
    var page := new JournalPage(initial);
    var captured := page.State();
    page.CreateNew();
    captured := Recapture(captured, page.State());
    page.SetFormTitle(title);
    captured := Recapture(captured, page.State());
    assert captured.formContent == "" && captured.journals == initial;
    page.SetFormContent(content);
    captured := Recapture(captured, page.State());
    assert captured.formContent == "" && captured.isCreating;
    alerted := page.HeaderSave(captured, newId, today, createdAt);
    journals := page.journals;
  }

  /**
   * Editing the i-th entry as the page is written: select, edit, retype the
   * title, then the content, and press the header's Save.  The Save handler
   * still holds the entry's own content, so the entry gets the new title and
   * keeps its old content; the content typed is lost.
   */
  method ReviseEntryAsWritten(initial: seq<Entry>, i: nat, title: string, content: string)
    returns (journals: seq<Entry>, alerted: bool)
    requires i < |initial|
    ensures alerted <==> IsBlank(title) || IsBlank(initial[i].content)
    ensures alerted ==> journals == initial
    ensures |journals| == |initial|
    ensures !alerted ==> forall j :: 0 <= j < |initial| ==>
      journals[j] == if initial[j].id == initial[i].id then Revised(initial[i], title, initial[i].content) else initial[j]
  {
    var page := new JournalPage(initial);
    var captured := page.State();
    page.SelectJournal(initial[i]);
    captured := Recapture(captured, page.State());
    page.Edit();
    captured := Recapture(captured, page.State());
    assert captured == page.State();
    page.SetFormTitle(title);
    captured := Recapture(captured, page.State());
    assert captured.formContent == initial[i].content && captured.journals == initial;
    page.SetFormContent(content);
    captured := Recapture(captured, page.State());
    assert captured.formContent == initial[i].content && captured.formTitle == title;
    alerted := page.HeaderSave(captured, "", 0, "");
    journals := page.journals;
  }

  /** A one-letter text is not blank. */
  lemma LetterNotBlank(c: char)
    requires 'a' <= c <= 'z'
    ensures !IsBlank([c])
  {
    BlankIffAllWhitespace([c]);
  }

  /**
   * Title "a", then content "b": the header's Save as written raises the
   * alert, while a Save that reads the form as typed adds the entry.
   */
  method StaleSaveCounterexample(initial: seq<Entry>, newId: string, today: int, createdAt: string)
    returns (writtenAlerted: bool, intendedAlerted: bool, intended: seq<Entry>)
    ensures writtenAlerted && !intendedAlerted
    ensures |intended| == |initial| + 1 && intended[1..] == initial
    ensures intended[0] == Entry(newId, "a", "b", FormatDate(today), createdAt)
  {
    var title: string := ['a'];
    var content: string := ['b'];
    LetterNotBlank('a');
    LetterNotBlank('b');
    var written;
    written, writtenAlerted := WriteEntryAsWritten(initial, title, content, newId, today, createdAt);
    var selected;
    intended, selected, intendedAlerted := WriteEntry(initial, title, content, newId, today, createdAt);
  }
}
