/**
 * How a day cell of the small calendars is highlighted.  The journal calendar
 * and the calendar page's mini calendar build the class list from four
 * guarded fragments; the schedule page's date picker uses a nested conditional.  Both
 * give today precedence over a selected day, and a selected day precedence
 * over the in-month / out-of-month shading.
 */
module CellStyle {

  datatype Style = TodayStyle | SelectedStyle | InMonthStyle | OutOfMonthStyle

  /** The date picker's nested conditional. */
  function PickerStyle(isToday: bool, isSelected: bool, inMonth: bool): Style {
    if isToday then TodayStyle
    else if isSelected then SelectedStyle
    else if inMonth then InMonthStyle
    else OutOfMonthStyle
  }

  /**
   * The fragments of the class list whose guards hold.  Exactly one of them
   * does, and it is the one the precedence order picks.
   */
  function AppliedStyles(isToday: bool, isSelected: bool, inMonth: bool): (r: set<Style>)
    ensures r == {PickerStyle(isToday, isSelected, inMonth)}
    ensures |r| == 1
  {
    (if isToday then {TodayStyle} else {})
    + (if !isToday && isSelected then {SelectedStyle} else {})
    + (if !isToday && !isSelected && inMonth then {InMonthStyle} else {})
    + (if !isToday && !isSelected && !inMonth then {OutOfMonthStyle} else {})
  }

  /** The small dot under a day that has a journal entry: blue on a plain cell, white on a highlighted one. */
  datatype Dot = BlueDot | WhiteDot

  /** The dot fragments whose guards hold: one dot for a day with an entry, none otherwise. */
  function EntryDots(hasEntry: bool, isToday: bool, isSelected: bool): (r: set<Dot>)
    ensures |r| <= 1
    ensures r != {} <==> hasEntry
    ensures WhiteDot in r <==> hasEntry && (isToday || isSelected)
    ensures BlueDot in r <==> hasEntry && !isToday && !isSelected
  {
    (if hasEntry && !isToday && !isSelected then {BlueDot} else {})
    + (if hasEntry && (isToday || isSelected) then {WhiteDot} else {})
  }
}
