/**
 * The JavaScript `Date` arithmetic the pages rely on, with every date reduced
 * to a whole day number: day 0 is 1970-01-01 and day n + 1 is the day after
 * day n.  Local time is taken to be uniform (every day lasts 24 hours), so
 * `setDate(getDate() + k)` is plain addition of k.
 *
 * The civil calendar is the proleptic Gregorian one, as in ECMAScript.
 * Months are numbered from 0 (January) to 11 (December), as `getMonth()`
 * reports them.
 */
module CivilDate {

  /** A broken-down date as `getFullYear()`, `getMonth()` and `getDate()` report it. */
  datatype Civil = Civil(year: int, month: int, day: int)

  predicate IsLeapYear(y: int) {
    y % 4 == 0 && (y % 100 != 0 || y % 400 == 0)
  }

  function YearLength(y: int): int {
    if IsLeapYear(y) then 366 else 365
  }

  function DaysInMonth(y: int, m: int): (n: int)
    requires 0 <= m < 12
    ensures 28 <= n <= 31
    ensures n == 29 <==> m == 1 && IsLeapYear(y)
  {
    if m == 1 then (if IsLeapYear(y) then 29 else 28)
    else if m == 3 || m == 5 || m == 8 || m == 10 then 30
    else 31
  }

  /** A date that `getFullYear`, `getMonth` and `getDate` can report. */
  predicate Valid(c: Civil) {
    0 <= c.month < 12 && 1 <= c.day <= DaysInMonth(c.year, c.month)
  }

  /** Day number of January 1 of year y, counted out year by year from 1970. */
  function YearStart(y: int): int
    decreases if y >= 1970 then y - 1970 else 1970 - y
  {
    if y == 1970 then 0
    else if y > 1970 then YearStart(y - 1) + YearLength(y - 1)
    else YearStart(y + 1) - YearLength(y)
  }

  /** Days of a common year before the first of each month, and the year's length last. */
  const CommonDaysBefore: seq<int> := [0, 31, 59, 90, 120, 151, 181, 212, 243, 273, 304, 334, 365]

  /** Days of year y before the first of month m (m == 12 gives the year's length). */
  function DaysBeforeMonth(y: int, m: int): int
    requires 0 <= m <= 12
  {
    if IsLeapYear(y) && m >= 2 then CommonDaysBefore[m] + 1 else CommonDaysBefore[m]
  }

  /** Day number of the first of month m of year y. */
  function MonthStart(y: int, m: int): int
    requires 0 <= m <= 12
  {
    YearStart(y) + DaysBeforeMonth(y, m)
  }

  /**
   * `new Date(year, month, date)` as a day number (ECMAScript MakeDay): the
   * month is normalised into a year by floor division by 12, and the day of
   * the month may be any integer, 0 meaning the last day of the month before.
   */
  function MakeDay(year: int, month: int, date: int): int {
    var am := 12 * year + month;
    MonthStart(am / 12, am % 12) + date - 1
  }

  /** `getDay()`: 0 for Sunday up to 6 for Saturday; 1970-01-01 was a Thursday. */
  function Weekday(n: int): (w: int)
    ensures 0 <= w < 7
  {
    (n + 4) % 7
  }

  /** The date of day number n: `getFullYear()`, `getMonth()`, `getDate()`. */
  function ToCivil(n: int): (c: Civil)
    ensures Valid(c)
    ensures MonthStart(c.year, c.month) + c.day - 1 == n
  {
    CivilFrom(1970, n)
  }

  /** The date of day number n, found by stepping year by year from year y. */
  function CivilFrom(y: int, n: int): (c: Civil)
    ensures Valid(c)
    ensures MonthStart(c.year, c.month) + c.day - 1 == n
    decreases if n < YearStart(y) then YearStart(y) - n else if n >= YearStart(y + 1) then n - YearStart(y) else 0
  {
    YearStartStep(y);
    YearStartStep(y - 1);
    if n < YearStart(y) then CivilFrom(y - 1, n)
    else if n >= YearStart(y + 1) then
      YearStartStep(y + 1);
      CivilFrom(y + 1, n)
    else
      var m := MonthOf(y, n, 0);
      MonthLength(y, m);
      Civil(y, m, n - MonthStart(y, m) + 1)
  }

  /** The month of year y that day number n falls in, searched from month m on. */
  function MonthOf(y: int, n: int, m: int): (r: int)
    requires 0 <= m < 12 && MonthStart(y, m) <= n < YearStart(y + 1)
    ensures m <= r < 12 && MonthStart(y, r) <= n < MonthStart(y, r + 1)
    decreases 12 - m
  {
    YearStartStep(y);
    if m == 11 || n < MonthStart(y, m + 1) then m else MonthOf(y, n, m + 1)
  }

  // ---------------------------------------------------------------------
  // Lemmas
  // ---------------------------------------------------------------------

  /** Within one year, `new Date(y, m, d)` needs no normalisation of the month. */
  lemma MakeDayInYear(y: int, m: int, d: int)
    requires 0 <= m < 12
    ensures MakeDay(y, m, d) == MonthStart(y, m) + d - 1
  {
    var am := 12 * y + m;
    assert am == 12 * (am / 12) + am % 12;
    assert am / 12 == y;
  }

  /** Consecutive years follow each other without gap or overlap. */
  lemma YearStartStep(y: int)
    ensures YearStart(y + 1) == YearStart(y) + YearLength(y)
    ensures MonthStart(y, 12) == YearStart(y + 1)
  {
  }

  lemma {:induction false} YearStartMonotone(a: int, b: int)
    requires a < b
    ensures YearStart(a + 1) <= YearStart(b)
    decreases b - a
  {
    if a + 1 < b {
      YearStartMonotone(a + 1, b);
      YearStartStep(a + 1);
    }
  }

  /** The months of a year follow each other: month m lasts DaysInMonth(y, m) days. */
  lemma MonthLength(y: int, m: int)
    requires 0 <= m < 12
    ensures MonthStart(y, m + 1) == MonthStart(y, m) + DaysInMonth(y, m)
  {
  }

  lemma MonthStartMonotone(y: int, a: int, b: int)
    requires 0 <= a < b <= 12
    ensures MonthStart(y, a + 1) <= MonthStart(y, b)
  {
  }

  /** The first of the month after the month of absolute index am = 12 * year + month. */
  lemma MonthStep(year: int, month: int)
    ensures MakeDay(year, month + 1, 1) == MakeDay(year, month, 1) + DaysInMonth((12 * year + month) / 12, (12 * year + month) % 12)
  {
    var am := 12 * year + month;
    var y, m := am / 12, am % 12;
    assert am == 12 * y + m;
    if m < 11 {
      assert (am + 1) / 12 == y && (am + 1) % 12 == m + 1;
      MonthLength(y, m);
    } else {
      assert (am + 1) / 12 == y + 1 && (am + 1) % 12 == 0;
      MonthLength(y, m);
      YearStartStep(y);
    }
  }

  /** Only one year brackets a day number. */
  lemma YearUnique(a: int, b: int, n: int)
    requires YearStart(a) <= n < YearStart(a + 1)
    requires YearStart(b) <= n < YearStart(b + 1)
    ensures a == b
  {
    if a < b {
      YearStartMonotone(a, b);
    } else if b < a {
      YearStartMonotone(b, a);
    }
  }

  /** Only one month of a year brackets a day number. */
  lemma MonthUnique(y: int, a: int, b: int, n: int)
    requires 0 <= a < 12 && 0 <= b < 12
    requires MonthStart(y, a) <= n < MonthStart(y, a + 1)
    requires MonthStart(y, b) <= n < MonthStart(y, b + 1)
    ensures a == b
  {
    if a < b {
      MonthStartMonotone(y, a, b);
    } else if b < a {
      MonthStartMonotone(y, b, a);
    }
  }

  /** A valid date's day number lies in its own month and year. */
  lemma InOwnMonth(c: Civil)
    requires Valid(c)
    ensures MonthStart(c.year, c.month) <= MakeDay(c.year, c.month, c.day) < MonthStart(c.year, c.month + 1)
    ensures YearStart(c.year) <= MakeDay(c.year, c.month, c.day) < YearStart(c.year + 1)
    ensures MakeDay(c.year, c.month, c.day) == MonthStart(c.year, c.month) + c.day - 1
  {
    MakeDayInYear(c.year, c.month, c.day);
    MonthLength(c.year, c.month);
    if c.month < 11 {
      MonthStartMonotone(c.year, c.month + 1, 12);
    }
    YearStartStep(c.year);
  }

  lemma SameYear(a: Civil, b: Civil)
    requires Valid(a) && Valid(b)
    requires MakeDay(a.year, a.month, a.day) == MakeDay(b.year, b.month, b.day)
    ensures a.year == b.year
  {
    InOwnMonth(a);
    InOwnMonth(b);
    YearUnique(a.year, b.year, MakeDay(a.year, a.month, a.day));
  }

  lemma SameMonth(a: Civil, b: Civil)
    requires Valid(a) && Valid(b) && a.year == b.year
    requires MakeDay(a.year, a.month, a.day) == MakeDay(b.year, b.month, b.day)
    ensures a.month == b.month
  {
    InOwnMonth(a);
    InOwnMonth(b);
    MonthUnique(a.year, a.month, b.month, MakeDay(a.year, a.month, a.day));
  }

  /** Two valid dates with the same day number are the same date. */
  lemma CivilUnique(a: Civil, b: Civil)
    requires Valid(a) && Valid(b)
    requires MakeDay(a.year, a.month, a.day) == MakeDay(b.year, b.month, b.day)
    ensures a == b
  {
    SameYear(a, b);
    SameMonth(a, b);
    MakeDayInYear(a.year, a.month, a.day);
    MakeDayInYear(b.year, b.month, b.day);
  }

  /** `new Date(y, m, d)` for an in-range date is that very date: `ToCivil` undoes `MakeDay`. */
  lemma ToCivilMakeDay(c: Civil)
    requires Valid(c)
    ensures ToCivil(MakeDay(c.year, c.month, c.day)) == c
  {
    CivilUnique(ToCivil(MakeDay(c.year, c.month, c.day)), c);
  }

  /** The k-th day number of month m of year y reads back as the date (y, m, k). */
  lemma DayOfMonth(y: int, m: int, k: int)
    requires 0 <= m < 12 && 1 <= k <= DaysInMonth(y, m)
    ensures ToCivil(MonthStart(y, m) + k - 1) == Civil(y, m, k)
  {
    MakeDayInYear(y, m, k);
    ToCivilMakeDay(Civil(y, m, k));
  }

  /** `new Date(year, month, 1)` is the first of the month that `month` normalises to. */
  lemma FirstOfMonth(year: int, month: int)
    ensures ToCivil(MakeDay(year, month, 1)) == Civil((12 * year + month) / 12, (12 * year + month) % 12, 1)
  {
    var am := 12 * year + month;
    assert MakeDay(year, month, 1) == MakeDay(am / 12, am % 12, 1) by {
      assert 12 * (am / 12) + am % 12 == am;
    }
    ToCivilMakeDay(Civil(am / 12, am % 12, 1));
  }

  /** `new Date(y, m - 1, 1)`: the first of the month before, December of the year before for January. */
  lemma PreviousMonthFirst(y: int, m: int)
    requires 0 <= m < 12
    ensures ToCivil(MakeDay(y, m - 1, 1)) == if m == 0 then Civil(y - 1, 11, 1) else Civil(y, m - 1, 1)
  {
    FirstOfMonth(y, m - 1);
    if m == 0 {
      DivMod12(y - 1, 11);
    } else {
      DivMod12(y, m - 1);
    }
  }

  /** `new Date(y, m + 1, 1)`: the first of the month after, January of the year after for December. */
  lemma NextMonthFirst(y: int, m: int)
    requires 0 <= m < 12
    ensures ToCivil(MakeDay(y, m + 1, 1)) == if m == 11 then Civil(y + 1, 0, 1) else Civil(y, m + 1, 1)
  {
    FirstOfMonth(y, m + 1);
    if m == 11 {
      DivMod12(y + 1, 0);
    } else {
      DivMod12(y, m + 1);
    }
  }

  /** Each month ends where the next begins, across the turn of the year too. */
  lemma AdjacentMonths(y: int, m: int)
    requires 0 <= m < 12
    ensures m > 0 ==> MonthStart(y, m - 1) + DaysInMonth(y, m - 1) == MonthStart(y, m)
    ensures m == 0 ==> MonthStart(y - 1, 11) + DaysInMonth(y - 1, 11) == MonthStart(y, 0)
    ensures m < 11 ==> MonthStart(y, m) + DaysInMonth(y, m) == MonthStart(y, m + 1)
    ensures m == 11 ==> MonthStart(y, 11) + DaysInMonth(y, 11) == MonthStart(y + 1, 0)
  {
    MonthLength(y, m);
    YearStartStep(y);
    if m > 0 {
      MonthLength(y, m - 1);
    } else {
      MonthLength(y - 1, 11);
      YearStartStep(y - 1);
    }
  }

  /** A day number between the first of month m and the first of the next month lies in month m. */
  lemma InMonth(y: int, m: int, d: int)
    requires 0 <= m < 12 && MonthStart(y, m) <= d < MonthStart(y, m + 1)
    ensures ToCivil(d).year == y && ToCivil(d).month == m
  {
    var c := ToCivil(d);
    MonthInYear(y, m, d);
    InOwnMonth(c);
    YearUnique(c.year, y, d);
    MonthUnique(y, c.month, m, d);
  }

  /** A day number within month m of year y lies within year y. */
  lemma MonthInYear(y: int, m: int, d: int)
    requires 0 <= m < 12 && MonthStart(y, m) <= d < MonthStart(y, m + 1)
    ensures YearStart(y) <= d < YearStart(y + 1)
  {
    MonthStartMonotone(y, m, 12);
    YearStartStep(y);
  }

  /** The week before the first of January lies in December. */
  lemma WeekBeforeYear(y: int, d: int)
    requires MonthStart(y, 0) - 7 < d < MonthStart(y, 0)
    ensures ToCivil(d).month == 11
  {
    MonthLength(y - 1, 11);
    YearStartStep(y - 1);
    InMonth(y - 1, 11, d);
  }

  /** The week before the first of a later month lies in the month before it. */
  lemma WeekBeforeLaterMonth(y: int, m: int, d: int)
    requires 0 < m < 12
    requires MonthStart(y, m) - 7 < d < MonthStart(y, m)
    ensures ToCivil(d).month == m - 1
  {
    MonthLength(y, m - 1);
    InMonth(y, m - 1, d);
  }

  /** The week after the last of December lies in January. */
  lemma WeekAfterYear(y: int, d: int)
    requires MonthStart(y, 12) <= d < MonthStart(y, 12) + 7
    ensures ToCivil(d).month == 0
  {
    YearStartStep(y);
    MonthLength(y + 1, 0);
    InMonth(y + 1, 0, d);
  }

  /** The week after the last day of an earlier month lies in the month after it. */
  lemma WeekAfterEarlierMonth(y: int, m: int, d: int)
    requires 0 <= m < 11
    requires MonthStart(y, m + 1) <= d < MonthStart(y, m + 1) + 7
    ensures ToCivil(d).month == m + 1
  {
    MonthLength(y, m + 1);
    InMonth(y, m + 1, d);
  }

  /** Within a week of month m, a day has month index m exactly when it lies inside month m. */
  lemma MonthIndexNearMonth(y: int, m: int, d: int)
    requires 0 <= m < 12
    requires MonthStart(y, m) - 7 < d < MonthStart(y, m + 1) + 7
    ensures ToCivil(d).month == m <==> MonthStart(y, m) <= d < MonthStart(y, m + 1)
  {
    if d < MonthStart(y, m) {
      if m == 0 {
        WeekBeforeYear(y, d);
      } else {
        WeekBeforeLaterMonth(y, m, d);
      }
    } else if d >= MonthStart(y, m + 1) {
      if m == 11 {
        WeekAfterYear(y, d);
      } else {
        WeekAfterEarlierMonth(y, m, d);
      }
    } else {
      InMonth(y, m, d);
    }
  }

  lemma DivMod12(q: int, r: int)
    requires 0 <= r < 12
    ensures (12 * q + r) / 12 == q && (12 * q + r) % 12 == r
  {
  }

  /** Day numbers and valid dates are in one-to-one correspondence. */
  lemma ToCivilInjective(a: int, b: int)
    ensures ToCivil(a) == ToCivil(b) <==> a == b
  {
  }

  /** The weekday advances by one each day. */
  lemma WeekdayNext(n: int)
    ensures Weekday(n + 1) == (Weekday(n) + 1) % 7
  {
  }

  /** Stepping back Weekday(n) days from n lands on the Sunday on or before n. */
  lemma SundayOnOrBefore(n: int)
    ensures Weekday(n - Weekday(n)) == 0
    ensures Weekday(n + (6 - Weekday(n))) == 6
  {
  }

  /** Adding k days moves the weekday by k modulo 7. */
  lemma WeekdayShift(n: int, k: int)
    ensures Weekday(n + k) == (Weekday(n) + k) % 7
  {
  }
}
