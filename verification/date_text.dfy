/**
 * The `YYYY-MM-DD` text that the dashboard, the journal calendar and the
 * calendar's date inputs build from a local date:
 * `${getFullYear()}-${String(getMonth() + 1).padStart(2, '0')}-${String(getDate()).padStart(2, '0')}`.
 */
module DateText {
  import opened CivilDate

  /** The decimal digit character for 0 <= d < 10. */
  function Digit(d: int): (c: char)
    requires 0 <= d < 10
    ensures '0' <= c <= '9'
  {
    (48 + d) as char
  }

  predicate IsDigit(c: char) {
    '0' <= c <= '9'
  }

  /** `String(n)` for a non-negative integer: its decimal digits, without leading zeros. */
  function NatToString(n: nat): (s: string)
    ensures |s| >= 1 && forall i :: 0 <= i < |s| ==> IsDigit(s[i])
    ensures n < 10 <==> |s| == 1
  {
    if n < 10 then [Digit(n)] else NatToString(n / 10) + [Digit(n % 10)]
  }

  /** `String(i)` for any integer: a minus sign before the digits of a negative one. */
  function IntToString(i: int): string {
    if i < 0 then "-" + NatToString(-i) else NatToString(i)
  }

  /** `s.padStart(width, pad)` with a one-character pad. */
  function PadStart(s: string, width: nat, pad: char): (r: string)
    ensures |r| == if |s| >= width then |s| else width
    ensures r[|r| - |s|..] == s
  {
    if |s| >= width then s else seq(width - |s|, _ => pad) + s
  }

  /** A month or day number as the pages print it: two digits, zero-padded. */
  function TwoDigits(k: nat): string {
    PadStart(NatToString(k), 2, '0')
  }

  /** The month and day ranges that every valid date keeps to (see `CivilDate.Valid`). */
  predicate InRange(c: Civil) {
    0 <= c.month < 12 && 1 <= c.day <= 31
  }

  /** The text of a broken-down date. */
  function FormatCivil(c: Civil): string
    requires c.month + 1 >= 0 && c.day >= 0
  {
    IntToString(c.year) + "-" + TwoDigits(c.month + 1) + "-" + TwoDigits(c.day)
  }

  /** `formatDate(date)` of the pages: the local date of day number n as text. */
  function FormatDate(n: int): string {
    var c := ToCivil(n);
    FormatCivil(c)
  }

  // ---------------------------------------------------------------------
  // Lemmas
  // ---------------------------------------------------------------------

  lemma DigitInjective(a: int, b: int)
    requires 0 <= a < 10 && 0 <= b < 10
    ensures Digit(a) == Digit(b) <==> a == b
  {
  }

  /** A number below 100 is printed as exactly two digits, tens then units. */
  lemma TwoDigitsOf(k: nat)
    requires k < 100
    ensures TwoDigits(k) == [Digit(k / 10), Digit(k % 10)]
  {
    if k >= 10 {
      assert NatToString(k) == NatToString(k / 10) + [Digit(k % 10)];
      assert NatToString(k / 10) == [Digit(k / 10)];
    }
  }

  lemma TwoDigitsInjective(a: nat, b: nat)
    requires a < 100 && b < 100
    requires TwoDigits(a) == TwoDigits(b)
    ensures a == b
  {
    TwoDigitsOf(a);
    TwoDigitsOf(b);
    DigitInjective(a / 10, b / 10);
    DigitInjective(a % 10, b % 10);
  }

  /** Different numbers have different decimal texts. */
  lemma {:induction false} NatToStringInjective(a: nat, b: nat)
    requires NatToString(a) == NatToString(b)
    ensures a == b
  {
    var s := NatToString(a);
    if a < 10 {
      assert b < 10;
      DigitInjective(a, b);
    } else {
      assert b >= 10;
      assert s[|s| - 1] == Digit(a % 10) == Digit(b % 10);
      DigitInjective(a % 10, b % 10);
      assert NatToString(a / 10) == s[..|s| - 1] == NatToString(b / 10);
      NatToStringInjective(a / 10, b / 10);
    }
  }

  lemma IntToStringInjective(a: int, b: int)
    requires IntToString(a) == IntToString(b)
    ensures a == b
  {
    assert (a < 0) == (IntToString(a)[0] == '-');
    assert (b < 0) == (IntToString(b)[0] == '-');
    if a < 0 {
      assert NatToString(-a) == IntToString(a)[1..] == IntToString(b)[1..] == NatToString(-b);
      NatToStringInjective(-a, -b);
    } else {
      NatToStringInjective(a, b);
    }
  }

  /**
   * The shape of the text: the year as `String` prints it, a dash, the month
   * (1 to 12) as two digits, a dash, the day of the month as two digits.
   */
  lemma FormatCivilShape(c: Civil)
    requires InRange(c)
    ensures FormatCivil(c) == IntToString(c.year) + "-" + [Digit((c.month + 1) / 10), Digit((c.month + 1) % 10)]
                              + "-" + [Digit(c.day / 10), Digit(c.day % 10)]
  {
    assert c.month + 1 < 100 && c.day < 100;
    FormatParts(c.year, c.month + 1, c.day);
  }

  lemma FormatParts(y: int, m: nat, d: nat)
    requires m < 100 && d < 100
    ensures IntToString(y) + "-" + TwoDigits(m) + "-" + TwoDigits(d)
         == IntToString(y) + "-" + [Digit(m / 10), Digit(m % 10)] + "-" + [Digit(d / 10), Digit(d % 10)]
  {
    TwoDigitsOf(m);
    TwoDigitsOf(d);
  }

  /** The six characters after the year: `-MM-DD`. */
  function MonthDayTail(c: Civil): (t: string)
    requires InRange(c)
    ensures |t| == 6 && t[0] == '-' && t[3] == '-'
  {
    "-" + [Digit((c.month + 1) / 10), Digit((c.month + 1) % 10)] + "-" + [Digit(c.day / 10), Digit(c.day % 10)]
  }

  lemma FormatCivilSplit(c: Civil)
    requires InRange(c)
    ensures FormatCivil(c) == IntToString(c.year) + MonthDayTail(c)
  {
    FormatParts(c.year, c.month + 1, c.day);
    Regroup(IntToString(c.year), [Digit((c.month + 1) / 10), Digit((c.month + 1) % 10)], [Digit(c.day / 10), Digit(c.day % 10)]);
  }

  lemma Regroup(p: string, x: string, y: string)
    ensures p + "-" + x + "-" + y == p + ("-" + x + "-" + y)
  {
  }

  lemma SplitEqualTails(p1: string, t1: string, p2: string, t2: string)
    requires p1 + t1 == p2 + t2 && |t1| == |t2|
    ensures p1 == p2 && t1 == t2
  {
    assert p1 == (p1 + t1)[..|p1|];
    assert p2 == (p2 + t2)[..|p2|];
    assert t1 == (p1 + t1)[|p1|..];
    assert t2 == (p2 + t2)[|p2|..];
  }

  /** For the years 1000 to 9999 the text has exactly the ten characters of `YYYY-MM-DD`. */
  lemma FormatCivilLength(c: Civil)
    requires InRange(c) && 1000 <= c.year <= 9999
    ensures |FormatCivil(c)| == 10
    ensures FormatCivil(c)[4] == '-' && FormatCivil(c)[7] == '-'
    ensures forall i :: 0 <= i < 10 && i != 4 && i != 7 ==> IsDigit(FormatCivil(c)[i])
  {
    FormatCivilSplit(c);
    FourDigitYear(c.year);
    TailDigits(c);
    ConcatTen(IntToString(c.year), MonthDayTail(c));
  }

  lemma TailDigits(c: Civil)
    requires InRange(c)
    ensures forall i :: 0 <= i < 6 && i != 0 && i != 3 ==> IsDigit(MonthDayTail(c)[i])
  {
  }

  lemma ConcatTen(p: string, t: string)
    requires |p| == 4 && forall i :: 0 <= i < 4 ==> IsDigit(p[i])
    requires |t| == 6 && t[0] == '-' && t[3] == '-'
    requires forall i :: 0 <= i < 6 && i != 0 && i != 3 ==> IsDigit(t[i])
    ensures |p + t| == 10 && (p + t)[4] == '-' && (p + t)[7] == '-'
    ensures forall i :: 0 <= i < 10 && i != 4 && i != 7 ==> IsDigit((p + t)[i])
  {
    forall i | 0 <= i < 10 && i != 4 && i != 7
      ensures IsDigit((p + t)[i])
    {
      if i >= 4 {
        assert (p + t)[i] == t[i - 4];
      }
    }
  }

  lemma FourDigitYear(y: int)
    requires 1000 <= y <= 9999
    ensures |IntToString(y)| == 4
    ensures forall i :: 0 <= i < 4 ==> IsDigit(IntToString(y)[i])
  {
    var n: nat := y;
    assert NatToString(n) == NatToString(n / 10) + [Digit(n % 10)];
    assert NatToString(n / 10) == NatToString(n / 100) + [Digit(n / 10 % 10)];
    assert NatToString(n / 100) == NatToString(n / 1000) + [Digit(n / 100 % 10)];
    assert |NatToString(n / 1000)| == 1;
  }

  lemma SplitFormatted(a: Civil, b: Civil)
    requires InRange(a) && InRange(b)
    requires FormatCivil(a) == FormatCivil(b)
    ensures IntToString(a.year) == IntToString(b.year) && MonthDayTail(a) == MonthDayTail(b)
  {
    FormatCivilSplit(a);
    FormatCivilSplit(b);
    SplitEqualTails(IntToString(a.year), MonthDayTail(a), IntToString(b.year), MonthDayTail(b));
  }

  lemma MonthDayTailInjective(a: Civil, b: Civil)
    requires InRange(a) && InRange(b)
    requires MonthDayTail(a) == MonthDayTail(b)
    ensures a.month == b.month && a.day == b.day
  {
    var ta, tb := MonthDayTail(a), MonthDayTail(b);
    assert ta[1] == tb[1] && ta[2] == tb[2] && ta[4] == tb[4] && ta[5] == tb[5];
    DigitInjective((a.month + 1) / 10, (b.month + 1) / 10);
    DigitInjective((a.month + 1) % 10, (b.month + 1) % 10);
    DigitInjective(a.day / 10, b.day / 10);
    DigitInjective(a.day % 10, b.day % 10);
  }

  /** Different dates in range have different texts. */
  lemma FormatCivilInjective(a: Civil, b: Civil)
    requires InRange(a) && InRange(b)
    requires FormatCivil(a) == FormatCivil(b)
    ensures a == b
  {
    SplitFormatted(a, b);
    IntToStringInjective(a.year, b.year);
    MonthDayTailInjective(a, b);
  }

  /** A four-digit year gives exactly the ten characters of `YYYY-MM-DD`. */
  lemma FormatDateLength(n: int)
    requires 1000 <= ToCivil(n).year <= 9999
    ensures |FormatDate(n)| == 10
    ensures FormatDate(n)[4] == '-' && FormatDate(n)[7] == '-'
    ensures forall i :: 0 <= i < 10 && i != 4 && i != 7 ==> IsDigit(FormatDate(n)[i])
  {
    FormatCivilLength(ToCivil(n));
  }

  /** Two days with the same `YYYY-MM-DD` text are the same day. */
  lemma FormatDateInjective(a: int, b: int)
    requires FormatDate(a) == FormatDate(b)
    ensures a == b
  {
    FormatCivilInjective(ToCivil(a), ToCivil(b));
  }

  /** `isToday`: the pages compare the formatted texts of today and the day. */
  predicate IsToday(today: int, d: int) {
    FormatDate(today) == FormatDate(d)
  }

  /** Comparing the texts is comparing the days. */
  lemma IsTodayIff(today: int, d: int)
    ensures IsToday(today, d) <==> d == today
  {
    if IsToday(today, d) {
      FormatDateInjective(today, d);
    }
  }
}
