/**
 * The string operations the pages call: `trim()` for blank-input checks,
 * `toLowerCase()` and `includes()` for search, and an ordering of titles for
 * the alphabetical sort.
 */
module Text {

  /**
   * ECMAScript WhiteSpace and LineTerminator code points, the set `trim()`
   * removes: tab, vertical tab, form feed, space, no-break space, the byte
   * order mark, the other space separators (category Zs), line feed,
   * carriage return, line and paragraph separators.
   */
  predicate IsWhitespace(c: char) {
    c == '\t' || c == '\U{000B}' || c == '\U{000C}' || c == ' ' || c == '\U{00A0}' || c == '\U{FEFF}'
    || c == '\U{1680}' || ('\U{2000}' <= c <= '\U{200A}') || c == '\U{202F}' || c == '\U{205F}' || c == '\U{3000}'
    || c == '\n' || c == '\r' || c == '\U{2028}' || c == '\U{2029}'
  }

  function TrimStart(s: string): string {
    if s != [] && IsWhitespace(s[0]) then TrimStart(s[1..]) else s
  }

  function TrimEnd(s: string): string {
    if s != [] && IsWhitespace(s[|s| - 1]) then TrimEnd(s[..|s| - 1]) else s
  }

  /** `s.trim()`. */
  function Trim(s: string): string {
    TrimEnd(TrimStart(s))
  }

  /** `!s.trim()`: the text is empty once trimmed. */
  predicate IsBlank(s: string) {
    Trim(s) == ""
  }

  /** A text is blank exactly when every character of it is white space. */
  lemma {:induction false} BlankIffAllWhitespace(s: string)
    ensures IsBlank(s) <==> forall i :: 0 <= i < |s| ==> IsWhitespace(s[i])
    decreases |s|
  {
    TrimStartAllWhitespace(s);
    var t := TrimStart(s);
    TrimEndEmpty(t);
  }

  lemma {:induction false} TrimStartAllWhitespace(s: string)
    ensures TrimStart(s) == [] <==> forall i :: 0 <= i < |s| ==> IsWhitespace(s[i])
    ensures TrimStart(s) != [] ==> !IsWhitespace(TrimStart(s)[0])
    decreases |s|
  {
    if s != [] && IsWhitespace(s[0]) {
      TrimStartAllWhitespace(s[1..]);
      assert forall i :: 0 < i < |s| ==> s[i] == s[1..][i - 1];
    }
  }

  lemma {:induction false} TrimEndEmpty(t: string)
    requires t != [] ==> !IsWhitespace(t[0])
    ensures TrimEnd(t) == [] <==> t == []
    decreases |t|
  {
    if t != [] && IsWhitespace(t[|t| - 1]) {
      assert |t| > 1;
      TrimEndEmpty(t[..|t| - 1]);
    }
  }

  /** `toLowerCase()` on one character; only the ASCII letters are mapped. */
  function LowerChar(c: char): char {
    if 'A' <= c <= 'Z' then (c as int + 32) as char else c
  }

  /** `s.toLowerCase()`. */
  function ToLower(s: string): (r: string)
    ensures |r| == |s| && forall i :: 0 <= i < |s| ==> r[i] == LowerChar(s[i])
  {
    seq(|s|, i requires 0 <= i < |s| => LowerChar(s[i]))
  }

  /** `s.includes(q)`: q occurs in s at some position (the empty text occurs everywhere). */
  predicate Contains(s: string, q: string)
    decreases |s|
  {
    q <= s || (s != [] && Contains(s[1..], q))
  }

  /** q is the slice of s that starts at index i. */
  predicate OccursAt(s: string, q: string, i: int) {
    0 <= i <= |s| - |q| && q == s[i..i + |q|]
  }

  /** `includes` holds exactly when q is the slice of s at some index. */
  lemma {:induction false} ContainsAt(s: string, q: string)
    ensures Contains(s, q) <==> exists i :: OccursAt(s, q, i)
    decreases |s|
  {
    if q <= s {
      assert OccursAt(s, q, 0);
    } else if s != [] {
      ContainsAt(s[1..], q);
      if Contains(s[1..], q) {
        var i :| OccursAt(s[1..], q, i);
        OccursInTail(s, q, i + 1);
      }
      if exists i :: OccursAt(s, q, i) {
        var i :| OccursAt(s, q, i);
        assert i != 0;
        OccursInTail(s, q, i);
      }
    }
  }

  /** q occurs in s at a positive index i exactly when it occurs in the tail of s at i - 1. */
  lemma OccursInTail(s: string, q: string, i: int)
    requires s != [] && i > 0
    ensures OccursAt(s, q, i) <==> OccursAt(s[1..], q, i - 1)
  {
    if 0 <= i - 1 <= |s| - 1 - |q| {
      assert s[1..][i - 1..i - 1 + |q|] == s[i..i + |q|];
    }
  }

  /** Ordering of titles by UTF-16 code units, standing in for `localeCompare`. */
  predicate LexLeq(a: string, b: string)
    decreases |a|
  {
    a == [] || (b != [] && (a[0] < b[0] || (a[0] == b[0] && LexLeq(a[1..], b[1..]))))
  }

  /** Any two titles are comparable. */
  lemma {:induction false} LexTotal(a: string, b: string)
    ensures LexLeq(a, b) || LexLeq(b, a)
    decreases |a|
  {
    if a != [] && b != [] && a[0] == b[0] {
      LexTotal(a[1..], b[1..]);
    }
  }

  lemma {:induction false} LexTransitive(a: string, b: string, c: string)
    requires LexLeq(a, b) && LexLeq(b, c)
    ensures LexLeq(a, c)
    decreases |a|
  {
    if a != [] && a[0] == b[0] && b[0] == c[0] {
      LexTransitive(a[1..], b[1..], c[1..]);
    }
  }

  lemma {:induction false} LexAntisymmetric(a: string, b: string)
    requires LexLeq(a, b) && LexLeq(b, a)
    ensures a == b
    decreases |a|
  {
    if a != [] {
      LexAntisymmetric(a[1..], b[1..]);
      assert a == [a[0]] + a[1..] && b == [b[0]] + b[1..];
    }
  }
}
