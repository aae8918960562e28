/**
 * `Array.prototype.filter` and the facts about it that the pages rely on:
 * the result keeps exactly the elements the predicate accepts, as many times
 * as they occur, in their original order.
 */
module Seqs {

  /** a can be obtained from b by deleting elements (order is kept). */
  predicate IsSubsequence<T(==)>(a: seq<T>, b: seq<T>) {
    if a == [] then true
    else if b == [] then false
    else if a[0] == b[0] then IsSubsequence(a[1..], b[1..])
    else IsSubsequence(a, b[1..])
  }

  /** `s.filter(p)`. */
  function Filter<T(==,!new)>(s: seq<T>, p: T -> bool): (r: seq<T>)
    ensures |r| <= |s|
    ensures IsSubsequence(r, s)
    ensures forall x :: x in r <==> x in s && p(x)
    ensures forall x :: multiset(r)[x] == if p(x) then multiset(s)[x] else 0
  {
    if s == [] then []
    else
      var rest := Filter(s[1..], p);
      assert s == [s[0]] + s[1..];
      SubsequenceTail(rest, s);
      if p(s[0]) then [s[0]] + rest else rest
  }

  /** `s.map(y => key(y) === k ? x : y)`: every element whose id is k becomes x. */
  function ReplaceById<T>(s: seq<T>, key: T -> string, k: string, x: T): (r: seq<T>)
    ensures |r| == |s|
    ensures forall i :: 0 <= i < |s| ==> r[i] == if key(s[i]) == k then x else s[i]
  {
    seq(|s|, i requires 0 <= i < |s| => if key(s[i]) == k then x else s[i])
  }

  /** `s.filter(y => key(y) !== k)`: the elements whose id is not k. */
  function RemoveById<T(==,!new)>(s: seq<T>, key: T -> string, k: string): (r: seq<T>)
    ensures IsSubsequence(r, s)
    ensures forall y :: y in r <==> y in s && key(y) != k
    ensures forall y :: key(y) != k ==> multiset(r)[y] == multiset(s)[y]
  {
    Filter(s, (y: T) => key(y) != k)
  }

  /** A subsequence of the tail is a subsequence of the whole. */
  lemma {:induction false} SubsequenceTail<T>(a: seq<T>, b: seq<T>)
    requires b != [] && IsSubsequence(a, b[1..])
    ensures IsSubsequence(a, b)
    decreases |b|, 0
  {
    if a != [] && a[0] == b[0] {
      SubsequenceDrop(a, b[1..]);
    }
  }

  /** Dropping the first element of a subsequence keeps it a subsequence. */
  lemma {:induction false} SubsequenceDrop<T>(a: seq<T>, b: seq<T>)
    requires a != [] && IsSubsequence(a, b)
    ensures IsSubsequence(a[1..], b)
    decreases |b|, 1
  {
    if a[0] == b[0] {
      SubsequenceTail(a[1..], b);
    } else {
      SubsequenceDrop(a, b[1..]);
      SubsequenceTail(a[1..], b);
    }
  }

  /** A subsequence of a subsequence is a subsequence. */
  lemma {:induction false} SubsequenceTrans<T>(a: seq<T>, b: seq<T>, c: seq<T>)
    requires IsSubsequence(a, b) && IsSubsequence(b, c)
    ensures IsSubsequence(a, c)
    decreases |c|
  {
    if a == [] {
    } else if b[0] == c[0] {
      if a[0] == b[0] {
        SubsequenceTrans(a[1..], b[1..], c[1..]);
      } else {
        SubsequenceTrans(a, b[1..], c[1..]);
      }
    } else {
      SubsequenceTrans(a, b, c[1..]);
      SubsequenceTail(a, c);
    }
  }

  /** Filtering with a predicate that accepts every element changes nothing. */
  lemma {:induction false} FilterAll<T(!new)>(s: seq<T>, p: T -> bool)
    requires forall x :: x in s ==> p(x)
    ensures Filter(s, p) == s
  {
    if s != [] {
      FilterAll(s[1..], p);
    }
  }

  /** Filtering sequences that filter alike, behind the same first element, gives the same result. */
  lemma FilterConsCongruent<T(!new)>(a: T, s: seq<T>, t: seq<T>, p: T -> bool)
    requires Filter(s, p) == Filter(t, p)
    ensures Filter([a] + s, p) == Filter([a] + t, p)
  {
    assert ([a] + s)[1..] == s;
    assert ([a] + t)[1..] == t;
  }

  /** Two leading elements swap places without changing the filter when at most one of them passes it. */
  lemma FilterSwapFront<T(!new)>(a: T, b: T, t: seq<T>, p: T -> bool)
    requires !(p(a) && p(b))
    ensures Filter([b] + ([a] + t), p) == Filter([a] + ([b] + t), p)
  {
    assert ([b] + ([a] + t))[1..] == [a] + t;
    assert ([a] + ([b] + t))[1..] == [b] + t;
    assert ([a] + t)[1..] == t;
    assert ([b] + t)[1..] == t;
  }

  /** Filtering distributes over concatenation. */
  lemma {:induction false} FilterAppend<T(!new)>(a: seq<T>, b: seq<T>, p: T -> bool)
    ensures Filter(a + b, p) == Filter(a, p) + Filter(b, p)
  {
    if a == [] {
      assert a + b == b;
    } else {
      assert (a + b)[1..] == a[1..] + b;
      FilterAppend(a[1..], b, p);
    }
  }

  /** Contiguous run of integers: each element is one more than the one before. */
  predicate Consecutive(s: seq<int>) {
    forall i :: 0 < i < |s| ==> s[i] == s[i - 1] + 1
  }

  /** The integers lo, lo + 1, ..., hi (empty when lo > hi). */
  function Span(lo: int, hi: int): (r: seq<int>)
    decreases hi - lo
  {
    if lo > hi then [] else [lo] + Span(lo + 1, hi)
  }

  /** Span(lo, hi) has hi - lo + 1 elements, the i-th being lo + i. */
  lemma {:induction false} SpanAt(lo: int, hi: int)
    ensures |Span(lo, hi)| == if lo > hi then 0 else hi - lo + 1
    ensures forall i :: 0 <= i < |Span(lo, hi)| ==> Span(lo, hi)[i] == lo + i
    decreases hi - lo
  {
    if lo <= hi {
      SpanAt(lo + 1, hi);
    }
  }

  /** The members of Span(lo, hi) are exactly the integers from lo to hi. */
  lemma SpanMember(lo: int, hi: int, x: int)
    ensures x in Span(lo, hi) <==> lo <= x <= hi
  {
    SpanAt(lo, hi);
    if lo <= x <= hi {
      assert Span(lo, hi)[x - lo] == x;
    }
  }

  /** Appending the next integer extends a span by one. */
  lemma SpanSnoc(lo: int, hi: int)
    requires lo <= hi + 1
    ensures Span(lo, hi) + [hi + 1] == Span(lo, hi + 1)
  {
    SpanAt(lo, hi);
    SpanAt(lo, hi + 1);
  }

  /** Two adjacent spans make one. */
  lemma SpanAppend(lo: int, mid: int, hi: int)
    requires lo <= mid <= hi + 1
    ensures Span(lo, mid - 1) + Span(mid, hi) == Span(lo, hi)
  {
    SpanAt(lo, mid - 1);
    SpanAt(mid, hi);
    SpanAt(lo, hi);
  }

  /** Three adjacent spans make one. */
  lemma SpanAppend3(lo: int, mid1: int, mid2: int, hi: int)
    requires lo <= mid1 <= mid2 <= hi + 1
    ensures Span(lo, mid1 - 1) + Span(mid1, mid2 - 1) + Span(mid2, hi) == Span(lo, hi)
  {
    SpanAppend(lo, mid1, mid2 - 1);
    SpanAppend(lo, mid2, hi);
  }
}
