/** Sequence helpers used by both scripts: order-preserving filtering
    (pandas boolean masks), ascending sort (`sort_values`) and the
    consecutive differences of a sequence (`diff().dropna()`). */
module Seqs {

  /** The elements of `xs` that satisfy `keep`, in their original order. */
  function Filter<T(==)>(xs: seq<T>, keep: T -> bool): (r: seq<T>)
    ensures |r| <= |xs|
    ensures forall k :: 0 <= k < |r| ==> keep(r[k]) && r[k] in xs
    ensures forall k :: 0 <= k < |xs| && keep(xs[k]) ==> xs[k] in r
  {
    if |xs| == 0 then []
    else if keep(xs[0]) then [xs[0]] + Filter(xs[1..], keep)
    else Filter(xs[1..], keep)
  }

  /** Filtering commutes with concatenation: it never reorders rows. */
  lemma {:induction false} FilterConcat<T>(a: seq<T>, b: seq<T>, keep: T -> bool)
    ensures Filter(a + b, keep) == Filter(a, keep) + Filter(b, keep)
  {
    if |a| == 0 {
      assert a + b == b;
    } else {
      assert (a + b)[1..] == a[1..] + b;
      FilterConcat(a[1..], b, keep);
    }
  }

  /** Each value occurs in the filtered sequence exactly as often as in the
      input when it is kept, and not at all otherwise. */
  lemma {:induction false} FilterMultiset<T>(xs: seq<T>, keep: T -> bool)
    ensures forall x :: multiset(Filter(xs, keep))[x] == if keep(x) then multiset(xs)[x] else 0
  {
    if |xs| > 0 {
      assert xs == [xs[0]] + xs[1..];
      FilterMultiset(xs[1..], keep);
    }
  }

  /** `a` can be obtained from `b` by deleting elements. */
  predicate IsSubsequence<T(==)>(a: seq<T>, b: seq<T>)
    decreases |b|
  {
    if |a| == 0 then true
    else if |b| == 0 then false
    else if a[0] == b[0] then IsSubsequence(a[1..], b[1..])
    else IsSubsequence(a, b[1..])
  }

  lemma {:induction false} FilterIsSubsequence<T>(xs: seq<T>, keep: T -> bool)
    ensures IsSubsequence(Filter(xs, keep), xs)
  {
    if |xs| > 0 {
      FilterIsSubsequence(xs[1..], keep);
      if keep(xs[0]) {
        assert Filter(xs, keep)[1..] == Filter(xs[1..], keep);
      } else {
        SkipHeadKeepsSubsequence(Filter(xs, keep), xs);
      }
    }
  }

  /** Prepending an element to the longer sequence keeps `a` a subsequence. */
  lemma {:induction false} SkipHeadKeepsSubsequence<T>(a: seq<T>, b: seq<T>)
    requires |b| > 0 && IsSubsequence(a, b[1..])
    ensures IsSubsequence(a, b)
    decreases |b|, 0
  {
    if |a| > 0 && a[0] == b[0] {
      TailOfSubsequence(a, b[1..]);
    }
  }

  /** Dropping the first element of a subsequence keeps it a subsequence. */
  lemma {:induction false} TailOfSubsequence<T>(a: seq<T>, b: seq<T>)
    requires |a| > 0 && IsSubsequence(a, b)
    ensures IsSubsequence(a[1..], b)
    decreases |b|, 1
  {
    assert |b| > 0;
    if a[0] == b[0] {
      if |a[1..]| > 0 {
        SkipHeadKeepsSubsequence(a[1..], b);
      }
    } else {
      TailOfSubsequence(a, b[1..]);
      if |a[1..]| > 0 {
        SkipHeadKeepsSubsequence(a[1..], b);
      }
    }
  }

  /** The position of the first occurrence of `x`. */
  function FirstIndex<T(==)>(xs: seq<T>, x: T): (r: nat)
    requires x in xs
    ensures r < |xs| && xs[r] == x
    ensures forall k :: 0 <= k < r ==> xs[k] != x
  {
    if xs[0] == x then 0 else 1 + FirstIndex(xs[1..], x)
  }

  /** Appending elements does not move a first occurrence. */
  lemma FirstIndexPrefix<T>(a: seq<T>, b: seq<T>, x: T)
    requires x in a
    ensures FirstIndex(a + b, x) == FirstIndex(a, x)
  {
    var r1, r2 := FirstIndex(a + b, x), FirstIndex(a, x);
    assert (a + b)[r2] == x;
    assert r1 <= r2;
    assert a[r1] == x;
  }

  predicate Sorted(s: seq<int>) {
    forall i, j :: 0 <= i < j < |s| ==> s[i] <= s[j]
  }

  /** Inserts `x` into a sorted sequence, keeping it sorted. */
  function Insert(x: int, s: seq<int>): (r: seq<int>)
    requires Sorted(s)
    ensures Sorted(r)
    ensures |r| == |s| + 1
    ensures r[0] == if |s| == 0 || x <= s[0] then x else s[0]
    ensures multiset(r) == multiset(s) + multiset{x}
  {
    if |s| == 0 then [x]
    else if x <= s[0] then [x] + s
    else
      var t := Insert(x, s[1..]);
      assert s == [s[0]] + s[1..];
      assert forall k :: 0 <= k < |t| ==> t[0] <= t[k];
      [s[0]] + t
  }

  /** The ascending rearrangement of `s` (pandas `sort_values`). */
  function Sort(s: seq<int>): (r: seq<int>)
    ensures Sorted(r)
    ensures |r| == |s|
    ensures multiset(r) == multiset(s)
  {
    if |s| == 0 then []
    else
      assert s == [s[0]] + s[1..];
      Insert(s[0], Sort(s[1..]))
  }

  /** `s[1] - s[0], s[2] - s[1], ...`: pandas `diff()` with its leading
      missing value dropped. */
  function ConsecutiveDiffs(s: seq<int>): (r: seq<int>)
    ensures |r| == if |s| == 0 then 0 else |s| - 1
    ensures forall k :: 0 <= k < |r| ==> s[k] + r[k] == s[k + 1]
  {
    if |s| <= 1 then []
    else [s[1] - s[0]] + ConsecutiveDiffs(s[1..])
  }

  /** The differences of a sorted sequence are never negative. */
  lemma SortedDiffsNonNegative(s: seq<int>)
    requires Sorted(s)
    ensures forall k :: 0 <= k < |ConsecutiveDiffs(s)| ==> ConsecutiveDiffs(s)[k] >= 0
  {
    var d := ConsecutiveDiffs(s);
    forall k | 0 <= k < |d| ensures d[k] >= 0 {
      assert s[k] + d[k] == s[k + 1];
      assert s[k] <= s[k + 1];
    }
  }

  /** The first and last elements of the sorted rearrangement are the least
      and greatest elements of the input. */
  lemma SortBounds(ts: seq<int>)
    requires |ts| > 0
    ensures var s := Sort(ts);
      && s[0] in ts && s[|s| - 1] in ts
      && forall t :: t in ts ==> s[0] <= t <= s[|s| - 1]
  {
    var s := Sort(ts);
    SameMembers(s, ts);
    forall t | t in ts ensures s[0] <= t <= s[|s| - 1] {
      var k :| 0 <= k < |s| && s[k] == t;
      assert s[0] <= s[k] <= s[|s| - 1];
    }
  }

  /** `lo` and `hi` are the smallest and the largest value of `ts`. */
  predicate IsSpan(ts: seq<int>, lo: int, hi: int) {
    lo in ts && hi in ts && forall t :: t in ts ==> lo <= t <= hi
  }

  /** Sorting and differencing leaves gaps that add up to the distance
      from the smallest to the largest value. */
  lemma SortedSpan(ts: seq<int>)
    requires |ts| > 0
    ensures exists lo, hi :: IsSpan(ts, lo, hi) && Sum(ConsecutiveDiffs(Sort(ts))) == hi - lo
  {
    var s := Sort(ts);
    var lo, hi := s[0], s[|s| - 1];
    assert Sum(ConsecutiveDiffs(s)) == hi - lo by {
      DiffsTelescope(s);
    }
    assert IsSpan(ts, lo, hi) by {
      SortBounds(ts);
    }
  }

  /** Permutations have the same members. */
  lemma SameMembers(a: seq<int>, b: seq<int>)
    requires multiset(a) == multiset(b)
    ensures forall x :: x in a <==> x in b
  {
    forall x ensures x in a <==> x in b {
      assert x in a <==> x in multiset(a);
      assert x in b <==> x in multiset(b);
    }
  }

  function Sum(s: seq<int>): int {
    if |s| == 0 then 0 else s[0] + Sum(s[1..])
  }

  /** The consecutive differences of a non-empty sequence add up to its
      last element minus its first. */
  lemma {:induction false} DiffsTelescope(s: seq<int>)
    requires |s| > 0
    ensures Sum(ConsecutiveDiffs(s)) == s[|s| - 1] - s[0]
  {
    if |s| > 1 {
      DiffsTelescope(s[1..]);
    }
  }
}
