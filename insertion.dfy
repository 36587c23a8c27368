/** InsertionMethod: insertion sort of array[start, end), where the first
    skip + 1 cells of the range are taken as already sorted, so the outer loop
    starts after them while the inner loop may still move elements into them.

    Keeping the element type generic lets stability be stated: elements
    with equal keys stay distinguishable. */
module InsertionMethod {
  import opened Sorting

  /** The elements of s whose key is k, in their order in s. */
  function WithKey<T>(s: seq<T>, key: T -> int, k: int): seq<T>
    decreases |s|
  {
    if s == [] then []
    else WithKey(s[..|s| - 1], key, k) + (if key(s[|s| - 1]) == k then [s[|s| - 1]] else [])
  }

  lemma {:induction false} WithKeyAppend<T>(s: seq<T>, t: seq<T>, key: T -> int, k: int)
    ensures WithKey(s + t, key, k) == WithKey(s, key, k) + WithKey(t, key, k)
    decreases |t|
  {
    if t == [] {
      assert s + t == s;
    } else {
      var t' := t[..|t| - 1];
      assert (s + t)[..|s + t| - 1] == s + t';
      WithKeyAppend(s, t', key, k);
    }
  }

  /** One pass of the inner do-while loop: x travels left past every
      element whose key is strictly larger, and stops behind the first one
      that is not. */
  function Insert<T>(s: seq<T>, x: T, key: T -> int): seq<T>
    decreases |s|
  {
    if s == [] || !(key(x) < key(s[|s| - 1])) then s + [x]
    else Insert(s[..|s| - 1], x, key) + [s[|s| - 1]]
  }

  /** The outer loop: the elements of rest inserted one after another,
      from the left, into prefix. */
  function InsertAll<T>(prefix: seq<T>, rest: seq<T>, key: T -> int): seq<T>
    decreases |rest|
  {
    if rest == [] then prefix
    else Insert(InsertAll(prefix, rest[..|rest| - 1], key), rest[|rest| - 1], key)
  }

  /** The array a sort call leaves, as a function of the array before it. */
  function SortedRange<T>(s: seq<T>, start: int, end: int, skip: int, key: T -> int): seq<T>
    requires 0 <= start && 0 <= skip && end <= |s|
  {
    var lo := start + skip + 1;
    if lo >= end then s
    else s[..start] + InsertAll(s[start..lo], s[lo..end], key) + s[end..]
  }

  // ---------------------------------------------------------------------
  // Properties of Insert and InsertAll
  // ---------------------------------------------------------------------

  lemma {:induction false} InsertPermutes<T>(s: seq<T>, x: T, key: T -> int)
    ensures |Insert(s, x, key)| == |s| + 1
    ensures multiset(Insert(s, x, key)) == multiset(s) + multiset{x}
    decreases |s|
  {
    if s != [] && key(x) < key(s[|s| - 1]) {
      var s' := s[..|s| - 1];
      InsertPermutes(s', x, key);
      assert s == s' + [s[|s| - 1]];
    }
  }

  /** Insert adds x and moves nothing else, so a bound on every key of s
      and on x bounds every key of the result. */
  lemma {:induction false} InsertBounded<T>(s: seq<T>, x: T, key: T -> int, b: int)
    requires forall t :: 0 <= t < |s| ==> key(s[t]) <= b
    requires key(x) <= b
    ensures |Insert(s, x, key)| == |s| + 1
    ensures forall t :: 0 <= t < |Insert(s, x, key)| ==> key(Insert(s, x, key)[t]) <= b
    decreases |s|
  {
    if s != [] && key(x) < key(s[|s| - 1]) {
      InsertBounded(s[..|s| - 1], x, key, b);
    }
  }

  lemma {:induction false} InsertKeepsSorted<T>(s: seq<T>, x: T, key: T -> int)
    requires SortedBy(s, key)
    ensures SortedBy(Insert(s, x, key), key)
    decreases |s|
  {
    if s != [] && key(x) < key(s[|s| - 1]) {
      var s' := s[..|s| - 1];
      var last := s[|s| - 1];
      assert SortedBy(s', key);
      InsertKeepsSorted(s', x, key);
      InsertBounded(s', x, key, key(last));
      var r := Insert(s', x, key);
      assert Insert(s, x, key) == r + [last];
    }
  }

  /** Insert never moves x past an element of equal key, and keeps the order
      of all other elements: the elements of each key keep their order. */
  lemma {:induction false} InsertIsStable<T>(s: seq<T>, x: T, key: T -> int, k: int)
    ensures WithKey(Insert(s, x, key), key, k) == WithKey(s, key, k) + WithKey([x], key, k)
    decreases |s|
  {
    if s == [] || !(key(x) < key(s[|s| - 1])) {
      WithKeyAppend(s, [x], key, k);
    } else {
      var s' := s[..|s| - 1];
      var last := s[|s| - 1];
      var ins := Insert(s', x, key);
      assert Insert(s, x, key) == ins + [last];
      assert s == s' + [last];
      InsertIsStable(s', x, key, k);
      WithKeyAppend(ins, [last], key, k);
      WithKeyAppend(s', [last], key, k);
      WithKeySingle(x, key, k);
      WithKeySingle(last, key, k);
      // x and last have different keys, so at most one of them has key k
      SwapTail(WithKey(s', key, k), WithKey([x], key, k), WithKey([last], key, k));
    }
  }

  lemma SwapTail<T>(c: seq<T>, u: seq<T>, v: seq<T>)
    requires u == [] || v == []
    ensures c + u + v == c + v + u
  {
  }

  lemma WithKeySingle<T>(x: T, key: T -> int, k: int)
    ensures WithKey([x], key, k) == if key(x) == k then [x] else []
  {
    assert [x][..0] == [];
  }

  lemma {:induction false} InsertAllPermutes<T>(p: seq<T>, r: seq<T>, key: T -> int)
    ensures |InsertAll(p, r, key)| == |p| + |r|
    ensures multiset(InsertAll(p, r, key)) == multiset(p) + multiset(r)
    decreases |r|
  {
    if r != [] {
      var r' := r[..|r| - 1];
      InsertAllPermutes(p, r', key);
      InsertPermutes(InsertAll(p, r', key), r[|r| - 1], key);
      assert r == r' + [r[|r| - 1]];
    }
  }

  lemma {:induction false} InsertAllKeepsSorted<T>(p: seq<T>, r: seq<T>, key: T -> int)
    requires SortedBy(p, key)
    ensures SortedBy(InsertAll(p, r, key), key)
    decreases |r|
  {
    if r != [] {
      InsertAllKeepsSorted(p, r[..|r| - 1], key);
      InsertKeepsSorted(InsertAll(p, r[..|r| - 1], key), r[|r| - 1], key);
    }
  }

  lemma {:induction false} InsertAllIsStable<T>(p: seq<T>, r: seq<T>, key: T -> int, k: int)
    ensures WithKey(InsertAll(p, r, key), key, k) == WithKey(p, key, k) + WithKey(r, key, k)
    decreases |r|
  {
    if r != [] {
      var r' := r[..|r| - 1];
      InsertAllIsStable(p, r', key, k);
      InsertIsStable(InsertAll(p, r', key), r[|r| - 1], key, k);
      assert r == r' + [r[|r| - 1]];
      WithKeyAppend(r', [r[|r| - 1]], key, k);
    }
  }

  /** Where x stops: if every element of s from position m on has a larger
      key than x, and the one before position m (if any) does not, x lands at
      position m. */
  lemma {:induction false} InsertLandsAt<T>(s: seq<T>, x: T, key: T -> int, m: int)
    requires 0 <= m <= |s|
    requires forall t :: m <= t < |s| ==> key(x) < key(s[t])
    requires m == 0 || !(key(x) < key(s[m - 1]))
    ensures Insert(s, x, key) == s[..m] + [x] + s[m..]
    decreases |s|
  {
    if m < |s| {
      var s' := s[..|s| - 1];
      InsertLandsAt(s', x, key, m);
      assert s[..m] == s'[..m];
      assert s[m..] == s'[m..] + [s[|s| - 1]];
    } else {
      assert s[..m] == s;
    }
  }

  /** InsertLandsAt cell by cell. */
  lemma InsertLandsAtCells<T>(s: seq<T>, x: T, key: T -> int, m: int)
    requires 0 <= m <= |s|
    requires forall t :: m <= t < |s| ==> key(x) < key(s[t])
    requires m == 0 || !(key(x) < key(s[m - 1]))
    ensures |Insert(s, x, key)| == |s| + 1
    ensures forall t :: 0 <= t < m ==> Insert(s, x, key)[t] == s[t]
    ensures Insert(s, x, key)[m] == x
    ensures forall t :: m < t <= |s| ==> Insert(s, x, key)[t] == s[t - 1]
  {
    InsertLandsAt(s, x, key, m);
  }

  lemma SliceSplit<T>(s: seq<T>, lo: int, mid: int, hi: int)
    requires 0 <= lo <= mid <= hi <= |s|
    ensures s[lo..hi] == s[lo..mid] + s[mid..hi]
  {
  }

  // ---------------------------------------------------------------------
  // Properties of a whole sort call
  // ---------------------------------------------------------------------

  /** How the result is laid out: the cells before start and from end on
      are those of s, the cells in between are InsertAll's. */
  lemma SortedRangeShape<T>(s: seq<T>, start: int, end: int, skip: int, key: T -> int)
    requires 0 <= start && 0 <= skip && start + skip + 1 < end <= |s|
    ensures |SortedRange(s, start, end, skip, key)| == |s|
    ensures SortedRange(s, start, end, skip, key)[..start] == s[..start]
    ensures SortedRange(s, start, end, skip, key)[start..end]
         == InsertAll(s[start..start + skip + 1], s[start + skip + 1..end], key)
    ensures SortedRange(s, start, end, skip, key)[end..] == s[end..]
  {
    var lo := start + skip + 1;
    var mid := InsertAll(s[start..lo], s[lo..end], key);
    InsertAllPermutes(s[start..lo], s[lo..end], key);
    var r := s[..start] + mid + s[end..];
    assert r[..start] == s[..start];
    assert r[start..end] == mid;
    assert r[end..] == s[end..];
  }

  /** If the skip prefix array[start, start + skip + 1) is sorted, the call
      leaves array[start, end) sorted. */
  lemma SortedRangeSorts<T>(s: seq<T>, start: int, end: int, skip: int, key: T -> int)
    requires 0 <= start && 0 <= skip && start + skip + 1 < end <= |s|
    requires SortedBy(s[start..start + skip + 1], key)
    ensures |SortedRange(s, start, end, skip, key)| == |s|
    ensures SortedBy(SortedRange(s, start, end, skip, key)[start..end], key)
  {
    var lo := start + skip + 1;
    SortedRangeShape(s, start, end, skip, key);
    InsertAllKeepsSorted(s[start..lo], s[lo..end], key);
  }

  /** The call permutes array[start, end) and changes no cell outside it. */
  lemma SortedRangePermutes<T>(s: seq<T>, start: int, end: int, skip: int, key: T -> int)
    requires 0 <= start && 0 <= skip && start <= end <= |s|
    ensures |SortedRange(s, start, end, skip, key)| == |s|
    ensures multiset(SortedRange(s, start, end, skip, key)[start..end]) == multiset(s[start..end])
    ensures SortedRange(s, start, end, skip, key)[..start] == s[..start]
    ensures SortedRange(s, start, end, skip, key)[end..] == s[end..]
  {
    var lo := start + skip + 1;
    if lo < end {
      SortedRangeShape(s, start, end, skip, key);
      InsertAllPermutes(s[start..lo], s[lo..end], key);
      SliceSplit(s, start, lo, end);
    }
  }

  /** InsertAll keeps, key by key, the order of its two inputs laid end to end. */
  lemma InsertAllKeepsKeyOrder<T>(p: seq<T>, q: seq<T>, key: T -> int, k: int)
    ensures WithKey(InsertAll(p, q, key), key, k) == WithKey(p + q, key, k)
  {
    InsertAllIsStable(p, q, key, k);
    WithKeyAppend(p, q, key, k);
  }

  /** Equal keys keep their relative order: the strict comparisons of both
      loops never move an element past one with the same key. */
  lemma SortedRangeIsStable<T>(s: seq<T>, start: int, end: int, skip: int, key: T -> int, k: int)
    requires 0 <= start && 0 <= skip && start <= end <= |s|
    ensures |SortedRange(s, start, end, skip, key)| == |s|
    ensures WithKey(SortedRange(s, start, end, skip, key)[start..end], key, k) == WithKey(s[start..end], key, k)
  {
    var lo := start + skip + 1;
    if lo < end {
      SortedRangeShape(s, start, end, skip, key);
      SliceSplit(s, start, lo, end);
      InsertAllKeepsKeyOrder(s[start..lo], s[lo..end], key, k);
    }
  }

  /** A range no longer than the skip prefix plus one is left alone. */
  lemma SortedRangeShortIsIdentity<T>(s: seq<T>, start: int, end: int, skip: int, key: T -> int)
    requires 0 <= start && 0 <= skip && end <= |s|
    requires end <= start + skip + 1
    ensures SortedRange(s, start, end, skip, key) == s
  {
  }

  /** Without a skip prefix the call sorts array[start, end) outright. */
  lemma SortWithoutSkipSorts<T>(s: seq<T>, start: int, end: int, key: T -> int)
    requires 0 <= start <= end <= |s|
    ensures |SortedRange(s, start, end, 0, key)| == |s|
    ensures SortedBy(SortedRange(s, start, end, 0, key)[start..end], key)
  {
    if start + 1 < end {
      SortedRangeSorts(s, start, end, 0, key);
    } else {
      SortedRangePermutes(s, start, end, 0, key);
    }
  }

  // ---------------------------------------------------------------------
  // The two sort overloads
  // ---------------------------------------------------------------------

  /** sort(array, start, end, comparator): the same as skip 0. */
  method Sort<T>(a: array<T>, start: int, end: int, key: T -> int)
    requires 0 <= start && end <= a.Length
    modifies a
    ensures a[..] == SortedRange(old(a[..]), start, end, 0, key)
    ensures start <= end ==> SortedBy(a[start..end], key)
  {
    SortSkip(a, start, end, key, 0);
    if start <= end {
      SortWithoutSkipSorts(old(a[..]), start, end, key);
    }
  }

  /** sort(array, start, end, comparator, skip). */
  method SortSkip<T>(a: array<T>, start: int, end: int, key: T -> int, skip: int)
    requires 0 <= start && 0 <= skip && end <= a.Length
    modifies a
    ensures a[..] == SortedRange(old(a[..]), start, end, skip, key)
  {
    ghost var s0 := a[..];
    var i := start + skip + 1;
    if i >= end {
      // the outer loop does not run
      return;
    }
    ghost var lo := i;
    ghost var p: seq<T> := s0[start..lo];
    while i < end
      invariant lo <= i <= end
      invariant p == InsertAll(s0[start..lo], s0[lo..i], key) && |p| == i - start
      invariant forall t :: start <= t < i ==> a[t] == p[t - start]
      invariant forall t :: 0 <= t < start || i <= t < a.Length ==> a[t] == s0[t]
    {
      ShiftIn(a, start, i, key, p);
      InsertAllStep(s0, start, lo, i, key);
      p := Insert(p, s0[i], key);
      i := i + 1;
    }
    OuterExit(s0, start, end, skip, key, p, a);
  }

  /** The body of the outer loop: array[i] is taken out, the larger
      elements before it are shifted one cell right by the do-while loop, and
      it is stored in the hole. Cells [start, i) hold p on entry; on exit
      cells [start, i] hold Insert(p, old array[i]). */
  method ShiftIn<T>(a: array<T>, start: int, i: int, key: T -> int, ghost p: seq<T>)
    requires 0 <= start < i < a.Length && |p| == i - start
    requires forall t :: start <= t < i ==> a[t] == p[t - start]
    modifies a
    ensures |Insert(p, old(a[i]), key)| == i + 1 - start
    ensures forall t :: start <= t <= i ==> a[t] == Insert(p, old(a[i]), key)[t - start]
    ensures forall t :: 0 <= t < start || i < t < a.Length ==> a[t] == old(a[t])
  {
    var current := a[i];
    var j := i - 1;
    if key(current) < key(a[j]) {
      assert a[j] == p[j - start];
      a[j + 1] := a[j];
      j := j - 1;
      while j >= start && key(current) < key(a[j])
        invariant start - 1 <= j < i - 1
        invariant current == old(a[i])
        invariant forall t :: start <= t <= j ==> a[t] == p[t - start]
        invariant forall t :: j + 2 <= t <= i ==> a[t] == p[t - 1 - start]
        invariant forall t :: 0 <= t < start || i < t < a.Length ==> a[t] == old(a[t])
        invariant forall t :: j + 1 - start <= t < |p| ==> key(current) < key(p[t])
      {
        a[j + 1] := a[j];
        j := j - 1;
      }
      assert j + 1 == start || !(key(current) < key(p[j - start]));
      a[j + 1] := current;
      InsertLandsAtCells(p, current, key, j + 1 - start);
    } else {
      InsertLandsAtCells(p, current, key, |p|);
    }
  }

  /** inserting one more element of the range extends InsertAll by one
      Insert. */
  lemma InsertAllStep<T>(s0: seq<T>, start: int, lo: int, i: int, key: T -> int)
    requires 0 <= start <= lo <= i < |s0|
    ensures InsertAll(s0[start..lo], s0[lo..i + 1], key) == Insert(InsertAll(s0[start..lo], s0[lo..i], key), s0[i], key)
  {
    var rest := s0[lo..i + 1];
    assert rest[..|rest| - 1] == s0[lo..i];
  }

  /** When the outer loop ends, the array is SortedRange's result. */
  lemma OuterExit<T>(s0: seq<T>, start: int, end: int, skip: int, key: T -> int, p: seq<T>, b: array<T>)
    requires 0 <= start && 0 <= skip && start + skip + 1 < end <= |s0| == b.Length
    requires p == InsertAll(s0[start..start + skip + 1], s0[start + skip + 1..end], key) && |p| == end - start
    requires forall t :: start <= t < end ==> b[t] == p[t - start]
    requires forall t :: 0 <= t < start || end <= t < b.Length ==> b[t] == s0[t]
    ensures b[..] == SortedRange(s0, start, end, skip, key)
  {
    SortedRangeShape(s0, start, end, skip, key);
    var r := SortedRange(s0, start, end, skip, key);
    forall t | 0 <= t < b.Length
      ensures b[t] == r[t]
    {
      if t < start {
        assert r[t] == r[..start][t];
      } else if t < end {
        assert r[t] == r[start..end][t - start];
      } else {
        assert r[t] == r[end..][t - end];
      }
    }
  }
}
