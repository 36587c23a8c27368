/** BubbleMethod: the nested-loop swap sort of the sample application,
    modelled as written. For each i from start + skip + 1 below end, the
    inner loop runs j from 1 (an absolute index, not start) below end - i and
    swaps array[i] with array[j] when array[i] is smaller. That moves the
    largest of array[1, end - i) into cell i; it does not sort [start, end),
    and for start > 1 it can write below start. */
module BubbleMethod {
  import opened Sorting

  /** One comparison of the inner loop: swap cells i and j when cell i has
      the smaller key. */
  function SwapIfLess<T>(s: seq<T>, i: int, j: int, key: T -> int): (r: seq<T>)
    requires 0 <= i < |s| && 0 <= j < |s|
    ensures |r| == |s|
  {
    if key(s[i]) < key(s[j]) then s[i := s[j]][j := s[i]] else s
  }

  /** The inner loop from j on, up to stop (exclusive). */
  function BubbleInner<T>(s: seq<T>, i: int, j: int, stop: int, key: T -> int): (r: seq<T>)
    requires 0 <= i < |s| && 1 <= j && stop <= |s|
    ensures |r| == |s|
    decreases stop - j
  {
    if j >= stop then s
    else BubbleInner(SwapIfLess(s, i, j, key), i, j + 1, stop, key)
  }

  /** The outer loop from i on, up to end (exclusive). */
  function BubbleOuter<T>(s: seq<T>, i: int, end: int, key: T -> int): seq<T>
    requires 0 <= i && end <= |s|
    decreases end - i
  {
    if i >= end then s
    else BubbleOuter(BubbleInner(s, i, 1, end - i, key), i + 1, end, key)
  }

  /** The array a sort call leaves, as a function of the array before it. */
  function Bubbled<T>(s: seq<T>, start: int, end: int, skip: int, key: T -> int): seq<T>
    requires 0 <= start && 0 <= skip && end <= |s|
  {
    BubbleOuter(s, start + skip + 1, end, key)
  }

  // ---------------------------------------------------------------------
  // Swaps preserve the multiset
  // ---------------------------------------------------------------------

  lemma SwapIfLessPermutes<T>(s: seq<T>, i: int, j: int, key: T -> int)
    requires 0 <= i < |s| && 0 <= j < |s|
    ensures |SwapIfLess(s, i, j, key)| == |s|
    ensures multiset(SwapIfLess(s, i, j, key)) == multiset(s)
  {
    if key(s[i]) < key(s[j]) {
      SwapPermutes(s, i, j);
    }
  }

  /** Exchanging two different cells keeps the multiset. */
  lemma SwapPermutes<T>(s: seq<T>, i: int, j: int)
    requires 0 <= i < |s| && 0 <= j < |s| && i != j
    ensures multiset(s[i := s[j]][j := s[i]]) == multiset(s)
  {
    var t := s[i := s[j]];
    var u := t[j := s[i]];
    assert t[j] == s[j];
    assert multiset(t) == multiset(s) - multiset{s[i]} + multiset{s[j]};
    assert multiset(u) == multiset(t) - multiset{s[j]} + multiset{s[i]};
    ReplaceBack(multiset(s), s[i], s[j]);
  }

  /** Replacing a by b and then b by a gives the multiset back. */
  lemma ReplaceBack<T>(m: multiset<T>, a: T, b: T)
    requires a in m
    ensures m - multiset{a} + multiset{b} - multiset{b} + multiset{a} == m
  {
    var n := m - multiset{a} + multiset{b} - multiset{b} + multiset{a};
    forall x
      ensures n[x] == m[x]
    {
    }
  }

  lemma {:induction false} BubbleInnerPermutes<T>(s: seq<T>, i: int, j: int, stop: int, key: T -> int)
    requires 0 <= i < |s| && 1 <= j && stop <= |s|
    ensures |BubbleInner(s, i, j, stop, key)| == |s|
    ensures multiset(BubbleInner(s, i, j, stop, key)) == multiset(s)
    decreases stop - j
  {
    if j < stop {
      SwapIfLessPermutes(s, i, j, key);
      BubbleInnerPermutes(SwapIfLess(s, i, j, key), i, j + 1, stop, key);
    }
  }

  lemma {:induction false} BubbleOuterPermutes<T>(s: seq<T>, i: int, end: int, key: T -> int)
    requires 0 <= i && end <= |s|
    ensures |BubbleOuter(s, i, end, key)| == |s|
    ensures multiset(BubbleOuter(s, i, end, key)) == multiset(s)
    decreases end - i
  {
    if i < end {
      BubbleInnerPermutes(s, i, 1, end - i, key);
      BubbleOuterPermutes(BubbleInner(s, i, 1, end - i, key), i + 1, end, key);
    }
  }

  /** The sort only swaps cells, so the whole array keeps its multiset. */
  lemma BubbledPermutes<T>(s: seq<T>, start: int, end: int, skip: int, key: T -> int)
    requires 0 <= start && 0 <= skip && end <= |s|
    ensures |Bubbled(s, start, end, skip, key)| == |s|
    ensures multiset(Bubbled(s, start, end, skip, key)) == multiset(s)
  {
    BubbleOuterPermutes(s, start + skip + 1, end, key);
  }

  // ---------------------------------------------------------------------
  // Which cells can change
  // ---------------------------------------------------------------------

  lemma {:induction false} BubbleInnerFrame<T>(s: seq<T>, i: int, j: int, stop: int, key: T -> int)
    requires 0 <= i < |s| && 1 <= j && stop <= |s|
    ensures |BubbleInner(s, i, j, stop, key)| == |s|
    ensures forall p :: 0 <= p < |s| && p != i && !(j <= p < stop) ==> BubbleInner(s, i, j, stop, key)[p] == s[p]
    decreases stop - j
  {
    if j < stop {
      BubbleInnerFrame(SwapIfLess(s, i, j, key), i, j + 1, stop, key);
    }
  }

  lemma {:induction false} BubbleOuterFrame<T>(s: seq<T>, i: int, end: int, key: T -> int)
    requires 1 <= i && end <= |s|
    ensures |BubbleOuter(s, i, end, key)| == |s|
    ensures forall p :: 0 <= p < |s| && (p == 0 || end <= p) ==> BubbleOuter(s, i, end, key)[p] == s[p]
    decreases end - i
  {
    if i < end {
      BubbleInnerFrame(s, i, 1, end - i, key);
      BubbleOuterFrame(BubbleInner(s, i, 1, end - i, key), i + 1, end, key);
    }
  }

  /** Cell 0 and the cells from end on are never written: every i is at
      least start + skip + 1 >= 1 and below end, and every j is in [1, end). */
  lemma BubbledFrame<T>(s: seq<T>, start: int, end: int, skip: int, key: T -> int)
    requires 0 <= start && 0 <= skip && end <= |s|
    ensures |Bubbled(s, start, end, skip, key)| == |s|
    ensures forall p :: 0 <= p < |s| && (p == 0 || end <= p) ==> Bubbled(s, start, end, skip, key)[p] == s[p]
  {
    BubbleOuterFrame(s, start + skip + 1, end, key);
  }

  /** A range no longer than the skip prefix plus one is left alone. */
  lemma BubbledShortIsIdentity<T>(s: seq<T>, start: int, end: int, skip: int, key: T -> int)
    requires 0 <= start && 0 <= skip && end <= |s|
    requires end <= start + skip + 1
    ensures Bubbled(s, start, end, skip, key) == s
  {
  }

  // ---------------------------------------------------------------------
  // What one pass of the inner loop does guarantee
  // ---------------------------------------------------------------------

  lemma {:induction false} BubbleInnerRaises<T>(s: seq<T>, i: int, j: int, stop: int, key: T -> int)
    requires 0 <= i < |s| && 1 <= j && stop <= |s|
    requires forall q :: 1 <= q < j && q < |s| ==> key(s[q]) <= key(s[i])
    ensures |BubbleInner(s, i, j, stop, key)| == |s|
    ensures key(s[i]) <= key(BubbleInner(s, i, j, stop, key)[i])
    ensures forall q :: 1 <= q < stop ==> key(BubbleInner(s, i, j, stop, key)[q]) <= key(BubbleInner(s, i, j, stop, key)[i])
    decreases stop - j
  {
    if j < stop {
      var t := SwapIfLess(s, i, j, key);
      assert key(s[i]) <= key(t[i]);
      forall q | 1 <= q < j + 1 && q < |t|
        ensures key(t[q]) <= key(t[i])
      {
        if q == j && key(s[i]) < key(s[j]) {
          assert t[q] == s[i] || q == i;
        }
      }
      BubbleInnerRaises(t, i, j + 1, stop, key);
    } else {
      BubbleInnerFrame(s, i, j, stop, key);
    }
  }

  /** After the inner loop for a fixed i (which runs j up to stop =
      end - i), array[i] has not decreased and is at least every array[j]
      with 1 <= j < stop. */
  lemma InnerPassRaisesPivot<T>(s: seq<T>, i: int, stop: int, key: T -> int)
    requires 0 <= i < |s| && stop <= |s|
    ensures key(s[i]) <= key(BubbleInner(s, i, 1, stop, key)[i])
    ensures forall q :: 1 <= q < stop ==> key(BubbleInner(s, i, 1, stop, key)[q]) <= key(BubbleInner(s, i, 1, stop, key)[i])
  {
    BubbleInnerRaises(s, i, 1, stop, key);
  }

  // ---------------------------------------------------------------------
  // It is not a sort
  // ---------------------------------------------------------------------

  /** [3, 1, 2] over its whole range comes back unchanged, and unsorted:
      for i = 1 the inner loop only compares cell 1 with itself, for i = 2
      it does not run. */
  lemma BubbledLeavesUnsorted()
    ensures Bubbled([3, 1, 2], 0, 3, 0, Identity) == [3, 1, 2]
    ensures !SortedBy(Bubbled([3, 1, 2], 0, 3, 0, Identity), Identity)
  {
    var s := [3, 1, 2];
    assert SwapIfLess(s, 1, 1, Identity) == s;
    assert BubbleInner(s, 1, 2, 2, Identity) == s;
    assert BubbleInner(s, 1, 1, 2, Identity) == s;
    assert BubbleInner(s, 2, 1, 1, Identity) == s;
    assert BubbleOuter(s, 3, 3, Identity) == s;
    assert BubbleOuter(s, 2, 3, Identity) == s;
    assert BubbleOuter(s, 1, 3, Identity) == s;
    assert Identity(s[0]) > Identity(s[1]);
  }

  /** Sorting [0, 5, 9, 1, 2] from start 2 swaps cells 3 and 1, so cell 1,
      below start, changes. */
  lemma BubbledWritesBelowStart()
    ensures Bubbled([0, 5, 9, 1, 2], 2, 5, 0, Identity)[1] == 1
  {
    var s := [0, 5, 9, 1, 2];
    var t := [0, 1, 9, 5, 2];
    assert SwapIfLess(s, 3, 1, Identity) == t;
    assert BubbleInner(t, 3, 2, 2, Identity) == t;
    assert BubbleInner(s, 3, 1, 2, Identity) == t;
    assert BubbleInner(t, 4, 1, 1, Identity) == t;
    assert BubbleOuter(t, 5, 5, Identity) == t;
    assert BubbleOuter(t, 4, 5, Identity) == t;
    assert BubbleOuter(s, 3, 5, Identity) == t;
  }

  // ---------------------------------------------------------------------
  // The two sort overloads
  // ---------------------------------------------------------------------

  /** sort(array, start, end, comparator): the same as skip 0. */
  method Sort<T>(a: array<T>, start: int, end: int, key: T -> int)
    requires 0 <= start && end <= a.Length
    modifies a
    ensures a[..] == Bubbled(old(a[..]), start, end, 0, key)
    ensures multiset(a[..]) == old(multiset(a[..]))
  {
    SortSkip(a, start, end, key, 0);
    BubbledPermutes(old(a[..]), start, end, 0, key);
  }

  /** sort(array, start, end, comparator, skip). */
  method SortSkip<T>(a: array<T>, start: int, end: int, key: T -> int, skip: int)
    requires 0 <= start && 0 <= skip && end <= a.Length
    modifies a
    ensures a[..] == Bubbled(old(a[..]), start, end, skip, key)
  {
    ghost var s0 := a[..];
    var i := start + skip + 1;
    while i < end
      invariant start + skip + 1 <= i
      invariant BubbleOuter(a[..], i, end, key) == BubbleOuter(s0, start + skip + 1, end, key)
    {
      ghost var si := a[..];
      var j := 1;
      while j < end - i
        invariant 1 <= j <= end - i
        invariant BubbleInner(a[..], i, j, end - i, key) == BubbleInner(si, i, 1, end - i, key)
      {
        ghost var before := a[..];
        if key(a[i]) < key(a[j]) {
          var temp := a[i];
          a[i] := a[j];
          a[j] := temp;
        }
        assert a[..] == SwapIfLess(before, i, j, key);
        j := j + 1;
      }
      i := i + 1;
    }
  }
}
