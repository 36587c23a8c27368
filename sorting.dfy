/** Ordering notions shared by the two sorter methods. A Comparator<T> is
    modelled by a key function: compare(x, y) < 0 exactly when
    key(x) < key(y). */
module Sorting {

  /** Non-decreasing by key. */
  ghost predicate SortedBy<T>(s: seq<T>, key: T -> int)
  {
    forall i, j :: 0 <= i < j < |s| ==> key(s[i]) <= key(s[j])
  }

  /** The key of an int array sorted by its natural order. */
  function Identity(x: int): int { x }
}
