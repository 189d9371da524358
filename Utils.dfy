/** `sortByKey`: sorts an array in place, largest key first, and returns the same array. */
module Utils {
  import opened Sorting

  /** The comparator `(a, b) => a[key] > b[key] ? -1 : 1`. */
  function Comparator(a: Key, b: Key): int {
    if KeyLess(b, a) then -1 else 1
  }

  /** On distinct keys the comparator puts the larger key first, as the descending order
      does; on equal keys it answers 1 in both argument orders, so it is not a consistent
      comparator and the relative order of equal keys is left to the engine. */
  lemma ComparatorOnKeys(a: Key, b: Key)
    ensures a != b ==> (Comparator(a, b) == -1 <==> Before(Desc, a, b))
    ensures a != b ==> (Comparator(a, b) == -1 <==> Comparator(b, a) == 1)
    ensures Comparator(a, a) == 1
  {
    KeyLessIrreflexive(a);
    if a != b {
      KeyLessTotal(a, b);
      if KeyLess(a, b) && KeyLess(b, a) {
        KeyLessTransitive(a, b, a);
      }
    }
  }

  /** The array is sorted in place and returned: afterwards it holds the same elements,
      with keys in non-increasing order. The order among equal keys is not promised. */
  method SortByKey<T>(a: array<T>, key: T -> Key) returns (r: array<T>)
    modifies a
    ensures r == a
    ensures multiset(a[..]) == multiset(old(a[..]))
    ensures SortedBy(a[..], key, Desc)
  {
    ghost var before := a[..];
    SortInPlace(a, key, Desc);
    SortPermutes(before, key, Desc);
    SortSorts(before, key, Desc);
    r := a;
  }
}
