/** The row sort the charts perform with `Array.prototype.sort` and the comparators
    `d3.ascending` / `d3.descending`.

    `Array.prototype.sort` is stable, and descending order comes from the inverted
    comparator rather than from reversing the result, so rows with equal keys keep
    their relative order in both directions. Any stable sort of a sequence gives the
    same result, so the sort is specified by a stable insertion sort: `Sort` on
    sequences, and `SortInPlace`, which does it in place on an array. */
module Sorting {

  /** A sort key: text (a student's name) or a number (minutes in the event). */
  datatype Key = Text(s: string) | Num(x: real)

  datatype Direction = Asc | Desc

  /** `a < b` on JavaScript strings: lexicographic by character. */
  predicate StrLess(a: string, b: string)
    decreases |a|
  {
    if a == [] then b != []
    else if b == [] then false
    else if a[0] != b[0] then a[0] < b[0]
    else StrLess(a[1..], b[1..])
  }

  /** The order `d3.ascending` follows. The charts never compare text with a number;
      numbers are put first only to make the order total. */
  predicate KeyLess(a: Key, b: Key) {
    match (a, b)
    case (Text(x), Text(y)) => StrLess(x, y)
    case (Num(x), Num(y)) => x < y
    case (Num(_), Text(_)) => true
    case (Text(_), Num(_)) => false
  }

  /** `comparator(a, b) < 0` for `d3.ascending` (Asc) or `d3.descending` (Desc):
      a row with key `a` goes strictly before a row with key `b`. */
  predicate Before(dir: Direction, a: Key, b: Key) {
    if dir == Asc then KeyLess(a, b) else KeyLess(b, a)
  }

  // ---------------------------------------------------------------- the order is strict and total

  lemma {:induction false} StrLessIrreflexive(a: string)
    ensures !StrLess(a, a)
    decreases |a|
  {
    if a != [] { StrLessIrreflexive(a[1..]); }
  }

  lemma {:induction false} StrLessTransitive(a: string, b: string, c: string)
    requires StrLess(a, b) && StrLess(b, c)
    ensures StrLess(a, c)
    decreases |a|
  {
    if a != [] && b != [] && c != [] && a[0] == b[0] && b[0] == c[0] {
      StrLessTransitive(a[1..], b[1..], c[1..]);
    }
  }

  lemma {:induction false} StrLessTotal(a: string, b: string)
    requires a != b
    ensures StrLess(a, b) || StrLess(b, a)
    decreases |a|
  {
    if a != [] && b != [] && a[0] == b[0] {
      assert a == [a[0]] + a[1..] && b == [b[0]] + b[1..];
      StrLessTotal(a[1..], b[1..]);
    }
  }

  lemma KeyLessIrreflexive(a: Key)
    ensures !KeyLess(a, a)
  {
    if a.Text? { StrLessIrreflexive(a.s); }
  }

  lemma KeyLessTransitive(a: Key, b: Key, c: Key)
    requires KeyLess(a, b) && KeyLess(b, c)
    ensures KeyLess(a, c)
  {
    if a.Text? && b.Text? && c.Text? { StrLessTransitive(a.s, b.s, c.s); }
  }

  lemma KeyLessTotal(a: Key, b: Key)
    requires a != b
    ensures KeyLess(a, b) || KeyLess(b, a)
  {
    if a.Text? && b.Text? { StrLessTotal(a.s, b.s); }
  }

  /** `Before` is a strict total order on keys, in either direction. */
  lemma BeforeIsStrictTotalOrder(dir: Direction, a: Key, b: Key, c: Key)
    ensures !Before(dir, a, a)
    ensures Before(dir, a, b) ==> !Before(dir, b, a)
    ensures Before(dir, a, b) && Before(dir, b, c) ==> Before(dir, a, c)
    ensures a != b ==> Before(dir, a, b) || Before(dir, b, a)
  {
    KeyLessIrreflexive(a);
    if Before(dir, a, b) && Before(dir, b, a) {
      if dir == Asc { KeyLessTransitive(a, b, a); } else { KeyLessTransitive(b, a, b); }
      KeyLessIrreflexive(a);
      KeyLessIrreflexive(b);
    }
    if Before(dir, a, b) && Before(dir, b, c) {
      if dir == Asc { KeyLessTransitive(a, b, c); } else { KeyLessTransitive(c, b, a); }
    }
    if a != b { KeyLessTotal(a, b); }
  }

  /** "Not strictly before" is transitive: it is the reflexive order "at or after". */
  lemma NotBeforeTransitive(dir: Direction, a: Key, b: Key, c: Key)
    requires !Before(dir, a, b) && !Before(dir, b, c)
    ensures !Before(dir, a, c)
  {
    BeforeIsStrictTotalOrder(dir, a, b, c);
    BeforeIsStrictTotalOrder(dir, b, c, a);
    BeforeIsStrictTotalOrder(dir, c, a, b);
    BeforeIsStrictTotalOrder(dir, a, c, b);
  }

  // ---------------------------------------------------------------- specification of the sort

  /** No row is strictly before a row that precedes it. */
  predicate SortedBy<T>(s: seq<T>, key: T -> Key, dir: Direction) {
    forall i, j :: 0 <= i < j < |s| ==> !Before(dir, key(s[j]), key(s[i]))
  }

  /** The rows of `s` whose key is `k`, in their order in `s`. */
  function WithKey<T>(s: seq<T>, key: T -> Key, k: Key): seq<T> {
    if s == [] then []
    else WithKey(s[..|s| - 1], key, k) + (if key(s[|s| - 1]) == k then [s[|s| - 1]] else [])
  }

  /** Stability: for every key, the rows carrying that key appear in the same relative order. */
  ghost predicate SameOrderWithinKeys<T>(s: seq<T>, t: seq<T>, key: T -> Key) {
    forall k :: WithKey(s, key, k) == WithKey(t, key, k)
  }

  /** Insert `x` after every row of `s` it does not go strictly before: the step of a
      stable insertion sort, scanning from the right. */
  function Insert<T>(x: T, s: seq<T>, key: T -> Key, dir: Direction): seq<T> {
    if s == [] || !Before(dir, key(x), key(s[|s| - 1])) then s + [x]
    else Insert(x, s[..|s| - 1], key, dir) + [s[|s| - 1]]
  }

  /** The result of sorting `s` stably with the comparator of `dir`. */
  function Sort<T>(s: seq<T>, key: T -> Key, dir: Direction): seq<T> {
    if s == [] then [] else Insert(s[|s| - 1], Sort(s[..|s| - 1], key, dir), key, dir)
  }

  lemma WithKeyAppend<T>(s: seq<T>, x: T, key: T -> Key, k: Key)
    ensures WithKey(s + [x], key, k) == WithKey(s, key, k) + (if key(x) == k then [x] else [])
  {
    assert (s + [x])[..|s|] == s;
  }

  lemma {:induction false} InsertPermutes<T>(x: T, s: seq<T>, key: T -> Key, dir: Direction)
    ensures multiset(Insert(x, s, key, dir)) == multiset(s) + multiset{x}
  {
    if s != [] && Before(dir, key(x), key(s[|s| - 1])) {
      InsertPermutes(x, s[..|s| - 1], key, dir);
      assert s == s[..|s| - 1] + [s[|s| - 1]];
    }
  }

  lemma {:induction false} InsertWithKey<T>(x: T, s: seq<T>, key: T -> Key, dir: Direction, k: Key)
    ensures WithKey(Insert(x, s, key, dir), key, k) == WithKey(s, key, k) + (if key(x) == k then [x] else [])
  {
    if s == [] || !Before(dir, key(x), key(s[|s| - 1])) {
      WithKeyAppend(s, x, key, k);
    } else {
      var front, l := s[..|s| - 1], s[|s| - 1];
      BeforeIsStrictTotalOrder(dir, key(x), key(l), key(l));
      InsertWithKey(x, front, key, dir, k);
      InsertPastLast(x, s, key, dir);
      WithKeyAppend(Insert(x, front, key, dir), l, key, k);
      WithKeyAppend(front, l, key, k);
      assert s == front + [l];
      WithKeyCommute(WithKey(front, key, k), x, l, key, k);
    }
  }

  /** `x` goes before the last element of `s`: it is inserted into the rest. */
  lemma InsertPastLast<T>(x: T, s: seq<T>, key: T -> Key, dir: Direction)
    requires s != [] && Before(dir, key(x), key(s[|s| - 1]))
    ensures Insert(x, s, key, dir) == Insert(x, s[..|s| - 1], key, dir) + [s[|s| - 1]]
  {
  }

  /** Two rows with different keys cannot both be kept, so their order does not matter. */
  lemma WithKeyCommute<T>(w: seq<T>, x: T, l: T, key: T -> Key, k: Key)
    requires key(x) != key(l)
    ensures w + (if key(x) == k then [x] else []) + (if key(l) == k then [l] else [])
         == w + (if key(l) == k then [l] else []) + (if key(x) == k then [x] else [])
  {
  }

  lemma {:induction false} InsertSorted<T>(x: T, s: seq<T>, key: T -> Key, dir: Direction)
    requires SortedBy(s, key, dir)
    ensures SortedBy(Insert(x, s, key, dir), key, dir)
  {
    var r := Insert(x, s, key, dir);
    if s == [] {
    } else if !Before(dir, key(x), key(s[|s| - 1])) {
      forall i | 0 <= i < |s| ensures !Before(dir, key(x), key(s[i])) {
        if i < |s| - 1 {
          NotBeforeTransitive(dir, key(x), key(s[|s| - 1]), key(s[i]));
        }
      }
    } else {
      var l := s[|s| - 1];
      var front := s[..|s| - 1];
      InsertSorted(x, front, key, dir);
      InsertPermutes(x, front, key, dir);
      var r' := Insert(x, front, key, dir);
      forall i | 0 <= i < |r'| ensures !Before(dir, key(l), key(r'[i])) {
        assert r'[i] in multiset(r');
        if r'[i] == x {
          BeforeIsStrictTotalOrder(dir, key(x), key(l), key(l));
        } else {
          assert r'[i] in front;
        }
      }
    }
  }

  /** The sort permutes its input. */
  lemma {:induction false} SortPermutes<T>(s: seq<T>, key: T -> Key, dir: Direction)
    ensures multiset(Sort(s, key, dir)) == multiset(s)
  {
    if s != [] {
      SortPermutes(s[..|s| - 1], key, dir);
      InsertPermutes(s[|s| - 1], Sort(s[..|s| - 1], key, dir), key, dir);
      assert s == s[..|s| - 1] + [s[|s| - 1]];
    }
  }

  /** The sort orders its input by key in the chosen direction. */
  lemma {:induction false} SortSorts<T>(s: seq<T>, key: T -> Key, dir: Direction)
    ensures SortedBy(Sort(s, key, dir), key, dir)
  {
    if s != [] {
      SortSorts(s[..|s| - 1], key, dir);
      InsertSorted(s[|s| - 1], Sort(s[..|s| - 1], key, dir), key, dir);
    }
  }

  /** The sort is stable, ascending and descending alike. */
  lemma {:induction false} SortIsStable<T>(s: seq<T>, key: T -> Key, dir: Direction)
    ensures SameOrderWithinKeys(Sort(s, key, dir), s, key)
  {
    forall k ensures WithKey(Sort(s, key, dir), key, k) == WithKey(s, key, k) {
      SortWithKey(s, key, dir, k);
    }
  }

  lemma {:induction false} SortWithKey<T>(s: seq<T>, key: T -> Key, dir: Direction, k: Key)
    ensures WithKey(Sort(s, key, dir), key, k) == WithKey(s, key, k)
  {
    if s != [] {
      var front, x := s[..|s| - 1], s[|s| - 1];
      SortWithKey(front, key, dir, k);
      InsertWithKey(x, Sort(front, key, dir), key, dir, k);
    }
  }

  /** Sorting rows that are already in order changes nothing; in particular
      sorting twice with the same comparator is the same as sorting once. */
  lemma {:induction false} SortOfSorted<T>(s: seq<T>, key: T -> Key, dir: Direction)
    requires SortedBy(s, key, dir)
    ensures Sort(s, key, dir) == s
  {
    if s != [] {
      var front, x := s[..|s| - 1], s[|s| - 1];
      assert SortedBy(front, key, dir);
      SortOfSorted(front, key, dir);
      assert Sort(s, key, dir) == Insert(x, front, key, dir);
      assert front == [] || !Before(dir, key(x), key(front[|front| - 1])) by {
        if front != [] { assert front[|front| - 1] == s[|s| - 2]; }
      }
      assert Insert(x, front, key, dir) == front + [x];
      assert front + [x] == s;
    }
  }

  lemma SortIdempotent<T>(s: seq<T>, key: T -> Key, dir: Direction)
    ensures Sort(Sort(s, key, dir), key, dir) == Sort(s, key, dir)
  {
    SortSorts(s, key, dir);
    SortOfSorted(Sort(s, key, dir), key, dir);
  }

  // ---------------------------------------------------------------- in place

  /** `a.sort(comparator)` for the comparator of `dir` on `key`. */
  method SortInPlace<T>(a: array<T>, key: T -> Key, dir: Direction)
    modifies a
    ensures a[..] == Sort(old(a[..]), key, dir)
  {
    ghost var orig := a[..];
    var i := 0;
    while i < a.Length
      invariant 0 <= i <= a.Length
      invariant a[..i] == Sort(orig[..i], key, dir)
      invariant a[i..] == orig[i..]
    {
      ghost var cur := a[..];
      InsertInPlace(a, i, key, dir);
      SortInPlaceStep(orig, cur, a[..], i, key, dir);
      i := i + 1;
    }
    assert a[..] == a[..a.Length] && orig == orig[..a.Length];
  }

  /** One pass of the outer loop, on the array's contents before and after it. */
  lemma SortInPlaceStep<T>(orig: seq<T>, cur: seq<T>, next: seq<T>, i: nat, key: T -> Key, dir: Direction)
    requires i < |orig| == |cur| == |next|
    requires cur[..i] == Sort(orig[..i], key, dir) && cur[i..] == orig[i..]
    requires next[..i + 1] == Insert(cur[i], cur[..i], key, dir) && next[i + 1..] == cur[i + 1..]
    ensures next[..i + 1] == Sort(orig[..i + 1], key, dir)
    ensures next[i + 1..] == orig[i + 1..]
  {
    SuffixStep(orig, cur, i);
    SortPrefixStep(orig, i, key, dir);
  }

  /** Equal suffixes from `i` agree at `i` and from `i + 1`. */
  lemma SuffixStep<T>(orig: seq<T>, cur: seq<T>, i: nat)
    requires i < |orig| == |cur| && cur[i..] == orig[i..]
    ensures cur[i] == orig[i] && cur[i + 1..] == orig[i + 1..]
  {
    assert cur[i] == cur[i..][0];
    assert cur[i + 1..] == cur[i..][1..];
  }

  /** Sorting one more element of a prefix inserts it into the sorted shorter prefix. */
  lemma SortPrefixStep<T>(s: seq<T>, i: nat, key: T -> Key, dir: Direction)
    requires i < |s|
    ensures Sort(s[..i + 1], key, dir) == Insert(s[i], Sort(s[..i], key, dir), key, dir)
  {
    assert s[..i + 1][..i] == s[..i];
  }

  /** One step of the insertion sort: moves `a[i]` left into the ordered prefix `a[..i]`. */
  method InsertInPlace<T>(a: array<T>, i: nat, key: T -> Key, dir: Direction)
    requires i < a.Length
    modifies a
    ensures a[..i + 1] == Insert(old(a[i]), old(a[..i]), key, dir)
    ensures a[i + 1..] == old(a[i + 1..])
  {
    var x := a[i];
    ghost var before := a[..];
    var j := ShiftRight(a, i, x, key, dir);
    a[j] := x;
    InsertSkips(x, before[..i], j, key, dir);
    InsertStop(x, before[..i], j, key, dir);
    Reassemble(before, a[..], i, j, x);
  }

  /** The inner loop: shifts right, by one place, the elements of `a[..i]` that `x` goes
      before, scanning from the right, and returns the hole it leaves. */
  method ShiftRight<T>(a: array<T>, i: nat, x: T, key: T -> Key, dir: Direction) returns (j: nat)
    requires i < a.Length
    modifies a
    ensures j <= i
    ensures forall k :: 0 <= k < j ==> a[k] == old(a[k])
    ensures forall k :: j < k <= i ==> a[k] == old(a[k - 1])
    ensures forall k :: i < k < a.Length ==> a[k] == old(a[k])
    ensures j == 0 || !Before(dir, key(x), key(old(a[j - 1])))
    ensures forall k :: j <= k < i ==> Before(dir, key(x), key(old(a[k])))
  {
    j := i;
    while j > 0 && Before(dir, key(x), key(a[j - 1]))
      invariant 0 <= j <= i
      invariant forall k :: 0 <= k < j ==> a[k] == old(a[k])
      invariant forall k :: j < k <= i ==> a[k] == old(a[k - 1])
      invariant forall k :: i < k < a.Length ==> a[k] == old(a[k])
      invariant forall k :: j <= k < i ==> Before(dir, key(x), key(old(a[k])))
    {
      a[j] := a[j - 1];
      j := j - 1;
    }
  }

  /** The array after the shift and the final write, as a sequence. */
  lemma Reassemble<T>(before: seq<T>, after: seq<T>, i: nat, j: nat, x: T)
    requires j <= i < |before| == |after|
    requires forall k :: 0 <= k < j ==> after[k] == before[k]
    requires after[j] == x
    requires forall k :: j < k <= i ==> after[k] == before[k - 1]
    requires forall k :: i < k < |after| ==> after[k] == before[k]
    ensures after[..i + 1] == before[..i][..j] + [x] + before[..i][j..]
    ensures after[i + 1..] == before[i + 1..]
  {
  }

  /** `x` goes before every element of `s` from `j` on: it is inserted into `s[..j]`. */
  lemma {:induction false} InsertSkips<T>(x: T, s: seq<T>, j: nat, key: T -> Key, dir: Direction)
    requires j <= |s|
    requires forall k :: j <= k < |s| ==> Before(dir, key(x), key(s[k]))
    ensures Insert(x, s, key, dir) == Insert(x, s[..j], key, dir) + s[j..]
    decreases |s|
  {
    if j < |s| {
      var front, l := s[..|s| - 1], s[|s| - 1];
      InsertPastLast(x, s, key, dir);
      InsertSkips(x, front, j, key, dir);
      assert front[..j] == s[..j];
      assert front[j..] + [l] == s[j..];
    } else {
      assert s[..j] == s && s[j..] == [];
    }
  }

  /** Stopping where `x` does not go before the element on its left. */
  lemma InsertStop<T>(x: T, sorted: seq<T>, j: nat, key: T -> Key, dir: Direction)
    requires j <= |sorted| && (j == 0 || !Before(dir, key(x), key(sorted[j - 1])))
    ensures Insert(x, sorted[..j], key, dir) == sorted[..j] + [x]
  {
  }
}
