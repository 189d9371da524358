/** The weights chart: the items are sorted in place by weight, heaviest first, the
    zero-weight ones are dropped, and each remaining item is drawn as a square image
    whose side is the box size scaled by its weight relative to the heaviest item. */
module Weights {
  import opened Wrappers
  import opened Sorting
  import Utils

  datatype WeightItem = WeightItem(key: string, title: string, description: string, weight: real, img: string)

  function WeightKey(d: WeightItem): Key {
    Num(d.weight)
  }

  /** Heaviest first: no item is lighter than one after it. */
  predicate HeaviestFirst(s: seq<WeightItem>) {
    forall i, j :: 0 <= i < j < |s| ==> s[j].weight <= s[i].weight
  }

  /** Sorted by `sortByKey(data, 'weight')` means heaviest first. */
  lemma SortedByWeight(s: seq<WeightItem>)
    requires SortedBy(s, WeightKey, Desc)
    ensures HeaviestFirst(s)
  {
    forall i, j | 0 <= i < j < |s| ensures s[j].weight <= s[i].weight {
      assert !Before(Desc, WeightKey(s[j]), WeightKey(s[i]));
    }
  }

  // ---------------------------------------------------------------- the filter

  /** `sortedData.filter(d => d.weight !== 0)` */
  function NonZero(s: seq<WeightItem>): seq<WeightItem> {
    if s == [] then []
    else NonZero(s[..|s| - 1]) + (if s[|s| - 1].weight != 0.0 then [s[|s| - 1]] else [])
  }

  /** Exactly the zero-weight items are dropped: each item with a non-zero weight is kept
      as many times as it occurs, and no zero-weight item is kept. */
  lemma {:induction false} NonZeroKeepsExactly(s: seq<WeightItem>)
    ensures forall x :: multiset(NonZero(s))[x] == if x.weight != 0.0 then multiset(s)[x] else 0
  {
    if s != [] {
      var n := |s| - 1;
      NonZeroKeepsExactly(s[..n]);
      assert s == s[..n] + [s[n]];
    }
  }

  /** The filter works piece by piece: filtering a concatenation filters each part and
      keeps the parts in place, so the kept items keep their relative order, ties
      included. */
  lemma {:induction false} NonZeroAppend(a: seq<WeightItem>, b: seq<WeightItem>)
    ensures NonZero(a + b) == NonZero(a) + NonZero(b)
    decreases |b|
  {
    if b == [] {
      assert a + b == a;
    } else {
      var n := |b| - 1;
      NonZeroAppend(a, b[..n]);
      assert (a + b)[..|a + b| - 1] == a + b[..n];
    }
  }

  /** The kept items stay in their order: a heaviest-first list stays heaviest first. */
  lemma {:induction false} NonZeroKeepsOrder(s: seq<WeightItem>)
    requires HeaviestFirst(s)
    ensures HeaviestFirst(NonZero(s))
    ensures forall x :: x in NonZero(s) ==> x in s
  {
    if s != [] {
      var n := |s| - 1;
      assert HeaviestFirst(s[..n]);
      NonZeroKeepsOrder(s[..n]);
      var front := NonZero(s[..n]);
      if s[n].weight != 0.0 {
        forall i | 0 <= i < |front| ensures s[n].weight <= front[i].weight {
          assert front[i] in s[..n];
          var j :| 0 <= j < n && s[..n][j] == front[i];
        }
      }
    }
  }

  // ---------------------------------------------------------------- the sizes

  /** `d3.max(sortedData, d => d.weight)`, `None` for no items. */
  function MaxWeight(s: seq<WeightItem>): (r: Option<real>)
    ensures r.Some? <==> s != []
    ensures r.Some? ==> (exists i :: 0 <= i < |s| && s[i].weight == r.value) && forall i :: 0 <= i < |s| ==> s[i].weight <= r.value
  {
    if s == [] then None
    else
      var m := MaxWeight(s[..|s| - 1]);
      if m.Some? && m.value >= s[|s| - 1].weight then
        assert forall i :: 0 <= i < |s| - 1 ==> s[i] == s[..|s| - 1][i];
        m
      else
        assert forall i :: 0 <= i < |s| - 1 ==> s[i] == s[..|s| - 1][i];
        Some(s[|s| - 1].weight)
  }

  /** `box * weightScale(weight)` with the scale from [0, max] onto [0, 1]. A zero maximum
      makes the scale degenerate, which is not modelled (`None`). */
  function Side(box: real, weight: real, max: real): Option<real> {
    if max == 0.0 then None else Some(box * weight / max)
  }

  datatype Drawn = Drawn(item: WeightItem, side: Option<real>)

  /** The drawn items, given the sorted data and the box option. */
  function DrawnItems(sorted: seq<WeightItem>, box: Option<real>): seq<Drawn> {
    var b := box.GetOr(150.0);
    var max := MaxWeight(sorted);
    var kept := NonZero(sorted);
    seq(|kept|, i requires 0 <= i < |kept| => Drawn(kept[i], if max.Some? then Side(b, kept[i].weight, max.value) else None))
  }

  /** The chart as drawn: `data` itself is reordered, and the drawn items are the
      non-zero ones in that order. */
  method DrawWeightsChart(data: array<WeightItem>, box: Option<real>) returns (drawn: seq<Drawn>)
    modifies data
    ensures multiset(data[..]) == multiset(old(data[..]))
    ensures HeaviestFirst(data[..])
    ensures drawn == DrawnItems(data[..], box)
  {
    var sortedData := Utils.SortByKey(data, WeightKey);
    SortedByWeight(data[..]);
    drawn := DrawnItems(sortedData[..], box);
  }

  /** The drawn items are the kept items, one for one. */
  lemma DrawnAreKept(sorted: seq<WeightItem>, box: Option<real>)
    ensures |DrawnItems(sorted, box)| == |NonZero(sorted)|
    ensures forall i :: 0 <= i < |NonZero(sorted)| ==> DrawnItems(sorted, box)[i].item == NonZero(sorted)[i]
  {
  }

  /** Items are drawn heaviest first. */
  lemma DrawnInOrder(sorted: seq<WeightItem>, box: Option<real>)
    requires HeaviestFirst(sorted)
    ensures var d := DrawnItems(sorted, box);
      forall i, j :: 0 <= i < j < |d| ==> d[j].item.weight <= d[i].item.weight
  {
    NonZeroKeepsOrder(sorted);
    DrawnAreKept(sorted, box);
  }

  /** Every drawn item has a non-zero weight and comes from the data. */
  lemma DrawnAreNonZero(sorted: seq<WeightItem>, box: Option<real>)
    ensures var d := DrawnItems(sorted, box);
      forall i :: 0 <= i < |d| ==> d[i].item.weight != 0.0 && d[i].item in sorted
  {
    NonZeroKeepsExactly(sorted);
    DrawnAreKept(sorted, box);
    var kept := NonZero(sorted);
    forall i | 0 <= i < |kept| ensures kept[i].weight != 0.0 && kept[i] in sorted {
      assert multiset(kept)[kept[i]] > 0;
    }
  }

  /** When the heaviest item is non-zero, it is drawn first, at the full box size (150
      by default); this holds even when every weight is negative. */
  lemma HeaviestDrawnFull(sorted: seq<WeightItem>, box: Option<real>)
    requires HeaviestFirst(sorted)
    requires sorted != [] && sorted[0].weight != 0.0
    ensures var d := DrawnItems(sorted, box);
      d != [] && d[0].item == sorted[0] && d[0].side == Some(box.GetOr(150.0))
  {
    HeaviestIsFirstKept(sorted);
    DrawnAreKept(sorted, box);
    var max := MaxWeight(sorted);
    assert max.value == sorted[0].weight by {
      var i :| 0 <= i < |sorted| && sorted[i].weight == max.value;
      assert sorted[0].weight >= max.value by {
        if i > 0 {
          assert sorted[i].weight <= sorted[0].weight;
        }
      }
    }
    var b := box.GetOr(150.0);
    assert DrawnItems(sorted, box)[0].side == Side(b, NonZero(sorted)[0].weight, max.value);
    SideOfHeaviest(b, sorted[0].weight);
  }

  /** The heaviest item's side is the box. */
  lemma SideOfHeaviest(box: real, max: real)
    requires max != 0.0
    ensures Side(box, max, max) == Some(box)
  {
    var q := box * max / max;
    assert q * max == box * max;
  }

  /** The first kept item of a heaviest-first list with a positive head is its head. */
  lemma {:induction false} HeaviestIsFirstKept(s: seq<WeightItem>)
    requires s != [] && s[0].weight != 0.0
    ensures NonZero(s) != [] && NonZero(s)[0] == s[0]
  {
    if |s| > 1 {
      var n := |s| - 1;
      HeaviestIsFirstKept(s[..n]);
      assert s[..n][0] == s[0];
    } else {
      assert s[..0] == [];
    }
  }
}
