/** The per-day aggregation and left-to-right placement shared by the two interaction
    charts: every day of the range gets an entry (empty when the student has no data for
    it), each entry carries its total minutes, and the day boxes are laid out in one row
    by accumulating an x offset.

    Days are integer indices and instants whole minutes; widths are pixels. */
module DailyLayout {

  datatype Session = Session(start: int, end: int, kind: string)
  datatype DailyData = DailyData(day: int, sessions: seq<Session>)
  datatype DayEntry = DayEntry(day: int, sessions: seq<Session>, total: int)

  // ---------------------------------------------------------------- the days of the range

  /** `d3.timeDay.range(startDate, endDate + 1 day)`: the days from `first` through `last`. */
  function Days(first: int, last: int): (r: seq<int>)
    ensures |r| == if last < first then 0 else last - first + 1
    ensures forall i :: 0 <= i < |r| ==> r[i] == first + i
  {
    if last < first then [] else seq(last - first + 1, i => first + i)
  }

  // ---------------------------------------------------------------- the student's map of days

  /** `new Map(dailyData.map(d => [d.date, d.sessions]))`: entries are inserted in order,
      so a later entry for the same day replaces an earlier one. */
  function DailyMap(dd: seq<DailyData>): map<int, seq<Session>> {
    if dd == [] then map[] else DailyMap(dd[..|dd| - 1])[dd[|dd| - 1].day := dd[|dd| - 1].sessions]
  }

  /** A day is in the map exactly when some entry has it, and it holds the sessions of the
      last such entry. */
  lemma {:induction false} DailyMapLastWins(dd: seq<DailyData>, d: int)
    ensures d in DailyMap(dd) <==> exists i :: 0 <= i < |dd| && dd[i].day == d
    ensures forall i :: 0 <= i < |dd| && dd[i].day == d && (forall j :: i < j < |dd| ==> dd[j].day != d) ==>
      DailyMap(dd)[d] == dd[i].sessions
  {
    if dd != [] {
      var n := |dd| - 1;
      DailyMapLastWins(dd[..n], d);
      if dd[n].day != d {
        assert forall i :: 0 <= i < n ==> dd[..n][i] == dd[i];
      }
    }
  }

  /** `dailyMap.get(day) || []` */
  function SessionsOn(m: map<int, seq<Session>>, day: int): seq<Session> {
    if day in m then m[day] else []
  }

  // ---------------------------------------------------------------- totals

  /** `d3.sum(sessions, s => (s.end - s.start) / 60000)` on whole minutes. */
  function DailyTotal(ss: seq<Session>): int {
    if ss == [] then 0 else DailyTotal(ss[..|ss| - 1]) + (ss[|ss| - 1].end - ss[|ss| - 1].start)
  }

  /** A day whose sessions all end no earlier than they start has a non-negative total,
      and an empty day has 0. */
  lemma {:induction false} DailyTotalNonNegative(ss: seq<Session>)
    requires forall i :: 0 <= i < |ss| ==> ss[i].start <= ss[i].end
    ensures DailyTotal(ss) >= 0
  {
    if ss != [] {
      DailyTotalNonNegative(ss[..|ss| - 1]);
    }
  }

  /** The augmented daily data of one student: one entry per day of the range. */
  function Augment(dd: seq<DailyData>, first: int, last: int): (r: seq<DayEntry>)
    ensures |r| == |Days(first, last)|
  {
    var m := DailyMap(dd);
    var days := Days(first, last);
    seq(|days|, i requires 0 <= i < |days| => DayEntry(days[i], SessionsOn(m, days[i]), DailyTotal(SessionsOn(m, days[i]))))
  }

  /** `d3.sum(augmentedDailyData, d => d.dailyTotalMinutes)` */
  function GrandTotal(es: seq<DayEntry>): int {
    if es == [] then 0 else GrandTotal(es[..|es| - 1]) + es[|es| - 1].total
  }

  /** Entry `i` is day `first + i`; it holds the sessions of the student's last entry for
      that day and their total, or no sessions and total 0 when there is none; entries for
      days outside the range appear nowhere. */
  lemma AugmentEntries(dd: seq<DailyData>, first: int, last: int, i: int)
    requires 0 <= i < |Augment(dd, first, last)|
    ensures var e := Augment(dd, first, last)[i];
      && e.day == first + i && first <= e.day <= last
      && e.total == DailyTotal(e.sessions)
      && ((forall j :: 0 <= j < |dd| ==> dd[j].day != e.day) ==> e.sessions == [] && e.total == 0)
      && (forall j :: 0 <= j < |dd| && dd[j].day == e.day && (forall l :: j < l < |dd| ==> dd[l].day != e.day) ==>
            e.sessions == dd[j].sessions)
  {
    DailyMapLastWins(dd, first + i);
  }

  /** The grand total of a day range: the daily totals of the days read from the map. */
  function RangeTotal(m: map<int, seq<Session>>, first: int, n: nat): int {
    if n == 0 then 0 else RangeTotal(m, first, n - 1) + DailyTotal(SessionsOn(m, first + n - 1))
  }

  lemma {:induction false} GrandTotalOfPrefix(es: seq<DayEntry>, m: map<int, seq<Session>>, first: int, n: nat)
    requires n <= |es|
    requires forall i :: 0 <= i < |es| ==> es[i].total == DailyTotal(SessionsOn(m, first + i))
    ensures GrandTotal(es[..n]) == RangeTotal(m, first, n)
  {
    if n > 0 {
      assert es[..n][..n - 1] == es[..n - 1];
      GrandTotalOfPrefix(es, m, first, n - 1);
    }
  }

  /** Adding one day to the map changes the range total by that day's total, when the day
      was absent and lies in the range. */
  lemma {:induction false} RangeTotalInsert(m: map<int, seq<Session>>, first: int, n: nat, d: int, v: seq<Session>)
    requires d !in m
    ensures RangeTotal(m[d := v], first, n) == RangeTotal(m, first, n) + (if first <= d < first + n then DailyTotal(v) else 0)
  {
    if n > 0 {
      RangeTotalInsert(m, first, n - 1, d, v);
    }
  }

  predicate DistinctDays(dd: seq<DailyData>) {
    forall i, j :: 0 <= i < j < |dd| ==> dd[i].day != dd[j].day
  }

  /** The sum of the totals of the student's own entries. */
  function EntriesTotal(dd: seq<DailyData>): int {
    if dd == [] then 0 else EntriesTotal(dd[..|dd| - 1]) + DailyTotal(dd[|dd| - 1].sessions)
  }

  lemma {:induction false} RangeTotalOfDistinct(dd: seq<DailyData>, first: int, n: nat)
    requires DistinctDays(dd)
    requires forall i :: 0 <= i < |dd| ==> first <= dd[i].day < first + n
    ensures RangeTotal(DailyMap(dd), first, n) == EntriesTotal(dd)
  {
    if dd == [] {
      RangeTotalOfEmpty(first, n);
    } else {
      var k := |dd| - 1;
      RangeTotalOfDistinct(dd[..k], first, n);
      DailyMapLastWins(dd[..k], dd[k].day);
      RangeTotalInsert(DailyMap(dd[..k]), first, n, dd[k].day, dd[k].sessions);
    }
  }

  lemma {:induction false} RangeTotalOfEmpty(first: int, n: nat)
    ensures RangeTotal(map[], first, n) == 0
  {
    if n > 0 {
      RangeTotalOfEmpty(first, n - 1);
    }
  }

  /** When the student's entries name distinct days inside the range, the grand total is
      the sum of the totals of those entries: no session is lost or counted twice. */
  lemma {:induction false} GrandTotalCountsEverySession(dd: seq<DailyData>, first: int, last: int)
    requires DistinctDays(dd)
    requires forall i :: 0 <= i < |dd| ==> first <= dd[i].day <= last
    ensures GrandTotal(Augment(dd, first, last)) == EntriesTotal(dd)
  {
    var es := Augment(dd, first, last);
    var m := DailyMap(dd);
    if last < first {
      if dd != [] {
        assert false;
      }
    } else {
      var n := last - first + 1;
      GrandTotalOfPrefix(es, m, first, n);
      assert es[..n] == es;
      RangeTotalOfDistinct(dd, first, n);
    }
  }

  // ---------------------------------------------------------------- widths and placement

  const DaySpacing: real := 3.0
  const EmptyDayWidth: real := 10.0

  /** `d.dailyTotalMinutes > 0 ? timeScaleWidth(d.dailyTotalMinutes) : 10` under the
      linear scale `v * k`. */
  function Width(total: int, k: real): real {
    if total > 0 then total as real * k else EmptyDayWidth
  }

  /** The box colour: blue for a day with time, grey otherwise. */
  function DayFill(total: int): string {
    if total > 0 then "#3182ce" else "#8c8c8cff"
  }

  /** The weekday letter's x: the middle of the box. */
  function LabelX(total: int, k: real): real {
    Width(total, k) / 2.0
  }

  /** A day without time is a grey 10 px box; a day with time is as wide as its scaled
      minutes; under a positive scale every box has a positive width and the weekday
      letter sits strictly inside it, halfway. */
  lemma WidthRule(total: int, k: real)
    requires k > 0.0
    ensures total <= 0 ==> Width(total, k) == 10.0 && DayFill(total) == "#8c8c8cff"
    ensures total > 0 ==> Width(total, k) == total as real * k && DayFill(total) == "#3182ce"
    ensures Width(total, k) > 0.0
    ensures 0.0 < LabelX(total, k) < Width(total, k) && 2.0 * LabelX(total, k) == Width(total, k)
  {
    if total > 0 {
      assert total as real * k > 0.0;
    }
  }

  /** `timeScaleWidth`: minutes 0 .. max + 120 onto 0 .. width. */
  function ScaleFactor(width: real, maxTotal: int): real
    requires maxTotal + 120 > 0
  {
    width / (maxTotal + 120) as real
  }

  /** Under that scale the longest day of the longest student still leaves two hours of
      room: any total up to the maximum is drawn narrower than the full width. */
  lemma ScaleLeavesMargin(width: real, maxTotal: int, total: int)
    requires maxTotal >= 0 && width > 0.0 && 0 <= total <= maxTotal
    ensures 0.0 <= total as real * ScaleFactor(width, maxTotal) < width
  {
    var d := (maxTotal + 120) as real;
    var k := ScaleFactor(width, maxTotal);
    assert k * d == width;
    assert total as real * k < d * k;
  }

  /** The x of each day group: the first at 0, each next one a box width plus 3 px
      further. */
  method PlaceDays(es: seq<DayEntry>, k: real) returns (xs: seq<real>)
    ensures |xs| == |es|
    ensures |xs| > 0 ==> xs[0] == 0.0
    ensures forall i :: 0 <= i < |xs| - 1 ==> xs[i + 1] == xs[i] + Width(es[i].total, k) + DaySpacing
  {
    var currentX := 0.0;
    xs := [];
    for i := 0 to |es|
      invariant |xs| == i
      invariant i > 0 ==> xs[0] == 0.0
      invariant forall j :: 0 <= j < i - 1 ==> xs[j + 1] == xs[j] + Width(es[j].total, k) + DaySpacing
      invariant i > 0 ==> currentX == xs[i - 1] + Width(es[i - 1].total, k) + DaySpacing
      invariant i == 0 ==> currentX == 0.0
    {
      xs := xs + [currentX];
      currentX := currentX + Width(es[i].total, k) + DaySpacing;
    }
  }

  /** Offsets built by that rule never let two day boxes touch: under a non-negative scale
      each box ends at least 3 px before every later box starts, so the offsets strictly
      increase. */
  lemma {:induction false} PlacementDisjoint(es: seq<DayEntry>, k: real, xs: seq<real>, i: int, j: int)
    requires k >= 0.0
    requires |xs| == |es|
    requires forall l :: 0 <= l < |xs| - 1 ==> xs[l + 1] == xs[l] + Width(es[l].total, k) + DaySpacing
    requires 0 <= i < j < |xs|
    ensures xs[i] + Width(es[i].total, k) + DaySpacing <= xs[j]
    ensures xs[i] < xs[j]
    decreases j - i
  {
    assert Width(es[i].total, k) >= 0.0 by {
      if es[i].total > 0 {
        assert es[i].total as real * k >= 0.0;
      }
    }
    if j > i + 1 {
      PlacementDisjoint(es, k, xs, i + 1, j);
      assert Width(es[i + 1].total, k) >= 0.0 by {
        if es[i + 1].total > 0 {
          assert es[i + 1].total as real * k >= 0.0;
        }
      }
    }
  }
}
