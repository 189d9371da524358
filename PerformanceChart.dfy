/** The class performance chart: one row per student, sortable by name, with three
    stacked sub-bars (one per difficulty) showing wrong and right answers against the
    number of questions, and a `answered/total` label beside each. */
module PerformanceChart {
  import opened Wrappers
  import opened Text
  import opened Sorting

  // ---------------------------------------------------------------- parsing

  /** A parsed JSON value. */
  datatype Json =
    | JNull
    | JBool(b: bool)
    | JNum(x: real)
    | JStr(s: string)
    | JArray(items: seq<Json>)
    | JObject(fields: map<string, Json>)

  datatype ParseError =
    | TypeError          // reading a property of `null`
    | InvalidFormat      // "Formato de JSON inválido: esperado array de estudantes."

  /** `parsePerformanceData`: the input is accepted, unchanged, when its `students` property
      is an array; any other value throws. */
  function ParsePerformanceData(j: Json): Result<Json, ParseError> {
    match j
    case JNull => Err(TypeError)
    case JObject(fields) =>
      if "students" in fields && fields["students"].JArray? then Ok(j) else Err(InvalidFormat)
    case _ => Err(InvalidFormat)
  }

  /** Parsing succeeds exactly when `students` is an array, and then returns its input. */
  lemma ParseAcceptsExactlyStudentArrays(j: Json)
    ensures ParsePerformanceData(j).Ok? <==> j.JObject? && "students" in j.fields && j.fields["students"].JArray?
    ensures ParsePerformanceData(j).Ok? ==> ParsePerformanceData(j).value == j
    ensures ParsePerformanceData(j).Err? && j != JNull ==> ParsePerformanceData(j).error == InvalidFormat
  {
  }

  // ---------------------------------------------------------------- rows and sort order

  datatype Performance = Performance(difficulty: string, correct: nat, incorrect: nat, total: nat)
  datatype Student = Student(id: string, name: string, avatar: string, performances: seq<Performance>)

  datatype Order = Ascending | Descending

  /** `sortBy.order === 'asc' ? d3.ascending : d3.descending`: an absent order sorts
      descending. */
  function DirectionOf(order: Option<Order>): Direction {
    if order == Some(Ascending) then Asc else Desc
  }

  /** The header's arrow. */
  function Arrow(order: Option<Order>): string {
    if order == Some(Ascending) then "\U{25B2}" else "\U{25BC}"
  }

  /** The header click: `asc` becomes `desc`, anything else becomes `asc`. */
  function Flip(order: Option<Order>): Order {
    if order == Some(Ascending) then Descending else Ascending
  }

  /** The arrow always shows the direction the rows are sorted in; a click reverses the
      direction, so two clicks restore it; an initial sort given without an order sorts
      descending, shows the down arrow and becomes ascending on the first click. */
  lemma OrderRules(order: Option<Order>)
    ensures Arrow(order) == "\U{25B2}" <==> DirectionOf(order) == Asc
    ensures DirectionOf(Some(Flip(order))) != DirectionOf(order)
    ensures DirectionOf(Some(Flip(Some(Flip(order))))) == DirectionOf(order)
    ensures order == None ==> DirectionOf(order) == Desc && Arrow(order) == "\U{25BC}" && Flip(order) == Ascending
  {
  }

  function NameKey(s: Student): Key {
    Text(s.name)
  }

  /** The band scale's domain: the ids in row order. */
  function Ids(rows: seq<Student>): (r: seq<string>)
    ensures |r| == |rows|
    ensures forall k :: 0 <= k < |rows| ==> r[k] == rows[k].id
  {
    if rows == [] then [] else Ids(rows[..|rows| - 1]) + [rows[|rows| - 1].id]
  }

  /** `options.initialSort`: an object the caller owns and the chart keeps a reference to. */
  class SortSpec {
    var order: Option<Order>

    constructor(order: Option<Order>)
      ensures this.order == order
    {
      this.order := order;
    }
  }

  class Chart {
    const sortBy: SortSpec
    const students: array<Student>
    var yDomain: seq<string>

    /** The set-up of `drawPerformanceChart`: `sortBy` is the caller's `initialSort` object
        itself when there is one; the rows are sorted by name and the y-domain lists their
        ids in that order. */
    constructor(students: array<Student>, initialSort: SortSpec?)
      modifies students
      ensures this.students == students
      ensures initialSort != null ==> sortBy == initialSort && sortBy.order == old(initialSort.order)
      ensures initialSort == null ==> fresh(sortBy) && sortBy.order == Some(Ascending)
      ensures students[..] == Sort(old(students[..]), NameKey, DirectionOf(sortBy.order))
      ensures yDomain == Ids(students[..])
    {
      this.students := students;
      if initialSort != null {
        sortBy := initialSort;
      } else {
        sortBy := new SortSpec(Some(Ascending));
      }
      new;
      SortInPlace(students, NameKey, DirectionOf(sortBy.order));
      yDomain := Ids(students[..]);
    }

    /** A click on the student header: flip the order in place, then `handleSort`. */
    method Click()
      modifies this, sortBy, students
      ensures sortBy.order == Some(Flip(old(sortBy.order)))
      ensures Header()[10] == (if old(sortBy.order) == Some(Ascending) then '\U{25BC}' else '\U{25B2}')
      ensures students[..] == Sort(old(students[..]), NameKey, DirectionOf(sortBy.order))
      ensures yDomain == Ids(students[..])
    {
      sortBy.order := Some(Flip(sortBy.order));
      HandleSort();
    }

    /** `handleSort`: re-sort the rows in place by name and re-key the band scale. */
    method HandleSort()
      modifies this, students
      ensures students[..] == Sort(old(students[..]), NameKey, DirectionOf(sortBy.order))
      ensures yDomain == Ids(students[..])
    {
      SortInPlace(students, NameKey, DirectionOf(sortBy.order));
      yDomain := Ids(students[..]);
    }

    /** The student column's header: `Estudante ` and an arrow that points up exactly
        when the rows are sorted ascending. */
    function Header(): (h: string)
      reads this, sortBy
      ensures |h| == 11 && h[..10] == "Estudante "
      ensures h[10] == '\U{25B2}' <==> DirectionOf(sortBy.order) == Asc
      ensures h[10] == '\U{25BC}' <==> DirectionOf(sortBy.order) == Desc
    {
      "Estudante " + Arrow(sortBy.order)
    }
  }

  /** The chart writes its clicks into the caller's options: after one click, the
      `initialSort` object passed in without an order now holds `asc`. */
  method ClickWritesCallerOptions(students: array<Student>) returns (after: Option<Order>)
    modifies students
    ensures after == Some(Ascending)
  {
    var options := new SortSpec(None);
    var chart := new Chart(students, options);
    chart.Click();
    after := options.order;
  }

  /** A re-sort keeps the same rows, sorted by name in the chosen direction, and lists
      the y-domain in that order. */
  lemma ResortGuarantees(rows: seq<Student>, order: Option<Order>)
    ensures var r := Sort(rows, NameKey, DirectionOf(order));
      && multiset(r) == multiset(rows)
      && SortedBy(r, NameKey, DirectionOf(order))
      && |Ids(r)| == |rows|
  {
    SortPermutes(rows, NameKey, DirectionOf(order));
    SortSorts(rows, NameKey, DirectionOf(order));
    assert |Sort(rows, NameKey, DirectionOf(order))| == |rows| by {
      assert |multiset(Sort(rows, NameKey, DirectionOf(order)))| == |multiset(rows)|;
    }
  }

  /** Rows are striped by rank: light grey on even ranks, white on odd ones. */
  function RowFill(rank: nat): string {
    if rank % 2 == 0 then "#F9FAFB" else "#FFFFFF"
  }

  lemma RowFillAlternates(rank: nat)
    ensures RowFill(rank) != RowFill(rank + 1)
    ensures RowFill(rank) == RowFill(rank + 2)
    ensures RowFill(0) == "#F9FAFB"
  {
  }

  // ---------------------------------------------------------------- sub-bars

  const SubBarHeight: nat := 16
  const SubBarSpacing: nat := 6

  /** The top of sub-bar `i`. */
  function SubBarY(i: nat): nat {
    i * (SubBarHeight + SubBarSpacing)
  }

  /** Sub-bars are 22 px apart and a later sub-bar starts 6 px or more below the end of
      an earlier one, so they never overlap. */
  lemma SubBarsDisjoint(i: nat, j: nat)
    requires i < j
    ensures SubBarY(i) == 22 * i
    ensures SubBarY(i) + SubBarHeight + SubBarSpacing <= SubBarY(j)
  {
    assert SubBarY(j) - SubBarY(i) == (j - i) * 22;
  }

  /** A horizontal bar. */
  datatype Bar = Bar(x: real, width: real)

  /** The grey total bar, the red wrong-answers bar and the green right-answers bar of
      one difficulty under the linear scale `v * k`. */
  function TotalBar(p: Performance, k: real): Bar { Bar(0.0, p.total as real * k) }
  function WrongBar(p: Performance, k: real): Bar { Bar(0.0, p.incorrect as real * k) }
  function RightBar(p: Performance, k: real): Bar { Bar(p.incorrect as real * k, p.correct as real * k) }

  /** The red bar starts at the origin and the green bar starts where the red one ends;
      when no more questions were answered than exist, both lie within the grey bar. */
  lemma BarsAdjacent(p: Performance, k: real)
    requires k >= 0.0
    ensures WrongBar(p, k).x == 0.0
    ensures RightBar(p, k).x == WrongBar(p, k).x + WrongBar(p, k).width
    ensures p.correct + p.incorrect <= p.total ==> RightBar(p, k).x + RightBar(p, k).width <= TotalBar(p, k).width
  {
    if p.correct + p.incorrect <= p.total {
      assert (p.correct + p.incorrect) as real * k <= p.total as real * k;
    }
  }

  // ---------------------------------------------------------------- the fraction label

  function Pad2(n: nat): string {
    PadStart(NatToString(n), 2, '0')
  }

  /** `${pad2(correct + incorrect)}/${pad2(total)}` */
  function FractionLabel(p: Performance): string {
    Pad2(p.correct + p.incorrect) + "/" + Pad2(p.total)
  }

  /** Reads a label `a/b` of decimal digits back. */
  function ReadFraction(s: string): Option<(nat, nat)> {
    if '/' !in s then None
    else
      var i := IndexOf(s, '/');
      ReadPair(s[..i], s[i + 1..])
  }

  /** The parts around the slash: two non-empty digit strings. */
  function ReadPair(a: string, b: string): Option<(nat, nat)> {
    if a != [] && b != [] && AllDigits(a) && AllDigits(b) then Some((DigitsValue(a), DigitsValue(b)))
    else None
  }

  /** A padded number is at least two digits long and denotes the number. */
  lemma Pad2Value(n: nat)
    ensures |Pad2(n)| >= 2 && AllDigits(Pad2(n)) && DigitsValue(Pad2(n)) == n
  {
    var s := NatToString(n);
    var p := Pad2(n);
    var z := p[..|p| - |s|];
    assert p == z + s;
    LeadingZerosValue(z, s);
    NatToStringRoundTrip(n);
  }

  /** Two digit strings around a slash read back as their values. */
  lemma ReadDigitsAroundSlash(a: string, b: string)
    requires AllDigits(a)
    ensures ReadFraction(a + "/" + b) == ReadPair(a, b)
  {
    DigitsExclude(a, '/');
    IndexOfAfter(a, '/', b);
  }

  /** The label reads back as the number answered and the number of questions, each
      written with at least two digits. */
  lemma FractionRoundTrip(p: Performance)
    ensures ReadFraction(FractionLabel(p)) == Some((p.correct + p.incorrect, p.total))
    ensures |FractionLabel(p)| >= 5
  {
    var answered := p.correct + p.incorrect;
    PadsReadBack(answered, p.total);
    ReadDigitsAroundSlash(Pad2(answered), Pad2(p.total));
  }

  lemma PadsReadBack(a: nat, b: nat)
    ensures AllDigits(Pad2(a)) && |Pad2(a)| >= 2 && |Pad2(b)| >= 2
    ensures ReadPair(Pad2(a), Pad2(b)) == Some((a, b))
  {
    Pad2Value(a);
    Pad2Value(b);
  }
}
