/** The attendance timeline chart: minutes each student spent inside the event window,
    the sortable student rows, the red/amber/blue classification of each student's
    bars, the time label and the absence-threshold input.

    Instants are whole minutes on one clock. */
module EventTimelineChart {
  import opened Wrappers
  import opened Text
  import opened Sorting
  import WordWrap

  datatype Session = Session(start: int, end: int)
  datatype Student = Student(name: string, avatar: string, sessions: seq<Session>)
  datatype Event = Event(start: int, end: int)

  function Max(a: int, b: int): int { if a >= b then a else b }
  function Min(a: int, b: int): int { if a <= b then a else b }

  // ---------------------------------------------------------------- minutes inside the event

  /** `getMinutesWithinEvent`: the session clipped to the event window, never negative. */
  function MinutesWithinEvent(s: Session, ev: Event): int {
    Max(0, Min(s.end, ev.end) - Max(s.start, ev.start))
  }

  /** `eventDurationMinutes` */
  function Duration(ev: Event): int {
    ev.end - ev.start
  }

  /** The clipped minutes lie between 0 and the event's duration; a session wholly outside
      the window counts 0 and one wholly inside counts its own length. */
  lemma MinutesWithinEventBounds(s: Session, ev: Event)
    requires ev.start <= ev.end
    ensures 0 <= MinutesWithinEvent(s, ev) <= Duration(ev)
    ensures s.end <= ev.start || s.start >= ev.end ==> MinutesWithinEvent(s, ev) == 0
    ensures ev.start <= s.start <= s.end <= ev.end ==> MinutesWithinEvent(s, ev) == s.end - s.start
  {
  }

  /** `d3.sum(sessions, getMinutesWithinEvent)` */
  function TotalMinutes(ss: seq<Session>, ev: Event): (r: int)
    ensures r >= 0
  {
    if ss == [] then 0 else TotalMinutes(ss[..|ss| - 1], ev) + MinutesWithinEvent(ss[|ss| - 1], ev)
  }

  /** A student's total is at most the duration times the number of sessions. */
  lemma {:induction false} TotalMinutesBound(ss: seq<Session>, ev: Event)
    requires ev.start <= ev.end
    ensures TotalMinutes(ss, ev) <= |ss| * Duration(ev)
  {
    if ss != [] {
      var n := |ss| - 1;
      TotalMinutesBound(ss[..n], ev);
      MinutesWithinEventBounds(ss[n], ev);
      assert |ss| * Duration(ev) == n * Duration(ev) + Duration(ev) by {
        assert |ss| == n + 1;
      }
    }
  }

  // ---------------------------------------------------------------- bar colour

  datatype BarColor = Red | Amber | Blue

  /** The fill of a student's bars: red under the threshold, blue within the threshold of
      the full duration, amber in between. */
  function ColorOf(total: int, threshold: int, duration: int): BarColor {
    if total < threshold then Red
    else if total >= duration - threshold then Blue
    else Amber
  }

  /** The CSS colour of each class of bar. */
  function Fill(c: BarColor): string {
    match c
    case Red => "red"
    case Blue => "#2196f3"
    case Amber => "#f4b400"
  }

  function Rank(c: BarColor): nat {
    match c
    case Red => 0
    case Amber => 1
    case Blue => 2
  }

  /** Each colour is chosen exactly under its condition. */
  lemma ColorCases(total: int, threshold: int, duration: int)
    ensures ColorOf(total, threshold, duration) == Red <==> total < threshold
    ensures ColorOf(total, threshold, duration) == Blue <==> threshold <= total && duration - threshold <= total
    ensures ColorOf(total, threshold, duration) == Amber <==> threshold <= total < duration - threshold
  {
  }

  /** The three fills are distinct, and the fill written for a total is `"red"`, blue or
      amber exactly under that colour's condition. */
  lemma FillCases(c1: BarColor, c2: BarColor, total: int, threshold: int, duration: int)
    ensures Fill(c1) == Fill(c2) <==> c1 == c2
    ensures Fill(ColorOf(total, threshold, duration)) == "red" <==> total < threshold
    ensures Fill(ColorOf(total, threshold, duration)) == "#2196f3" <==> threshold <= total && duration - threshold <= total
    ensures Fill(ColorOf(total, threshold, duration)) == "#f4b400" <==> threshold <= total < duration - threshold
  {
    ColorCases(total, threshold, duration);
  }

  /** More minutes never give a worse colour. */
  lemma ColorMonotone(t1: int, t2: int, threshold: int, duration: int)
    requires t1 <= t2
    ensures Rank(ColorOf(t1, threshold, duration)) <= Rank(ColorOf(t2, threshold, duration))
  {
  }

  // ---------------------------------------------------------------- time label

  /** `${hours > 0 ? hours + "h" : ""}${minutes}m` for a whole number of minutes. */
  function TimeLabel(total: nat): string {
    (if total / 60 > 0 then NatToString(total / 60) + "h" else "") + NatToString(total % 60) + "m"
  }

  /** Reads a time label back: `Hh` (optional) followed by `Mm`. */
  function ReadTimeLabel(s: string): Option<nat> {
    if s == [] || s[|s| - 1] != 'm' then None
    else
      ReadTimeBody(s[..|s| - 1])
  }

  /** The label without its final `m`. */
  function ReadTimeBody(body: string): Option<nat> {
    if 'h' in body then
      var i := IndexOf(body, 'h');
      ReadHoursMinutes(body[..i], body[i + 1..])
    else ReadDigits(body)
  }

  /** `Hh` and `M` as the label writes them: canonical digits, at least one hour, and
      minutes below 60. */
  function ReadHoursMinutes(h: string, m: string): Option<nat> {
    if CanonicalDigits(h) && CanonicalDigits(m) && DigitsValue(h) >= 1 && DigitsValue(m) < 60 then
      Some(DigitsValue(h) * 60 + DigitsValue(m))
    else None
  }

  /** `M` alone: canonical digits below 60. */
  function ReadDigits(m: string): Option<nat> {
    if CanonicalDigits(m) && DigitsValue(m) < 60 then Some(DigitsValue(m)) else None
  }

  /** A label with an hour part reads back as hours times 60 plus minutes. */
  lemma ReadHoursAndMinutes(h: string, m: string)
    requires AllDigits(h)
    ensures ReadTimeLabel(h + "h" + m + "m") == ReadHoursMinutes(h, m)
  {
    ReadWithoutM(h + "h" + m);
    ReadAtH(h, m);
  }

  /** A label without an hour part reads back as its minutes. */
  lemma ReadMinutesOnly(m: string)
    requires AllDigits(m)
    ensures ReadTimeLabel(m + "m") == ReadDigits(m)
  {
    DigitsExclude(m, 'h');
    ReadWithoutM(m);
  }

  lemma ReadWithoutM(body: string)
    ensures ReadTimeLabel(body + "m") == ReadTimeBody(body)
  {
    DropLastChar(body, 'm');
  }

  lemma ReadAtH(h: string, m: string)
    requires AllDigits(h)
    ensures ReadTimeBody(h + "h" + m) == ReadHoursMinutes(h, m)
  {
    DigitsExclude(h, 'h');
    IndexOfAfter(h, 'h', m);
  }

  lemma DivMod60(total: nat)
    ensures total == (total / 60) * 60 + total % 60
    ensures total < 60 ==> total / 60 == 0 && total % 60 == total
  {
  }

  /** From one hour on, the label is `Hh` followed by `Mm`, with H the whole hours and
      M < 60 the minutes left over, both written without leading zeros; it reads back. */
  lemma TimeLabelWithHours(total: nat)
    requires total / 60 > 0
    ensures ReadTimeLabel(TimeLabel(total)) == Some(total)
    ensures exists h, m ::
      (TimeLabel(total) == h + "h" + m + "m" && CanonicalDigits(h) && CanonicalDigits(m) &&
       DigitsValue(h) == total / 60 && DigitsValue(m) == total % 60 < 60)
  {
    var hv, mv := total / 60, total % 60;
    var h, m := NatToString(hv), NatToString(mv);
    DivMod60(total);
    ReadWrittenParts(hv, mv);
    ReadHoursAndMinutes(h, m);
    assert TimeLabel(total) == h + "h" + m + "m";
  }

  /** The written hours and minutes are canonical and read back as `hv` hours and `mv`
      minutes. */
  lemma ReadWrittenParts(hv: nat, mv: nat)
    requires hv >= 1 && mv < 60
    ensures var h, m := NatToString(hv), NatToString(mv);
      && CanonicalDigits(h) && CanonicalDigits(m) && DigitsValue(h) == hv && DigitsValue(m) == mv
      && ReadHoursMinutes(h, m) == Some(hv * 60 + mv)
  {
    NatToStringRoundTrip(hv);
    NatToStringRoundTrip(mv);
    CanonicalDigitsRoundTrip(NatToString(hv), hv);
    CanonicalDigitsRoundTrip(NatToString(mv), mv);
  }

  lemma TimeLabelWithoutHours(total: nat)
    requires total / 60 == 0
    ensures ReadTimeLabel(TimeLabel(total)) == Some(total)
    ensures TimeLabel(total) == NatToString(total) + "m"
  {
    var m := NatToString(total);
    DivMod60(total);
    NatToStringRoundTrip(total);
    CanonicalDigitsRoundTrip(m, total);
    ReadMinutesOnly(m);
    assert TimeLabel(total) == "" + m + "m";
    assert "" + m + "m" == m + "m";
    assert ReadDigits(m) == Some(total);
  }

  /** The label gives the minutes back, and below one hour it shows only the minutes. */
  lemma TimeLabelRoundTrip(total: nat)
    ensures ReadTimeLabel(TimeLabel(total)) == Some(total)
    ensures total < 60 ==> TimeLabel(total) == NatToString(total) + "m"
  {
    DivMod60(total);
    if total / 60 > 0 {
      TimeLabelWithHours(total);
    } else {
      TimeLabelWithoutHours(total);
    }
  }

  /** The reader accepts nothing but labels: a string it reads as `t` is exactly the
      label of `t`. With `TimeLabelRoundTrip`, reading and labelling are inverse. */
  lemma TimeLabelExact(s: string, t: nat)
    requires ReadTimeLabel(s) == Some(t)
    ensures s == TimeLabel(t)
  {
    var body := s[..|s| - 1];
    assert s == body + "m";
    if 'h' in body {
      var i := IndexOf(body, 'h');
      var h, m := body[..i], body[i + 1..];
      assert body == h + "h" + m;
      CanonicalDigitsRoundTrip(h, 0);
      CanonicalDigitsRoundTrip(m, 0);
      assert t / 60 == DigitsValue(h) && t % 60 == DigitsValue(m);
    } else {
      CanonicalDigitsRoundTrip(body, 0);
      assert t / 60 == 0 && t % 60 == t;
      assert TimeLabel(t) == "" + body + "m";
    }
  }

  // ---------------------------------------------------------------- sort state

  datatype Column = Name | Stats
  datatype Order = Ascending | Descending
  datatype SortBy = SortBy(column: Column, order: Order)
  datatype InitialSort = InitialSort(column: Column, order: Option<Order>)

  /** `options.initialSort ? { column, order: order || "asc" } : { column: "name", order: "asc" }` */
  function InitialSortBy(init: Option<InitialSort>): SortBy {
    match init
    case None => SortBy(Name, Ascending)
    case Some(i) => SortBy(i.column, i.order.GetOr(Ascending))
  }

  /** The first lines of `handleSort`: the active column flips its order, another column
      becomes active in ascending order. */
  function Toggle(s: SortBy, c: Column): SortBy {
    if s.column == c then SortBy(c, if s.order == Ascending then Descending else Ascending)
    else SortBy(c, Ascending)
  }

  /** The default sort is by name, ascending, and an initial sort without an order is
      ascending. */
  lemma InitialSortDefaults(c: Column)
    ensures InitialSortBy(None) == SortBy(Name, Ascending)
    ensures InitialSortBy(Some(InitialSort(c, None))) == SortBy(c, Ascending)
  {
  }

  /** After a click the clicked column is active; clicking the active column flips the
      order, clicking another selects ascending, and two clicks on one column after it is
      active restore the state. */
  lemma ToggleRules(s: SortBy, c: Column)
    ensures Toggle(s, c).column == c
    ensures s.column == c ==> Toggle(s, c).order != s.order
    ensures s.column != c ==> Toggle(s, c).order == Ascending
    ensures s.column == c ==> Toggle(Toggle(s, c), c) == s
    ensures Toggle(Toggle(Toggle(s, c), c), c) == Toggle(s, c)
  {
  }

  function DirectionOf(o: Order): Direction {
    if o == Ascending then Asc else Desc
  }

  /** The comparator key of a row: its name, or its total minutes inside the event. */
  function RowKey(c: Column, ev: Event): Student -> Key {
    (st: Student) => if c == Name then Text(st.name) else Num(TotalMinutes(st.sessions, ev) as real)
  }

  /** Rows are striped by rank: white on even ranks, light grey on odd ones. */
  function RowFill(rank: nat): string {
    if rank % 2 == 0 then "#FFFFFF" else "#F8F8F8"
  }

  /** Adjacent rows never share a fill, and rows two apart always do. */
  lemma RowFillAlternates(rank: nat)
    ensures RowFill(rank) != RowFill(rank + 1)
    ensures RowFill(rank) == RowFill(rank + 2)
  {
  }

  /** The name's first baseline: centred in the band, raised 7 px per extra line. */
  function NameBaseline(band: real, lineCount: nat): real {
    band / 2.0 - ((lineCount as int - 1) as real) * 7.0
  }

  /** A one-line name sits on the band's centre; an empty name, which draws no line,
      sits 7 px below it. */
  lemma NameBaselineCases(band: real)
    ensures NameBaseline(band, |WordWrap.WrapLines("")|) == band / 2.0 + 7.0
    ensures NameBaseline(band, 1) == band / 2.0
  {
    WordWrap.WrapEmptyName();
  }

  // ---------------------------------------------------------------- the chart's state

  datatype Options = Options(initialDelay: Option<int>, initialSort: Option<InitialSort>)

  class TimelineChart {
    const event: Event
    const students: array<Student>
    var sortBy: SortBy
    var delayThreshold: int

    /** The set-up of `drawEventTimeline`: the threshold defaults to 15 minutes, the sort
        state is initialised and the rows are sorted by it. */
    constructor(event: Event, students: array<Student>, options: Options)
      modifies students
      ensures this.event == event && this.students == students
      ensures delayThreshold == options.initialDelay.GetOr(15)
      ensures sortBy == InitialSortBy(options.initialSort)
      ensures students[..] == Sort(old(students[..]), RowKey(sortBy.column, event), DirectionOf(sortBy.order))
    {
      this.event := event;
      this.students := students;
      delayThreshold := options.initialDelay.GetOr(15);
      sortBy := InitialSortBy(options.initialSort);
      new;
      SortInPlace(students, RowKey(sortBy.column, event), DirectionOf(sortBy.order));
    }

    /** `handleSort(column)`: update the sort state, then re-sort the rows in place. */
    method HandleSort(column: Column)
      modifies this, students
      ensures sortBy == Toggle(old(sortBy), column)
      ensures delayThreshold == old(delayThreshold)
      ensures students[..] == Sort(old(students[..]), RowKey(column, event), DirectionOf(sortBy.order))
    {
      sortBy := Toggle(sortBy, column);
      SortInPlace(students, RowKey(column, event), DirectionOf(sortBy.order));
    }

    /** The delay input: `parseInt(value, 10) || 0`. */
    method OnDelayInput(value: string)
      modifies this
      ensures delayThreshold == ParseIntOrZero(value)
      ensures sortBy == old(sortBy)
      ensures forall st :: StudentColor(st) == ColorOf(TotalMinutes(st.sessions, event), ParseIntOrZero(value), Duration(event))
    {
      delayThreshold := ParseIntOrZero(value);
    }

    /** The colour of a student's bars under the current threshold: red when the
        student's minutes inside the event fall short of the threshold, blue when they
        come within the threshold of the full duration, amber otherwise. */
    function StudentColor(st: Student): (c: BarColor)
      reads this
      ensures c == Red <==> TotalMinutes(st.sessions, event) < delayThreshold
      ensures c == Blue <==> delayThreshold <= TotalMinutes(st.sessions, event) && Duration(event) - delayThreshold <= TotalMinutes(st.sessions, event)
      ensures c == Amber <==> delayThreshold <= TotalMinutes(st.sessions, event) < Duration(event) - delayThreshold
    {
      ColorOf(TotalMinutes(st.sessions, event), delayThreshold, Duration(event))
    }
  }

  /** What a re-sort guarantees about the rows: the same rows, ordered by the key in the
      chosen direction, rows with equal keys in their previous relative order. */
  lemma ResortGuarantees(rows: seq<Student>, c: Column, ev: Event, o: Order)
    ensures var r := Sort(rows, RowKey(c, ev), DirectionOf(o));
      && multiset(r) == multiset(rows)
      && SortedBy(r, RowKey(c, ev), DirectionOf(o))
      && SameOrderWithinKeys(r, rows, RowKey(c, ev))
  {
    SortPermutes(rows, RowKey(c, ev), DirectionOf(o));
    SortSorts(rows, RowKey(c, ev), DirectionOf(o));
    SortIsStable(rows, RowKey(c, ev), DirectionOf(o));
  }
}
