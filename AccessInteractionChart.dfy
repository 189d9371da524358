/** What the access-and-interaction chart adds to the shared per-day layout: the
    `HhMM` total-time label, the detailed view that lays a day's sessions end to end in
    the colour of their interaction type, and the switch between the simple and the
    detailed view. */
module AccessInteractionChart {
  import opened Wrappers
  import opened Text
  import opened DailyLayout

  // ---------------------------------------------------------------- formatTotalTime

  /** `formatTotalTime`: `None` stands for NaN. Minutes are whole, so the rounding of
      the remainder changes nothing. */
  function FormatTotalTime(total: Option<int>): string {
    if total.None? || total.value < 0 then "0h00"
    else
      var m := total.value;
      NatToString(m / 60) + "h" + PadStart(NatToString(m % 60), 2, '0')
  }

  /** Reads `HhMM` back: digits, `h`, exactly two digits. */
  function ReadTotalTime(s: string): Option<nat> {
    if 'h' !in s then None
    else
      var i := IndexOf(s, 'h');
      ReadHoursPadded(s[..i], s[i + 1..])
  }

  /** The parts around the `h`: digits, and exactly two digits below 60. */
  function ReadHoursPadded(h: string, m: string): Option<nat> {
    if h != [] && |m| == 2 && AllDigits(h) && AllDigits(m) && DigitsValue(m) < 60 then
      Some(DigitsValue(h) * 60 + DigitsValue(m))
    else None
  }

  /** NaN and negative totals print as `0h00`. */
  lemma FormatInvalidTotal(total: Option<int>)
    requires total.None? || total.value < 0
    ensures FormatTotalTime(total) == "0h00"
    ensures ReadTotalTime(FormatTotalTime(total)) == Some(0)
  {
    var s := "0h00";
    assert IndexOf(s, 'h') == 1;
    assert s[..1] == "0" && s[2..] == "00";
    assert DigitsValue("00") == 0 by {
      LeadingZerosOnly("00");
    }
    assert DigitsValue("0") == 0 by {
      LeadingZerosOnly("0");
    }
  }

  /** A two-digit rendering of a remainder modulo 60. */
  lemma PaddedMinutes(r: nat)
    requires r < 60
    ensures var p := PadStart(NatToString(r), 2, '0'); |p| == 2 && AllDigits(p) && DigitsValue(p) == r
  {
    var s := NatToString(r);
    var p := PadStart(s, 2, '0');
    NatToStringRoundTrip(r);
    assert |s| == if r < 10 then 1 else 2;
    var z := p[..|p| - |s|];
    assert p == z + s;
    LeadingZerosValue(z, s);
  }

  /** Hours, `h`, minutes on two digits: the label reads back as the total. */
  lemma ReadHoursAndPaddedMinutes(h: string, m: string)
    requires AllDigits(h)
    ensures ReadTotalTime(h + "h" + m) == ReadHoursPadded(h, m)
  {
    DigitsExclude(h, 'h');
    IndexOfAfter(h, 'h', m);
  }

  /** For whole minutes the label is the hours, `h`, and the minutes of the hour on two
      digits, and it reads back as the total. */
  lemma FormatTotalTimeRoundTrip(m: nat)
    ensures ReadTotalTime(FormatTotalTime(Some(m))) == Some(m)
    ensures |FormatTotalTime(Some(m))| == |NatToString(m / 60)| + 3
  {
    var h, p := NatToString(m / 60), PadStart(NatToString(m % 60), 2, '0');
    NatToStringRoundTrip(m / 60);
    PaddedMinutes(m % 60);
    ReadHoursAndPaddedMinutes(h, p);
    assert FormatTotalTime(Some(m)) == h + "h" + p;
    assert ReadHoursPadded(h, p) == Some(m);
  }

  // ---------------------------------------------------------------- the detailed view

  datatype Rect = Rect(x: real, width: real, fill: string)

  const EmptyDayFill: string := "#8c8c8cff"

  /** `data.interactionTypes[session.type]?.color || '#ccc'`, with the types' colours as a
      map from type key to colour. */
  function TypeColor(colors: map<string, string>, kind: string): string {
    if kind in colors && colors[kind] != "" then colors[kind] else "#ccc"
  }

  function SessionMinutes(s: Session): int {
    s.end - s.start
  }

  /** Where the next segment starts: the end of the last one, or 0. */
  function EndOf(rs: seq<Rect>): real {
    if rs == [] then 0.0 else rs[|rs| - 1].x + rs[|rs| - 1].width
  }

  /** The rectangle of one session starting at `x`. */
  function Segment(s: Session, x: real, colors: map<string, string>, k: real): Rect {
    Rect(x, SessionMinutes(s) as real * k, TypeColor(colors, s.kind))
  }

  /** The segments of a day's sessions, skipping those of non-positive length, under the
      linear scale `v * k`. */
  function Segments(ss: seq<Session>, colors: map<string, string>, k: real): seq<Rect> {
    if ss == [] then []
    else
      var front := Segments(ss[..|ss| - 1], colors, k);
      if SessionMinutes(ss[|ss| - 1]) <= 0 then front
      else front + [Segment(ss[|ss| - 1], EndOf(front), colors, k)]
  }

  /** The minutes of the sessions of positive length. */
  function PositiveMinutes(ss: seq<Session>): int {
    if ss == [] then 0
    else PositiveMinutes(ss[..|ss| - 1]) + (if SessionMinutes(ss[|ss| - 1]) > 0 then SessionMinutes(ss[|ss| - 1]) else 0)
  }

  predicate Contiguous(rs: seq<Rect>) {
    && (rs != [] ==> rs[0].x == 0.0)
    && (forall i :: 0 <= i < |rs| - 1 ==> rs[i + 1].x == rs[i].x + rs[i].width)
  }

  /** One more session: a segment is appended after the others when its length is
      positive. */
  lemma SegmentsStep(ss: seq<Session>, i: nat, colors: map<string, string>, k: real)
    requires i < |ss|
    ensures var front := Segments(ss[..i], colors, k);
      Segments(ss[..i + 1], colors, k)
        == if SessionMinutes(ss[i]) <= 0 then front else front + [Segment(ss[i], EndOf(front), colors, k)]
  {
    assert ss[..i + 1][..i] == ss[..i];
  }

  /** The segments start at 0 and each begins where the previous ends. */
  lemma {:induction false} SegmentsContiguous(ss: seq<Session>, colors: map<string, string>, k: real)
    ensures Contiguous(Segments(ss, colors, k))
  {
    if ss != [] {
      SegmentsContiguous(ss[..|ss| - 1], colors, k);
    }
  }

  /** Under a positive scale every segment has a positive width. */
  lemma {:induction false} SegmentsPositive(ss: seq<Session>, colors: map<string, string>, k: real)
    requires k > 0.0
    ensures forall i :: 0 <= i < |Segments(ss, colors, k)| ==> Segments(ss, colors, k)[i].width > 0.0
  {
    if ss != [] {
      var n := |ss| - 1;
      SegmentsPositive(ss[..n], colors, k);
      if SessionMinutes(ss[n]) > 0 {
        assert SessionMinutes(ss[n]) as real * k > 0.0;
      }
    }
  }

  lemma ScaleDistributes(a: int, b: int, k: real)
    ensures (a + b) as real * k == a as real * k + b as real * k
  {
  }

  /** Together the segments span the scaled minutes of the sessions of positive length. */
  lemma SegmentsSpan(ss: seq<Session>, colors: map<string, string>, k: real)
    ensures EndOf(Segments(ss, colors, k)) == PositiveMinutes(ss) as real * k
  {
    SegmentsEnd(ss, colors, k);
    ScaledIsProduct(ss, k);
  }

  /** The scaled lengths of the sessions of positive length, added up. */
  function ScaledMinutes(ss: seq<Session>, k: real): real {
    if ss == [] then 0.0
    else ScaledMinutes(ss[..|ss| - 1], k) + (if SessionMinutes(ss[|ss| - 1]) > 0 then SessionMinutes(ss[|ss| - 1]) as real * k else 0.0)
  }

  lemma {:induction false} SegmentsEnd(ss: seq<Session>, colors: map<string, string>, k: real)
    ensures EndOf(Segments(ss, colors, k)) == ScaledMinutes(ss, k)
  {
    if ss != [] {
      SegmentsEnd(ss[..|ss| - 1], colors, k);
    }
  }

  lemma {:induction false} ScaledIsProduct(ss: seq<Session>, k: real)
    ensures ScaledMinutes(ss, k) == PositiveMinutes(ss) as real * k
  {
    if ss != [] {
      var n := |ss| - 1;
      ScaledIsProduct(ss[..n], k);
      var b := SessionMinutes(ss[n]);
      if b > 0 {
        AddScaled(ScaledMinutes(ss[..n], k), PositiveMinutes(ss[..n]), b, k);
      }
    }
  }

  lemma AddScaled(e: real, a: int, b: int, k: real)
    requires e == a as real * k
    ensures e + b as real * k == (a + b) as real * k
  {
    ScaleDistributes(a, b, k);
  }

  /** When every session of a day has a positive length, the detailed segments fill
      exactly the simple view's box. */
  lemma {:induction false} DetailedFillsSimpleBox(ss: seq<Session>, colors: map<string, string>, k: real)
    requires k > 0.0
    requires forall i :: 0 <= i < |ss| ==> SessionMinutes(ss[i]) > 0
    requires DailyTotal(ss) > 0
    ensures EndOf(Segments(ss, colors, k)) == Width(DailyTotal(ss), k)
  {
    SegmentsSpan(ss, colors, k);
    PositiveIsDaily(ss);
  }

  lemma {:induction false} PositiveIsDaily(ss: seq<Session>)
    requires forall i :: 0 <= i < |ss| ==> SessionMinutes(ss[i]) > 0
    ensures PositiveMinutes(ss) == DailyTotal(ss)
  {
    if ss != [] {
      PositiveIsDaily(ss[..|ss| - 1]);
    }
  }

  /** The detailed view of one day: its sessions laid end to end when it has time, a grey
      10 px box otherwise. */
  method DetailedView(e: DayEntry, colors: map<string, string>, k: real) returns (rects: seq<Rect>)
    ensures e.total > 0 ==> rects == Segments(e.sessions, colors, k)
    ensures e.total <= 0 ==> rects == [Rect(0.0, EmptyDayWidth, EmptyDayFill)]
  {
    if e.total > 0 {
      var sessionXOffset := 0.0;
      rects := [];
      for i := 0 to |e.sessions|
        invariant rects == Segments(e.sessions[..i], colors, k)
        invariant sessionXOffset == EndOf(rects)
      {
        SegmentsStep(e.sessions, i, colors, k);
        var s := e.sessions[i];
        var duration := s.end - s.start;
        if duration > 0 {
          var sessionWidth := duration as real * k;
          rects := rects + [Segment(s, sessionXOffset, colors, k)];
          sessionXOffset := sessionXOffset + sessionWidth;
        }
      }
      assert e.sessions[..|e.sessions|] == e.sessions;
    } else {
      rects := [Rect(0.0, EmptyDayWidth, EmptyDayFill)];
    }
  }

  // ---------------------------------------------------------------- toggleDetails

  datatype Style = Style(opacity: int, pointerEvents: string)

  /** The simple view is shown and clickable exactly when the detailed one is not. */
  function SimpleStyle(detailed: bool): Style {
    if detailed then Style(0, "none") else Style(1, "auto")
  }

  function DetailedStyle(detailed: bool): Style {
    if detailed then Style(1, "auto") else Style(0, "none")
  }

  /** Exactly one of the two views is visible, and only the visible one receives
      mouse events. */
  lemma StylesComplementary(detailed: bool)
    ensures SimpleStyle(detailed).opacity + DetailedStyle(detailed).opacity == 1
    ensures SimpleStyle(detailed).pointerEvents != DetailedStyle(detailed).pointerEvents
    ensures (SimpleStyle(detailed).opacity == 1 <==> SimpleStyle(detailed).pointerEvents == "auto")
    ensures (DetailedStyle(detailed).opacity == 1 <==> DetailedStyle(detailed).pointerEvents == "auto")
    ensures DetailedStyle(detailed) == SimpleStyle(!detailed)
  {
  }

  class ViewSwitch {
    var detailedView: bool

    /** The chart opens in the simple view. */
    constructor()
      ensures !detailedView
      ensures SimpleStyle(detailedView) == Style(1, "auto") && DetailedStyle(detailedView) == Style(0, "none")
    {
      detailedView := false;
    }

    /** `toggleDetails`: flip the view and restyle both. */
    method ToggleDetails() returns (simple: Style, detailed: Style)
      modifies this
      ensures detailedView == !old(detailedView)
      ensures simple == SimpleStyle(detailedView) && detailed == DetailedStyle(detailedView)
    {
      detailedView := !detailedView;
      simple := if detailedView then Style(0, "none") else Style(1, "auto");
      detailed := if detailedView then Style(1, "auto") else Style(0, "none");
    }
  }
}
