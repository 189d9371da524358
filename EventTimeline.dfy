/** The simpler attendance timeline: one bar per session, coloured by how late the
    session started against the fixed 13:00 event start, an avatar drawn in grayscale
    for students without sessions, and the absence-threshold input.

    Instants are whole minutes past midnight of the event day. */
module EventTimeline {
  import opened Wrappers
  import opened Text
  import WordWrap

  datatype Session = Session(start: int, end: int)

  /** 13:00. */
  const EventStart: int := 13 * 60

  const Amber: string := "#f4b400"
  const Blue: string := "#2196f3"

  /** The fill of a session's bar: amber when it started more than `threshold` minutes
      after the event start, blue otherwise. */
  function SessionFill(s: Session, threshold: int): string {
    var lateBy := s.start - EventStart;
    if lateBy > threshold then Amber else Blue
  }

  /** A bar is amber exactly when its session is more than `threshold` minutes late and
      blue exactly otherwise; starting exactly `threshold` minutes late is still blue, and
      with a non-negative threshold starting on time or early is blue. */
  lemma SessionFillRule(s: Session, threshold: int)
    ensures SessionFill(s, threshold) == Amber <==> s.start > EventStart + threshold
    ensures SessionFill(s, threshold) == Blue <==> s.start <= EventStart + threshold
    ensures s.start == EventStart + threshold ==> SessionFill(s, threshold) == Blue
    ensures threshold >= 0 && s.start <= EventStart ==> SessionFill(s, threshold) == Blue
  {
  }

  /** Raising the threshold never turns a blue bar amber. */
  lemma SessionFillMonotone(s: Session, t1: int, t2: int)
    requires t1 <= t2
    requires SessionFill(s, t1) == Blue
    ensures SessionFill(s, t2) == Blue
  {
  }

  // ---------------------------------------------------------------- the avatar

  const Grayscale: string := "url(#grayscale)"
  const OfflineIcon: string := "/img/offline.png"

  /** The `href` of the avatar's disconnection icon: the offline picture for a student
      without sessions, none otherwise. */
  function OfflineIconOf(sessions: seq<Session>): Option<string> {
    if |sessions| == 0 then Some(OfflineIcon) else None
  }

  /** The avatar image of one student: its `filter` attribute changes with the mouse. */
  class Avatar {
    const offline: bool
    var filter: Option<string>

    /** Only an offline avatar can be in grayscale. */
    predicate Valid()
      reads this
    {
      filter.Some? ==> offline && filter.value == Grayscale
    }

    /** The avatar starts in grayscale exactly when the student has no sessions. */
    constructor(sessions: seq<Session>)
      ensures offline <==> |sessions| == 0
      ensures filter == (if |sessions| == 0 then Some(Grayscale) else None)
      ensures Valid()
    {
      offline := |sessions| == 0;
      filter := if |sessions| == 0 then Some(Grayscale) else None;
    }

    /** Mouse over the avatar: colours are shown. */
    method MouseOver()
      requires Valid()
      modifies this
      ensures filter == None
      ensures Valid()
    {
      filter := None;
    }

    /** Mouse leaves the avatar: grayscale comes back only for an offline student. */
    method MouseOut()
      requires Valid()
      modifies this
      ensures offline ==> filter == Some(Grayscale)
      ensures !offline ==> filter == old(filter) && filter == None
      ensures Valid()
    {
      if offline {
        filter := Some(Grayscale);
      }
    }
  }

  datatype Mouse = Over | Out

  /** The filter after a sequence of mouse events, from the initial one. */
  function FilterAfter(offline: bool, events: seq<Mouse>): Option<string> {
    if events == [] then (if offline then Some(Grayscale) else None)
    else if events[|events| - 1] == Over then None
    else if offline then Some(Grayscale)
    else FilterAfter(offline, events[..|events| - 1])
  }

  /** Whatever the mouse did, a student with sessions is never drawn in grayscale, and
      an offline student is in grayscale whenever the mouse last left the avatar. */
  lemma {:induction false} FilterAfterEvents(offline: bool, events: seq<Mouse>)
    ensures !offline ==> FilterAfter(offline, events) == None
    ensures offline && (events == [] || events[|events| - 1] == Out) ==> FilterAfter(offline, events) == Some(Grayscale)
  {
    if events != [] && !offline {
      FilterAfterEvents(offline, events[..|events| - 1]);
    }
  }

  /** The offline icon is drawn exactly for a student without sessions, and exactly for
      those whose avatar starts in grayscale and returns to it whenever the mouse leaves. */
  lemma OfflineIconRule(sessions: seq<Session>)
    ensures OfflineIconOf(sessions).Some? <==> |sessions| == 0
    ensures OfflineIconOf(sessions).Some? ==> OfflineIconOf(sessions).value == OfflineIcon
    ensures OfflineIconOf(sessions).Some? <==> FilterAfter(|sessions| == 0, []) == Some(Grayscale)
    ensures OfflineIconOf(sessions).Some? <==> FilterAfter(|sessions| == 0, [Over, Out]) == Some(Grayscale)
    ensures OfflineIconOf(sessions).Some? ==>
      forall events: seq<Mouse> :: events != [] && events[|events| - 1] == Out ==>
        FilterAfter(|sessions| == 0, events) == Some(Grayscale)
  {
    FilterAfterEvents(|sessions| == 0, [Over, Out]);
    if OfflineIconOf(sessions).Some? {
      forall events: seq<Mouse> | events != [] && events[|events| - 1] == Out
        ensures FilterAfter(|sessions| == 0, events) == Some(Grayscale)
      {
        FilterAfterEvents(|sessions| == 0, events);
      }
    }
  }

  /** Replays mouse events on an avatar; its filter follows `FilterAfter`. */
  method Replay(sessions: seq<Session>, events: seq<Mouse>) returns (filter: Option<string>)
    ensures filter == FilterAfter(|sessions| == 0, events)
  {
    var a := new Avatar(sessions);
    var i := 0;
    while i < |events|
      invariant 0 <= i <= |events|
      invariant a.Valid() && (a.offline <==> |sessions| == 0)
      invariant a.filter == FilterAfter(a.offline, events[..i])
    {
      assert events[..i + 1][..i] == events[..i];
      if events[i] == Over {
        a.MouseOver();
      } else {
        a.MouseOut();
        FilterAfterEvents(a.offline, events[..i]);
      }
      i := i + 1;
    }
    assert events[..i] == events;
    filter := a.filter;
  }

  // ---------------------------------------------------------------- the name

  /** The name's first baseline: centred in the band, raised 6 px per extra line. */
  function NameBaseline(band: real, lineCount: nat): real {
    band / 2.0 - ((lineCount as int - 1) as real) * 6.0
  }

  /** Each extra wrapped line moves the baseline up by 6 px; a name on one line sits on
      the band's centre, and the empty name, whose single empty line the untrimmed
      accumulator still emits, also sits there. */
  lemma NameBaselineSteps(band: real, n: nat)
    ensures NameBaseline(band, n + 1) == NameBaseline(band, n) - 6.0
    ensures NameBaseline(band, 1) == band / 2.0
    ensures NameBaseline(band, |WordWrap.WrapLinesUntrimmed("")|) == band / 2.0
  {
    WordWrap.EmptyNameDiffers();
  }

  // ---------------------------------------------------------------- the threshold

  /** The chart's one piece of mutable state besides the DOM. */
  class Timeline {
    var delayThreshold: int

    /** `options.initialDelay ?? 15` */
    constructor(initialDelay: Option<int>)
      ensures delayThreshold == initialDelay.GetOr(15)
    {
      delayThreshold := initialDelay.GetOr(15);
    }

    /** The delay input: `parseInt(value, 10) || 0`. */
    method OnDelayInput(value: string)
      modifies this
      ensures delayThreshold == ParseIntOrZero(value)
    {
      delayThreshold := ParseIntOrZero(value);
    }

    /** The bar fills of a student's sessions under the current threshold. */
    function Fills(ss: seq<Session>): (r: seq<string>)
      reads this
      ensures |r| == |ss|
      ensures forall k :: 0 <= k < |ss| ==> (r[k] == Amber <==> ss[k].start > EventStart + delayThreshold)
    {
      seq(|ss|, k requires 0 <= k < |ss| reads this => SessionFill(ss[k], delayThreshold))
    }
  }

  /** Typing a number sets the threshold to that number; typing something that is not a
      number, or clearing the field, sets it to 0. */
  lemma DelayInputValues(i: int, junk: string)
    requires var t := TrimStart(junk); t == [] || (!IsDigit(t[0]) && t[0] != '+' && t[0] != '-')
    ensures ParseIntOrZero(IntToString(i)) == i
    ensures ParseIntOrZero(junk) == 0
    ensures ParseIntOrZero("") == 0
  {
    ParseIntRoundTrip(i);
    ParseNonNumeric(junk);
    ParseNonNumeric("");
  }
}
