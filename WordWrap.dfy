/** The greedy word wrap the timeline and performance charts apply to a student's name
    before drawing it as one `tspan` per line.

    The name is split on single spaces; words are appended to the current line while the
    trimmed result stays within 20 characters; otherwise the (trimmed) current line is
    emitted and the word starts a new line. Two versions exist: one re-trims the
    accumulator after every word (`WrapName`), the other appends `" " + w` to it untrimmed
    and trims only when a line is emitted (`WrapNameUntrimmed`). */
module WordWrap {
  import opened Text

  const MaxChars: nat := 20

  /** The loop state: the lines emitted so far and the line being built. */
  datatype WrapState = WrapState(lines: seq<string>, line: string)

  // ---------------------------------------------------------------- the trimmed accumulator

  function Step(st: WrapState, w: string): WrapState {
    var joined := Trim(st.line + " " + w);
    if |joined| > MaxChars then WrapState(st.lines + [Trim(st.line)], w)
    else WrapState(st.lines, joined)
  }

  function Steps(ws: seq<string>): WrapState {
    if ws == [] then WrapState([], "") else Step(Steps(ws[..|ws| - 1]), ws[|ws| - 1])
  }

  /** `if (line) lines.push(line.trim())` */
  function Finish(st: WrapState): seq<string> {
    if st.line != "" then st.lines + [Trim(st.line)] else st.lines
  }

  /** The lines drawn for `name`. */
  function WrapLines(name: string): seq<string> {
    Finish(Steps(Split(name)))
  }

  /** The wrap loop as written, accumulating into `line` and `lines`. */
  method WrapName(name: string) returns (lines: seq<string>)
    ensures lines == WrapLines(name)
    ensures forall k :: 0 <= k < |lines| ==> NoSpaceAtEnds(lines[k])
    ensures forall k :: 0 <= k < |lines| && |lines[k]| > MaxChars ==> ' ' !in lines[k]
  {
    var words := Split(name);
    var line := "";
    lines := [];
    for i := 0 to |words|
      invariant WrapState(lines, line) == Steps(words[..i])
    {
      var w := words[i];
      ghost var next := Step(WrapState(lines, line), w);
      assert next == Steps(words[..i + 1]) by {
        assert words[..i + 1][..i] == words[..i];
      }
      if |Trim(line + " " + w)| > MaxChars {
        lines := lines + [Trim(line)];
        line := w;
      } else {
        line := Trim(line + " " + w);
      }
      assert WrapState(lines, line) == next;
    }
    assert words[..|words|] == words;
    if line != "" {
      lines := lines + [Trim(line)];
    }
    WrapLinesShape(name);
  }

  // ---------------------------------------------------------------- what every wrap satisfies

  lemma TrimInside(s: string, c: char)
    requires c in Trim(s)
    ensures c in s
  {
    var t := TrimStart(s);
    var r := TrimEnd(t);
    var k :| 0 <= k < |r| && r[k] == c;
    assert t[k] == c;
    assert s[|s| - |t| + k] == c;
  }

  /** A line in progress is a single word or fits in 20 characters. */
  predicate LineFits(line: string) {
    ' ' !in line || |line| <= MaxChars
  }

  predicate LinesFit(lines: seq<string>) {
    forall k :: 0 <= k < |lines| ==> NoSpaceAtEnds(lines[k]) && (|lines[k]| > MaxChars ==> ' ' !in lines[k])
  }

  lemma EmittedFits(line: string)
    requires LineFits(line)
    ensures NoSpaceAtEnds(Trim(line))
    ensures |Trim(line)| > MaxChars ==> ' ' !in Trim(line)
  {
    if ' ' in Trim(line) { TrimInside(line, ' '); }
  }

  lemma {:induction false} StepsFit(ws: seq<string>)
    requires NoSpaceIn(ws)
    ensures LinesFit(Steps(ws).lines) && LineFits(Steps(ws).line)
  {
    if ws != [] {
      var front := ws[..|ws| - 1];
      assert NoSpaceIn(front);
      StepsFit(front);
      EmittedFits(Steps(front).line);
    }
  }

  /** Every emitted line is trimmed, and a line longer than 20 characters is one word. */
  lemma WrapLinesShape(name: string)
    ensures LinesFit(WrapLines(name))
  {
    SplitJoin(name);
    StepsFit(Split(name));
    EmittedFits(Steps(Split(name)).line);
  }

  /** An empty name yields no line at all. */
  lemma WrapEmptyName()
    ensures WrapLines("") == []
  {
    assert Split("") == [""];
    assert Steps([""]) == Step(Steps([]), "");
    assert Trim(" ") == "";
  }

  // ---------------------------------------------------------------- names with single spaces

  /** A name made of non-empty words, without white space inside them, separated by
      single spaces: no leading, trailing or doubled spaces. */
  predicate WellSpaced(name: string) {
    var ws := Split(name);
    forall k :: 0 <= k < |ws| ==> Word(ws[k])
  }

  predicate Word(w: string) {
    w != [] && forall k :: 0 <= k < |w| ==> !IsSpace(w[k])
  }

  /** The non-empty lines. */
  function NonEmpty(lines: seq<string>): seq<string> {
    if lines == [] then []
    else NonEmpty(lines[..|lines| - 1]) + (if lines[|lines| - 1] != "" then [lines[|lines| - 1]] else [])
  }

  lemma NonEmptyAppend(lines: seq<string>, l: string)
    ensures NonEmpty(lines + [l]) == NonEmpty(lines) + (if l != "" then [l] else [])
  {
    assert (lines + [l])[..|lines|] == lines;
  }

  lemma JoinExtendLast(ls: seq<string>, a: string, w: string)
    ensures Join(ls + [a + " " + w]) == Join(ls + [a]) + " " + w
  {
    if ls != [] {
      JoinAppend(ls, a + " " + w);
      JoinAppend(ls, a);
    }
  }

  /** A word after a single space trims back to the word. */
  lemma TrimSpaceWord(w: string)
    requires Word(w)
    ensures Trim(" " + w) == w
  {
    TrimOfSpaceless(w);
    TrimDropsLeadingSpace(w);
  }

  /** Joining a trimmed, non-empty line and a word leaves nothing to trim. */
  lemma TrimJoin(line: string, w: string)
    requires line != "" && NoSpaceAtEnds(line) && Word(w)
    ensures var joined := line + " " + w; joined != "" && NoSpaceAtEnds(joined) && Trim(joined) == joined
  {
    var joined := line + " " + w;
    assert joined[0] == line[0] && joined[|joined| - 1] == w[|w| - 1];
    TrimKeepsTrimmed(joined);
  }

  /** The loop invariant for well-spaced names, after at least one word. */
  ghost predicate WellSpacedState(st: WrapState, ws: seq<string>) {
    && ws != []
    && st.line != "" && NoSpaceAtEnds(st.line)
    && (forall k :: 0 < k < |st.lines| ==> st.lines[k] != "")
    && (|ws[0]| > MaxChars <==> (|st.lines| > 0 && st.lines[0] == ""))
    && Join(NonEmpty(st.lines) + [st.line]) == Join(ws)
  }

  lemma {:induction false} StepsWellSpaced(ws: seq<string>)
    requires ws != [] && forall k :: 0 <= k < |ws| ==> Word(ws[k])
    ensures WellSpacedState(Steps(ws), ws)
  {
    var front, w := ws[..|ws| - 1], ws[|ws| - 1];
    assert ws == front + [w];
    assert Steps(ws) == Step(Steps(front), w);
    if front == [] {
      FirstStepWellSpaced(w);
    } else {
      StepsWellSpaced(front);
      StepWellSpaced(Steps(front), front, w);
    }
  }

  /** The first word sets up the well-spaced invariant. */
  lemma FirstStepWellSpaced(w: string)
    requires Word(w)
    ensures WellSpacedState(Step(WrapState([], ""), w), [w])
  {
    assert "" + " " + w == " " + w;
    TrimSpaceWord(w);
    TrimOfSpaceless(w);
    assert NoSpaceAtEnds(w);
    var next := if |w| > MaxChars then WrapState([""], w) else WrapState([], w);
    assert Trim("") == "";
    assert Step(WrapState([], ""), w) == next;
    assert NonEmpty(next.lines) == [] by {
      if |w| > MaxChars { NonEmptyAppend([], ""); }
    }
    assert Join(NonEmpty(next.lines) + [next.line]) == w;
  }

  /** One more word keeps the well-spaced invariant. */
  lemma StepWellSpaced(st: WrapState, front: seq<string>, w: string)
    requires WellSpacedState(st, front) && Word(w)
    ensures WellSpacedState(Step(st, w), front + [w])
  {
    var ws := front + [w];
    assert ws[0] == front[0];
    assert Join(ws) == Join(front) + " " + w by { JoinAppend(front, w); }
    TrimKeepsTrimmed(st.line);
    TrimJoin(st.line, w);
    var joined := st.line + " " + w;
    if |joined| > MaxChars {
      var next := WrapState(st.lines + [st.line], w);
      assert Step(st, w) == next;
      NonEmptyAppend(st.lines, st.line);
      JoinAppend(NonEmpty(st.lines) + [st.line], w);
      assert NonEmpty(next.lines) + [next.line] == NonEmpty(st.lines) + [st.line] + [w];
      assert forall k :: 0 < k < |next.lines| ==> next.lines[k] != "" by {
        forall k | 0 < k < |next.lines| ensures next.lines[k] != "" {
          if k < |st.lines| { assert next.lines[k] == st.lines[k]; }
        }
      }
    } else {
      var next := WrapState(st.lines, joined);
      assert Step(st, w) == next;
      JoinExtendLast(NonEmpty(st.lines), st.line, w);
    }
  }

  /** For a well-spaced name, the non-empty lines joined with spaces give the name back;
      only the first line can be empty, and it is empty exactly when the first word alone
      is longer than 20 characters. */
  lemma WrapWellSpaced(name: string)
    requires WellSpaced(name)
    ensures Join(NonEmpty(WrapLines(name))) == name
    ensures forall k :: 0 < k < |WrapLines(name)| ==> WrapLines(name)[k] != ""
    ensures WrapLines(name) != []
    ensures WrapLines(name)[0] == "" <==> |Split(name)[0]| > MaxChars
  {
    var ws := Split(name);
    SplitJoin(name);
    StepsWellSpaced(ws);
    var st := Steps(ws);
    TrimKeepsTrimmed(st.line);
    NonEmptyAppend(st.lines, st.line);
  }

  // ---------------------------------------------------------------- the untrimmed accumulator

  /** `line += " " + w`: the accumulator is not re-trimmed after each word. */
  function StepUntrimmed(st: WrapState, w: string): WrapState {
    if |Trim(st.line + " " + w)| > MaxChars then WrapState(st.lines + [Trim(st.line)], w)
    else WrapState(st.lines, st.line + " " + w)
  }

  function StepsUntrimmed(ws: seq<string>): WrapState {
    if ws == [] then WrapState([], "") else StepUntrimmed(StepsUntrimmed(ws[..|ws| - 1]), ws[|ws| - 1])
  }

  function WrapLinesUntrimmed(name: string): seq<string> {
    Finish(StepsUntrimmed(Split(name)))
  }

  /** The untrimmed wrap loop as written. */
  method WrapNameUntrimmed(name: string) returns (lines: seq<string>)
    ensures lines == WrapLinesUntrimmed(name)
    ensures forall k :: 0 <= k < |lines| ==> NoSpaceAtEnds(lines[k])
  {
    var words := Split(name);
    var line := "";
    lines := [];
    for i := 0 to |words|
      invariant WrapState(lines, line) == StepsUntrimmed(words[..i])
    {
      var w := words[i];
      ghost var next := StepUntrimmed(WrapState(lines, line), w);
      assert next == StepsUntrimmed(words[..i + 1]) by {
        assert words[..i + 1][..i] == words[..i];
      }
      if |Trim(line + " " + w)| > MaxChars {
        lines := lines + [Trim(line)];
        line := w;
      } else {
        line := line + " " + w;
      }
      assert WrapState(lines, line) == next;
    }
    assert words[..|words|] == words;
    if line != "" {
      lines := lines + [Trim(line)];
    }
    UntrimmedLinesTrimmed(name);
  }

  lemma {:induction false} StepsUntrimmedTrimmed(ws: seq<string>)
    ensures forall k :: 0 <= k < |StepsUntrimmed(ws).lines| ==> NoSpaceAtEnds(StepsUntrimmed(ws).lines[k])
  {
    if ws != [] {
      var front := ws[..|ws| - 1];
      StepsUntrimmedTrimmed(front);
      assert StepsUntrimmed(ws) == StepUntrimmed(StepsUntrimmed(front), ws[|ws| - 1]);
    }
  }

  /** Every line the untrimmed version draws is trimmed. */
  lemma UntrimmedLinesTrimmed(name: string)
    ensures forall k :: 0 <= k < |WrapLinesUntrimmed(name)| ==> NoSpaceAtEnds(WrapLinesUntrimmed(name)[k])
  {
    StepsUntrimmedTrimmed(Split(name));
  }

  /** The untrimmed state `u` has the same lines as the trimmed state `t`, and its line
      in progress is `t`'s, possibly after one extra leading space. */
  ghost predicate Tracks(t: WrapState, u: WrapState) {
    && u.lines == t.lines
    && t.line != "" && NoSpaceAtEnds(t.line)
    && (u.line == t.line || u.line == " " + t.line)
  }

  lemma {:induction false} UntrimmedTracksTrimmed(ws: seq<string>)
    requires ws != [] && forall k :: 0 <= k < |ws| ==> Word(ws[k])
    ensures Tracks(Steps(ws), StepsUntrimmed(ws))
  {
    var front, w := ws[..|ws| - 1], ws[|ws| - 1];
    assert Word(w);
    assert Steps(ws) == Step(Steps(front), w);
    assert StepsUntrimmed(ws) == StepUntrimmed(StepsUntrimmed(front), w);
    if front == [] {
      FirstStepTracks(w);
    } else {
      UntrimmedTracksTrimmed(front);
      StepTracks(Steps(front), StepsUntrimmed(front), w);
    }
  }

  lemma FirstStepTracks(w: string)
    requires Word(w)
    ensures Tracks(Step(WrapState([], ""), w), StepUntrimmed(WrapState([], ""), w))
  {
    assert "" + " " + w == " " + w;
    TrimSpaceWord(w);
    TrimOfSpaceless(w);
    assert Trim("") == "";
    if |w| > MaxChars {
      assert Step(WrapState([], ""), w) == WrapState([""], w);
      assert StepUntrimmed(WrapState([], ""), w) == WrapState([""], w);
    } else {
      assert Step(WrapState([], ""), w) == WrapState([], w);
      assert StepUntrimmed(WrapState([], ""), w) == WrapState([], " " + w);
    }
  }

  lemma StepTracks(t: WrapState, u: WrapState, w: string)
    requires Tracks(t, u) && Word(w)
    ensures Tracks(Step(t, w), StepUntrimmed(u, w))
  {
    var o, v := t.line, u.line;
    var joined := o + " " + w;
    TrimJoin(o, w);
    TrimKeepsTrimmed(o);
    assert Trim(v + " " + w) == joined && Trim(v) == o by {
      if v != o {
        assert v + " " + w == " " + joined;
        TrimDropsLeadingSpace(joined);
        TrimDropsLeadingSpace(o);
      }
    }
    if |joined| > MaxChars {
      assert Step(t, w) == WrapState(t.lines + [o], w);
      assert StepUntrimmed(u, w) == WrapState(u.lines + [o], w);
      TrimOfSpaceless(w);
    } else {
      assert Step(t, w) == WrapState(t.lines, joined);
      assert StepUntrimmed(u, w) == WrapState(u.lines, v + " " + w);
    }
  }

  /** For a well-spaced name the untrimmed accumulator yields exactly the same lines. */
  lemma UntrimmedSameLines(name: string)
    requires WellSpaced(name)
    ensures WrapLinesUntrimmed(name) == WrapLines(name)
  {
    var ws := Split(name);
    UntrimmedTracksTrimmed(ws);
    var o := Steps(ws).line;
    TrimKeepsTrimmed(o);
    TrimDropsLeadingSpace(o);
  }

  /** Without well-spaced names the two versions differ: the untrimmed accumulator keeps a
      doubled space between two short words, and it draws one empty line for an empty name. */
  lemma UntrimmedDiffers(a: string, b: string)
    requires Word(a) && Word(b) && |a| + |b| + 2 <= MaxChars
    ensures WrapLines(a + "  " + b) == [a + " " + b]
    ensures WrapLinesUntrimmed(a + "  " + b) == [a + "  " + b]
    ensures WrapLines("") == [] && WrapLinesUntrimmed("") == [""]
  {
    DoubleSpaceDiffers(a, b);
    EmptyNameDiffers();
  }

  lemma DoubleSpaceDiffers(a: string, b: string)
    requires Word(a) && Word(b) && |a| + |b| + 2 <= MaxChars
    ensures WrapLines(a + "  " + b) == [a + " " + b]
    ensures WrapLinesUntrimmed(a + "  " + b) == [a + "  " + b]
  {
    SplitDoubleSpace(a, b);
    WrapDoubleSpace(a, b);
    WrapUntrimmedDoubleSpace(a, b);
  }

  lemma EmptyNameDiffers()
    ensures WrapLines("") == [] && WrapLinesUntrimmed("") == [""]
  {
    WrapEmptyName();
    assert Split("") == [""];
    assert StepsUntrimmed([""]) == StepUntrimmed(StepsUntrimmed([]), "");
    assert "" + " " + "" == " ";
    assert Trim(" ") == "";
  }

  lemma WordHasNoSpace(w: string)
    requires Word(w)
    ensures ' ' !in w && NoSpaceAtEnds(w)
  {
  }

  /** Two words around a doubled space split into the words with an empty piece between. */
  lemma SplitDoubleSpace(a: string, b: string)
    requires Word(a) && Word(b)
    ensures Split(a + "  " + b) == [a, "", b]
  {
    WordHasNoSpace(a);
    WordHasNoSpace(b);
    assert Split(b) == [b];
    SplitAfter("", b);
    assert "" + " " + b == " " + b;
    SplitAfter(a, " " + b);
    assert a + " " + (" " + b) == a + "  " + b;
  }

  lemma WrapDoubleSpace(a: string, b: string)
    requires Word(a) && Word(b) && |a| + |b| + 1 <= MaxChars
    ensures Finish(Steps([a, "", b])) == [a + " " + b]
  {
    StepsOfThree([a, "", b]);
    TrimmedFirstTwo(a);
    TrimmedLast(a, b);
  }

  lemma TrimmedFirstTwo(a: string)
    requires Word(a) && |a| <= MaxChars
    ensures Step(Step(WrapState([], ""), a), "") == WrapState([], a)
  {
    WordHasNoSpace(a);
    TrimSpaceWord(a);
    assert "" + " " + a == " " + a;
    assert Step(WrapState([], ""), a) == WrapState([], a);
    TrimPadded(a);
    assert a + " " + "" == a + " ";
  }

  lemma TrimmedLast(a: string, b: string)
    requires Word(a) && Word(b) && |a| + |b| + 1 <= MaxChars
    ensures Finish(Step(WrapState([], a), b)) == [a + " " + b]
  {
    WordHasNoSpace(a);
    TrimJoin(a, b);
  }

  lemma WrapUntrimmedDoubleSpace(a: string, b: string)
    requires Word(a) && Word(b) && |a| + |b| + 2 <= MaxChars
    ensures Finish(StepsUntrimmed([a, "", b])) == [a + "  " + b]
  {
    StepsUntrimmedOfThree([a, "", b]);
    var s2 := StepUntrimmed(StepUntrimmed(WrapState([], ""), a), "");
    UntrimmedFirstTwo(a);
    UntrimmedLast(a, b);
  }

  lemma UntrimmedFirstTwo(a: string)
    requires Word(a) && |a| <= MaxChars
    ensures StepUntrimmed(StepUntrimmed(WrapState([], ""), a), "") == WrapState([], " " + a + " ")
  {
    WordHasNoSpace(a);
    TrimSpaceWord(a);
    assert "" + " " + a == " " + a;
    assert StepUntrimmed(WrapState([], ""), a) == WrapState([], " " + a);
    TrimDropsTrailingSpace(" " + a);
    assert (" " + a) + " " + "" == (" " + a) + " ";
  }

  lemma UntrimmedLast(a: string, b: string)
    requires Word(a) && Word(b) && |a| + |b| + 2 <= MaxChars
    ensures Finish(StepUntrimmed(WrapState([], " " + a + " "), b)) == [a + "  " + b]
  {
    var line := " " + a + " " + " " + b;
    var inner := a + "  " + b;
    assert line == " " + inner;
    assert inner[0] == a[0] && inner[|inner| - 1] == b[|b| - 1];
    assert NoSpaceAtEnds(inner);
    TrimPadded(inner);
    assert StepUntrimmed(WrapState([], " " + a + " "), b) == WrapState([], line);
  }

  lemma StepsOfThree(ws: seq<string>)
    requires |ws| == 3
    ensures Steps(ws) == Step(Step(Step(WrapState([], ""), ws[0]), ws[1]), ws[2])
  {
    assert ws[..2][..1] == ws[..1] && ws[..1][..0] == [];
    assert Steps(ws) == Step(Steps(ws[..2]), ws[2]);
    assert Steps(ws[..2]) == Step(Steps(ws[..1]), ws[1]);
    assert Steps(ws[..1]) == Step(Steps([]), ws[0]);
  }

  lemma StepsUntrimmedOfThree(ws: seq<string>)
    requires |ws| == 3
    ensures StepsUntrimmed(ws) == StepUntrimmed(StepUntrimmed(StepUntrimmed(WrapState([], ""), ws[0]), ws[1]), ws[2])
  {
    assert ws[..2][..1] == ws[..1] && ws[..1][..0] == [];
    assert StepsUntrimmed(ws) == StepUntrimmed(StepsUntrimmed(ws[..2]), ws[2]);
    assert StepsUntrimmed(ws[..2]) == StepUntrimmed(StepsUntrimmed(ws[..1]), ws[1]);
    assert StepsUntrimmed(ws[..1]) == StepUntrimmed(StepsUntrimmed([]), ws[0]);
  }
}
