/** The activity monitor's configuration and cell rendering: the options merged over the
    defaults, the icon and class drawn for an interaction state, and the state label the
    tooltip shows. */
module ActivityMonitorConfig {
  import opened Wrappers

  datatype Margin = Margin(top: real, right: real, bottom: real, left: real)

  /** An options `margin` object; each side may be left out. */
  datatype MarginOptions = MarginOptions(top: Option<real>, right: Option<real>, bottom: Option<real>, left: Option<real>)

  /** A `stateConfig` entry. */
  datatype StateStyle = StateStyle(icon: string, cls: string)

  datatype Config = Config(margin: Margin, rowHeight: real, columnWidth: real, stateConfig: map<string, StateStyle>)

  /** The caller's options; every key may be left out. */
  datatype Options = Options(
    margin: Option<MarginOptions>,
    rowHeight: Option<real>,
    columnWidth: Option<real>,
    stateConfig: Option<map<string, StateStyle>>)

  const NoOptions := Options(None, None, None, None)

  const DefaultStates: map<string, StateStyle> := map[
    "correto" := StateStyle("\U{2713}", "text-emerald-500 font-bold"),
    "incorreto" := StateStyle("\U{2715}", "text-red-500 font-bold"),
    "visualizou" := StateStyle("\U{1F441}", "text-sky-500"),
    "nao-visualizou" := StateStyle("\U{2796}", "text-slate-300"),
    "aguardando-resposta" := StateStyle("\U{1F4AC}", "text-amber-500"),
    "aguardando-correcao" := StateStyle("\U{1F4DD}", "text-blue-500"),
    "default" := StateStyle("\U{25CF}", "text-slate-300")
  ]

  const Defaults := Config(Margin(120.0, 20.0, 50.0, 250.0), 60.0, 100.0, DefaultStates)

  // ---------------------------------------------------------------- merging

  /** `{ ...defaults.margin, ...options.margin }` */
  function MergeMargin(d: Margin, o: Option<MarginOptions>): Margin {
    match o
    case None => d
    case Some(m) => Margin(m.top.GetOr(d.top), m.right.GetOr(d.right), m.bottom.GetOr(d.bottom), m.left.GetOr(d.left))
  }

  /** `{ ...defaults, ...options, margin: { ...defaults.margin, ...options.margin } }` */
  function MergeConfig(d: Config, o: Options): Config {
    Config(MergeMargin(d.margin, o.margin), o.rowHeight.GetOr(d.rowHeight),
           o.columnWidth.GetOr(d.columnWidth), o.stateConfig.GetOr(d.stateConfig))
  }

  /** The options that spell out every key of `c`. */
  function Spelled(c: Config): Options {
    Options(Some(MarginOptions(Some(c.margin.top), Some(c.margin.right), Some(c.margin.bottom), Some(c.margin.left))),
            Some(c.rowHeight), Some(c.columnWidth), Some(c.stateConfig))
  }

  /** Without options the configuration is the defaults; options that give every key
      replace the defaults entirely. */
  lemma MergeExtremes(d: Config, c: Config)
    ensures MergeConfig(d, NoOptions) == d
    ensures MergeConfig(d, Spelled(c)) == c
  {
  }

  /** Margins merge side by side: a side the options leave out keeps its default, even
      when other sides are given; a side they give wins. A given `stateConfig` replaces
      the default one as a whole. */
  lemma MergeSides(d: Config, o: Options)
    ensures var m := MergeConfig(d, o).margin;
      && (o.margin.None? ==> m == d.margin)
      && (o.margin.Some? ==>
           && m.top == (if o.margin.value.top.Some? then o.margin.value.top.value else d.margin.top)
           && m.right == (if o.margin.value.right.Some? then o.margin.value.right.value else d.margin.right)
           && m.bottom == (if o.margin.value.bottom.Some? then o.margin.value.bottom.value else d.margin.bottom)
           && m.left == (if o.margin.value.left.Some? then o.margin.value.left.value else d.margin.left))
    ensures o.stateConfig.Some? ==> MergeConfig(d, o).stateConfig == o.stateConfig.value
    ensures o.stateConfig.None? ==> MergeConfig(d, o).stateConfig == d.stateConfig
  {
  }

  /** Merging is stable: merging the same options over the merged result changes nothing. */
  lemma MergeIdempotent(d: Config, o: Options)
    ensures MergeConfig(MergeConfig(d, o), o) == MergeConfig(d, o)
  {
  }

  // ---------------------------------------------------------------- icon and class of a cell

  datatype Field = Icon | Class

  function FieldOf(s: StateStyle, f: Field): string {
    match f
    case Icon => s.icon
    case Class => s.cls
  }

  /** A property access converts an `undefined` state into the key "undefined". */
  function StateKey(state: Option<string>): string {
    match state
    case None => "undefined"
    case Some(s) => s
  }

  /** `stateConfig[state]?.field || stateConfig.default.field`; reading `default` from a
      configuration without it is a `TypeError`. */
  function CellField(states: map<string, StateStyle>, state: Option<string>, f: Field): Result<string, string> {
    var key := StateKey(state);
    if key in states && FieldOf(states[key], f) != "" then Ok(FieldOf(states[key], f))
    else if "default" in states then Ok(FieldOf(states["default"], f))
    else Err("TypeError")
  }

  /** The cell's class attribute. */
  function CellClass(states: map<string, StateStyle>, state: Option<string>): Result<string, string> {
    match CellField(states, state, Class)
    case Ok(c) => Ok("text-2xl " + c)
    case Err(e) => Err(e)
  }

  /** A state with its own non-empty entry is drawn with it; any other state falls back
      to the `default` entry, and only a configuration without one fails. */
  lemma CellFieldFallback(states: map<string, StateStyle>, state: Option<string>, f: Field)
    ensures var key := StateKey(state);
      var own := key in states && FieldOf(states[key], f) != "";
      && (CellField(states, state, f).Ok? <==> own || "default" in states)
      && (own ==> CellField(states, state, f) == Ok(FieldOf(states[key], f)))
      && (!own && "default" in states ==> CellField(states, state, f) == Ok(FieldOf(states["default"], f)))
  {
  }

  /** With the default configuration every cell renders: the six known states get their
      own icon, and every other state, a missing one included, gets the bullet in slate. */
  lemma DefaultCells(state: Option<string>)
    ensures var key := StateKey(state);
      && (key in Defaults.stateConfig ==> CellField(Defaults.stateConfig, state, Icon) == Ok(Defaults.stateConfig[key].icon))
      && (key !in Defaults.stateConfig ==> CellField(Defaults.stateConfig, state, Icon) == Ok("\U{25CF}"))
      && (key !in Defaults.stateConfig ==> CellClass(Defaults.stateConfig, state) == Ok("text-2xl text-slate-300"))
  {
    var key := StateKey(state);
    if key in DefaultStates {
      assert key in {"correto", "incorreto", "visualizou", "nao-visualizou",
                     "aguardando-resposta", "aguardando-correcao", "default"};
      assert DefaultStates[key].icon != "";
    } else {
      assert "default" in DefaultStates;
      assert DefaultStates["default"] == StateStyle("\U{25CF}", "text-slate-300");
      assert "text-2xl " + "text-slate-300" == "text-2xl text-slate-300";
    }
  }

  // ---------------------------------------------------------------- the state label

  /** `state || "Não interagiu"` */
  function LabelSource(state: Option<string>): string {
    if state.Some? && state.value != "" then state.value else "N\U{E3}o interagiu"
  }

  /** `.replace(/-/g, ' ')` */
  function Dehyphen(s: string): (r: string)
    ensures |r| == |s| && '-' !in r
  {
    seq(|s|, i requires 0 <= i < |s| => if s[i] == '-' then ' ' else s[i])
  }

  /** `\w` of a JavaScript regular expression: ASCII letters, digits and `_` only. */
  predicate IsWordChar(c: char) {
    ('a' <= c <= 'z') || ('A' <= c <= 'Z') || ('0' <= c <= '9') || c == '_'
  }

  /** `toUpperCase` on a `\w` character. */
  function ToUpper(c: char): char {
    if 'a' <= c <= 'z' then (c as int - 32) as char else c
  }

  /** `.replace(/\b\w/g, l => l.toUpperCase())`: a word character not preceded by one is
      upper-cased. */
  function CapitalizeWords(s: string): (r: string)
    ensures |r| == |s|
  {
    seq(|s|, i requires 0 <= i < |s| =>
      if IsWordChar(s[i]) && (i == 0 || !IsWordChar(s[i - 1])) then ToUpper(s[i]) else s[i])
  }

  /** The tooltip's status label, as written. */
  function StateLabel(state: Option<string>): string {
    CapitalizeWords(Dehyphen(LabelSource(state)))
  }

  /** A non-empty word of lower-case ASCII letters, such as "nao" or "visualizou". */
  predicate LowerWord(w: string) {
    w != [] && forall k :: 0 <= k < |w| ==> 'a' <= w[k] <= 'z'
  }

  /** The word with its first letter upper-cased. */
  function Title(w: string): string
    requires w != []
  {
    [ToUpper(w[0])] + w[1..]
  }

  /** A hyphenated state name such as "nao-visualizou" reads as two title-cased words,
      "Nao Visualizou". */
  lemma HyphenatedStateLabel(a: string, b: string)
    requires LowerWord(a) && LowerWord(b)
    ensures StateLabel(Some(a + "-" + b)) == Title(a) + " " + Title(b)
  {
    var src := a + "-" + b;
    var s := Dehyphen(src);
    assert s == a + " " + b by {
      forall i | 0 <= i < |s| ensures s[i] == (a + " " + b)[i] {
        if i < |a| { assert src[i] == a[i]; }
        else if i > |a| { assert src[i] == b[i - |a| - 1]; }
      }
    }
    var r := CapitalizeWords(s);
    var t := Title(a) + " " + Title(b);
    forall i | 0 <= i < |r| ensures r[i] == t[i] {
      if 0 < i < |a| {
        assert s[i] == a[i] && s[i - 1] == a[i - 1];
      } else if i > |a| + 1 {
        assert s[i] == b[i - |a| - 1] && s[i - 1] == b[i - |a| - 2];
      }
    }
  }

  /** A label has no hyphen, the same length as its source, and relabelling it changes
      nothing. */
  lemma StateLabelStable(state: Option<string>)
    ensures '-' !in StateLabel(state)
    ensures |StateLabel(state)| == |LabelSource(state)|
    ensures CapitalizeWords(StateLabel(state)) == StateLabel(state)
  {
    var s := Dehyphen(LabelSource(state));
    var r := CapitalizeWords(s);
    assert forall i :: 0 <= i < |s| ==> IsWordChar(r[i]) == IsWordChar(s[i]);
  }

  /** As written, the fallback label of a missing state is "NãO Interagiu": `ã` is not a
      word character, so the `o` after it starts a new word. */
  lemma MissingStateLabelAsWritten()
    ensures StateLabel(None) == "N\U{E3}O Interagiu"
  {
    assert Dehyphen("N\U{E3}o interagiu") == "N\U{E3}o interagiu";
  }

  // ---------------------------------------------------------------- corrected label

  /** A letter of the Latin-1 range: ASCII letters and the accented ones. */
  predicate IsLatinLetter(c: char) {
    ('a' <= c <= 'z') || ('A' <= c <= 'Z')
    || ('\U{C0}' <= c <= '\U{D6}') || ('\U{D8}' <= c <= '\U{F6}') || ('\U{F8}' <= c <= '\U{FF}')
  }

  /** A word character that also counts the accented Latin-1 letters. */
  predicate IsWordCharLatin(c: char) {
    IsWordChar(c) || IsLatinLetter(c)
  }

  /** Upper case for the Latin-1 lower-case letters that have a Latin-1 capital. */
  function ToUpperLatin(c: char): char {
    if ('a' <= c <= 'z') || ('\U{E0}' <= c <= '\U{FE}' && c != '\U{F7}') then (c as int - 32) as char else c
  }

  function CapitalizeWordsLatin(s: string): (r: string)
    ensures |r| == |s|
  {
    seq(|s|, i requires 0 <= i < |s| =>
      if IsWordCharLatin(s[i]) && (i == 0 || !IsWordCharLatin(s[i - 1])) then ToUpperLatin(s[i]) else s[i])
  }

  /** The status label with accented letters treated as part of their word. */
  function StateLabelCorrected(state: Option<string>): string {
    CapitalizeWordsLatin(Dehyphen(LabelSource(state)))
  }

  /** The corrected label never changes a character that follows a letter, and it renders
      the fallback as "Não Interagiu". */
  lemma StateLabelCorrectedKeepsWords(state: Option<string>)
    ensures var s, r := Dehyphen(LabelSource(state)), StateLabelCorrected(state);
      forall i :: 0 < i < |s| && IsLatinLetter(s[i - 1]) ==> r[i] == s[i]
    ensures StateLabelCorrected(None) == "N\U{E3}o Interagiu"
  {
    MissingStateLabelCorrected();
  }

  lemma MissingStateLabelCorrected()
    ensures StateLabelCorrected(None) == "N\U{E3}o Interagiu"
  {
    assert Dehyphen("N\U{E3}o interagiu") == "N\U{E3}o interagiu";
  }

  /** The label as written breaks that rule: in the fallback, the `o` after `ã` is changed. */
  lemma StateLabelAsWrittenSplitsWords()
    ensures var s, r := Dehyphen(LabelSource(None)), StateLabel(None);
      IsLatinLetter(s[1]) && r[2] != s[2]
  {
    MissingStateLabelAsWritten();
    assert Dehyphen("N\U{E3}o interagiu") == "N\U{E3}o interagiu";
  }

  /** On labels made of ASCII characters the two versions agree. */
  lemma StateLabelsAgreeOnAscii(state: Option<string>)
    requires forall k :: 0 <= k < |LabelSource(state)| ==> LabelSource(state)[k] < '\U{80}'
    ensures StateLabelCorrected(state) == StateLabel(state)
  {
  }
}
