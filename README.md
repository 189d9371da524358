# dataviz-ppgi charts, modelled in Dafny

The charts in this D3 library draw student-activity data: an activity monitor
(topic tree × students), two attendance timelines, a class-performance chart, two
access/interaction charts and a weights chart. Inside their drawing code are small
pieces of logic. This project lifts those pieces out, models each one and proves what
it guarantees:

- **Activity monitor** (`ActivityMonitor`, `ActivityMonitorConfig`).
  - `flattenHierarchy` is a class holding the two arrays it pushes into. Its recursive
    method is proved against a functional walk.
  - The walk lists the tree's resources in pre-order, each with its ancestors' names.
  - A grouping node whose subtree adds columns records one header, in the row of its
    level. The header spans exactly those columns, and the header rows stay disjoint
    and ordered.
  - Also modelled: the merge of options over the defaults, the icon/class lookup with
    its `default` fallback, and the tooltip's state label.
- **Event timeline** (`EventTimelineChart`).
  - Minutes inside the event window.
  - The red/amber/blue classification.
  - The `HhMm` label (for example `1h30m`), which reads back as the total and is the only
    string that does.
  - The sort state (`handleSort`'s toggle) and the in-place, stable re-sort of the rows.
  - The absence-threshold input.
- **Simple event timeline** (`EventTimeline`): the late-start colour rule against the
  fixed 13:00 start, the grayscale avatar of a student without sessions under mouse
  events, and the delay input.
- **Word wrap** (`WordWrap`).
  - The greedy 20-character name wrap has two loops.
  - `WrapName` is the copy in the timeline and performance charts.
  - `WrapNameUntrimmed` is the copy in the simple timeline, which appends `" " + w`
    without re-trimming.
  - Both loops are methods proved against functions.
  - For names whose words are separated by single spaces, the two give the same lines
    (`UntrimmedSameLines`), and their non-empty lines joined by spaces give the name back.
  - They differ on a doubled space and on the empty name (`UntrimmedDiffers`).
- **Performance chart** (`PerformanceChart`).
  - `parsePerformanceData`.
  - The header click, which flips the order in the `sortBy` object. When the caller
    passed `initialSort`, that object is the caller's own, so the click writes into
    the caller's options.
  - `handleSort`, the stacked sub-bars and the `NN/NN` fraction label.
- **Access/interaction charts** (`DailyLayout`, shared by both charts, and
  `AccessInteractionChart`).
  - One entry per day of the range; the last entry for a day wins.
  - Daily totals and the grand total, which counts every session once when the days
    of the entries are distinct and inside the range.
  - Day-box widths and the left-to-right placement loop.
  - `formatTotalTime`, the detailed view's end-to-end session segments, and
    `toggleDetails`.
- **Sorting** (`Sorting`, `Utils`, `Weights`).
  - `Array.prototype.sort` with `d3.ascending`/`d3.descending` is specified by a stable
    insertion sort: `Sort` on sequences and `SortInPlace` on an array.
  - `sortByKey` sorts in place in descending order. Its result is a permutation, and
    nothing is promised about ties.
  - The weights chart drops zero weights, keeps the order and scales the heaviest item
    to the full box.

The conventions are as follows:
- Instants are whole minutes and days are integer indices.
- Pixel positions are `real`, and a D3 linear scale is `v * k`.
- NaN is `None`.
- Strings are `seq<char>`, compared character by character as `<` on JavaScript strings does.
- `String.prototype.trim`, `split(" ")`, `join(" ")`, `padStart`, `String(n)` and
  `parseInt(s, 10) || 0` are modelled in `Text`.

## Model

| member | source | states |
|---|---|---|
| ActivityMonitor.Preprocessor.FlattenHierarchy | src/charts/ActivityMonitorChart.ts:55-72 | after the call, the two arrays are exactly the layout the functional walk produces from their old contents |
| ActivityMonitor.Preprocessor.constructor | src/charts/ActivityMonitorChart.ts:52-53 | both arrays start empty |
| ActivityMonitor.Preprocess | src/charts/ActivityMonitorChart.ts:52-73 | the two arrays are exactly the walk of the whole tree from empty arrays at level 0, so every header is as `NodeHeader` describes; the columns are exactly the tree's resources in pre-order; every header row is well formed |
| ActivityMonitor.Walk | src/charts/ActivityMonitorChart.ts:55-72 | the walk only appends: neither the column list nor the header rows shrink |
| ActivityMonitor.WalkFlat | src/charts/ActivityMonitorChart.ts:56-61 | the flat list grows by exactly the pre-order resources; each carries the names of its ancestors, root first, and not its own |
| ActivityMonitor.WalkForestFlat | src/charts/ActivityMonitorChart.ts:57-71 | visiting sibling nodes in order appends their resources in order |
| ActivityMonitor.WalkNodeFlat | src/charts/ActivityMonitorChart.ts:58-66 | a node's own column, if it is a resource, comes before its descendants' columns |
| ActivityMonitor.NodeHeader | src/charts/ActivityMonitorChart.ts:59-69 | after visiting a grouping node: row `level` exists even when the subtree adds no column; the node's own column comes first and lies outside its span; a header is appended exactly when the children add columns, and it spans exactly those columns |
| ActivityMonitor.GroupHeader | src/charts/ActivityMonitorChart.ts:64-68 | a group's header starts at the column count before its children and spans the number of resources they add |
| ActivityMonitor.WalkForestFrame | src/charts/ActivityMonitorChart.ts:62-68 | the walk at `level` never changes the header rows above it |
| ActivityMonitor.WalkNodeFrame | src/charts/ActivityMonitorChart.ts:62-68 | visiting one node at `level` never changes the header rows above it |
| ActivityMonitor.WalkForestWellFormed | src/charts/ActivityMonitorChart.ts:57-71 | the walk keeps every header in its own row and inside the column list, with a positive span; within a row the spans stay disjoint and increasing |
| ActivityMonitor.WalkNodeWellFormed | src/charts/ActivityMonitorChart.ts:58-70 | visiting one node keeps the header rows well formed |
| ActivityMonitor.GroupWellFormed | src/charts/ActivityMonitorChart.ts:63-69 | walking a group's children and recording its header keeps the header rows well formed |
| ActivityMonitor.AppendHeaderWellFormed | src/charts/ActivityMonitorChart.ts:67-68 | a header that starts at or after the end of every earlier span in its row keeps the rows well formed |
| ActivityMonitor.OpenRowWellFormed | src/charts/ActivityMonitorChart.ts:63 | creating an empty header row keeps the rows well formed |
| ActivityMonitor.ListWellFormed | src/charts/ActivityMonitorChart.ts:59-60 | pushing columns keeps the header rows well formed |
| ActivityMonitorConfig.MergeExtremes | src/charts/ActivityMonitorChart.ts:33-37 | without options the configuration is the defaults; options that give every key replace them entirely |
| ActivityMonitorConfig.MergeSides | src/charts/ActivityMonitorChart.ts:33-37 | margins merge side by side, so a side left out keeps its default; a given `stateConfig` replaces the default map as a whole |
| ActivityMonitorConfig.MergeIdempotent | src/charts/ActivityMonitorChart.ts:33-37 | merging the same options again changes nothing |
| ActivityMonitorConfig.CellFieldFallback | src/charts/ActivityMonitorChart.ts:168-169 | a state with its own non-empty entry uses it; any other state uses `default`; the lookup fails exactly when neither exists |
| ActivityMonitorConfig.DefaultCells | src/charts/ActivityMonitorChart.ts:168-169 | with the default configuration's `stateConfig` every state renders; unknown and missing states get `●` and `text-2xl text-slate-300` |
| ActivityMonitorConfig.Dehyphen | src/charts/ActivityMonitorChart.ts:175 | hyphen replacement keeps the length and leaves no hyphen |
| ActivityMonitorConfig.CapitalizeWords | src/charts/ActivityMonitorChart.ts:175 | capitalising word starts keeps the length |
| ActivityMonitorConfig.HyphenatedStateLabel | src/charts/ActivityMonitorChart.ts:175 | a state `a-b` made of lower-case words is labelled as two title-cased words, `A B` |
| ActivityMonitorConfig.StateLabelStable | src/charts/ActivityMonitorChart.ts:175 | a label holds no hyphen, has its source's length, and relabelling it changes nothing |
| ActivityMonitorConfig.MissingStateLabelAsWritten | src/charts/ActivityMonitorChart.ts:175 | as written, the missing state is labelled `NãO Interagiu` |
| ActivityMonitorConfig.StateLabelAsWrittenSplitsWords | src/charts/ActivityMonitorChart.ts:175 | as written, the fallback's `o`, which follows the letter `ã`, is upper-cased |
| ActivityMonitorConfig.CapitalizeWordsLatin | src/charts/ActivityMonitorChart.ts:175 | the corrected capitalisation keeps the length |
| ActivityMonitorConfig.StateLabelCorrectedKeepsWords | src/charts/ActivityMonitorChart.ts:175 | the corrected label never changes a character that follows a letter |
| ActivityMonitorConfig.MissingStateLabelCorrected | src/charts/ActivityMonitorChart.ts:175 | the corrected label of a missing state is `Não Interagiu` |
| ActivityMonitorConfig.StateLabelsAgreeOnAscii | src/charts/ActivityMonitorChart.ts:175 | on ASCII labels the corrected version equals the original |
| EventTimelineChart.MinutesWithinEventBounds | src/charts/EventTimelineChart.ts:41-45 | clipped minutes lie in [0, duration]; a session wholly outside counts 0; one wholly inside counts its own length |
| EventTimelineChart.TotalMinutes | src/charts/EventTimelineChart.ts:281 | a student's total inside the event is never negative |
| EventTimelineChart.TotalMinutesBound | src/charts/EventTimelineChart.ts:281 | a total is at most the duration times the number of sessions |
| EventTimelineChart.ColorCases | src/charts/EventTimelineChart.ts:283-287 | red exactly below the threshold; blue exactly at or above both the threshold and duration − threshold; amber exactly in between |
| EventTimelineChart.FillCases | src/charts/EventTimelineChart.ts:283-286 | the three fills are distinct, and the fill written is `red`, `#2196f3` or `#f4b400` exactly under its colour's condition |
| EventTimelineChart.ColorMonotone | src/charts/EventTimelineChart.ts:283-287 | more minutes never give a worse colour |
| EventTimelineChart.TimeLabelRoundTrip | src/charts/EventTimelineChart.ts:294-296 | the label reads back as the total under a strict reader (whole hours of at least 1, minutes below 60, no leading zeros); below one hour it is only `Mm` |
| EventTimelineChart.TimeLabelWithHours | src/charts/EventTimelineChart.ts:294-296 | from one hour on, the label is `Hh` followed by `Mm`, with H the whole hours and M < 60 the minutes left over, both without leading zeros, and it reads back |
| EventTimelineChart.TimeLabelWithoutHours | src/charts/EventTimelineChart.ts:294-296 | below one hour the label is the minutes followed by `m`, and it reads back |
| EventTimelineChart.TimeLabelExact | src/charts/EventTimelineChart.ts:294-296 | the only string the reader reads as `t` is the label of `t`, so `90m` or `0h90m` is never the label of 90 |
| EventTimelineChart.InitialSortDefaults | src/charts/EventTimelineChart.ts:63-74 | the default sort is name/asc, and an initial sort without an order is ascending |
| EventTimelineChart.ToggleRules | src/charts/EventTimelineChart.ts:345-351 | the clicked column becomes active; the active column flips its order; another column starts ascending; two clicks on the active column restore the state |
| EventTimelineChart.RowFillAlternates | src/charts/EventTimelineChart.ts:324 | adjacent ranks never share a fill, and ranks two apart always do |
| EventTimelineChart.NameBaselineCases | src/charts/EventTimelineChart.ts:239 | a one-line name sits on the band's centre; an empty name, which draws no line, sits 7 px below it |
| EventTimelineChart.TimelineChart.constructor | src/charts/EventTimelineChart.ts:60-87 | the threshold defaults to 15; the sort state is initialised; the rows are sorted in place by it |
| EventTimelineChart.TimelineChart.HandleSort | src/charts/EventTimelineChart.ts:345-365 | the sort state is toggled; the threshold is kept; the rows are re-sorted in place by the clicked column in the new direction |
| EventTimelineChart.TimelineChart.OnDelayInput | src/charts/EventTimelineChart.ts:380-383 | the threshold becomes `parseInt(value, 10) \|\| 0`, the sort state is kept, and every student's colour is now the classification under the new threshold |
| EventTimelineChart.TimelineChart.StudentColor | src/charts/EventTimelineChart.ts:281-287 | a student's bars are red exactly when the student's minutes inside the event fall short of the threshold, blue exactly when they come within the threshold of the duration, amber otherwise |
| EventTimelineChart.ResortGuarantees | src/charts/EventTimelineChart.ts:355-365 | a re-sort keeps the same rows, orders them by the key in the chosen direction, and keeps rows with equal keys in their previous order, in both directions |
| EventTimeline.SessionFillRule | src/charts/EventTimeline.ts:227-229 | amber exactly when the session starts more than the threshold after 13:00; starting exactly that late is blue; with a non-negative threshold, on time or early is blue |
| EventTimeline.SessionFillMonotone | src/charts/EventTimeline.ts:227-229 | raising the threshold never turns a blue bar amber |
| EventTimeline.Avatar.constructor | src/charts/EventTimeline.ts:121 | the avatar starts in grayscale exactly when the student has no sessions |
| EventTimeline.Avatar.MouseOver | src/charts/EventTimeline.ts:122-124 | mouse over the avatar removes the filter |
| EventTimeline.Avatar.MouseOut | src/charts/EventTimeline.ts:125-129 | mouse out re-applies grayscale only for a student without sessions |
| EventTimeline.OfflineIconRule | src/charts/EventTimeline.ts:121-137 | the offline icon is drawn exactly for a student without sessions, and exactly for those whose avatar starts grey and turns grey again whenever the mouse leaves |
| EventTimeline.FilterAfterEvents | src/charts/EventTimeline.ts:121-129 | whatever the mouse does, a student with sessions is never grey; an offline student is grey before any mouse event and after the mouse leaves |
| EventTimeline.Replay | src/charts/EventTimeline.ts:121-129 | replaying mouse events on an avatar leaves the filter the event sequence determines |
| EventTimeline.NameBaselineSteps | src/charts/EventTimeline.ts:164 | each extra line raises the baseline 6 px; one line, and also the empty name's single empty line, sit on the centre |
| EventTimeline.Timeline.constructor | src/charts/EventTimeline.ts:51 | the threshold defaults to 15 |
| EventTimeline.Timeline.OnDelayInput | src/charts/EventTimeline.ts:267-270 | the threshold becomes `parseInt(value, 10) \|\| 0` |
| EventTimeline.Timeline.Fills | src/charts/EventTimeline.ts:227-229 | one fill per session, amber exactly for the sessions that started late |
| EventTimeline.DelayInputValues | src/charts/EventTimeline.ts:268 | a typed integer sets the threshold to it; non-numeric or empty input sets 0 |
| WordWrap.WrapName | src/charts/EventTimelineChart.ts:225-237 | the loop emits exactly the specified lines; each is trimmed, and a line over 20 characters is a single word |
| WordWrap.StepsFit | src/charts/EventTimelineChart.ts:229-236 | during the loop, every emitted line is trimmed and the line in progress is one word or fits in 20 characters |
| WordWrap.WrapLinesShape | src/charts/EventTimelineChart.ts:229-237 | every drawn line is trimmed, and one longer than 20 characters is a single word |
| WordWrap.WrapEmptyName | src/charts/EventTimelineChart.ts:226-237 | an empty name yields no lines |
| WordWrap.WrapWellSpaced | src/charts/EventTimelineChart.ts:229-237 | for single-spaced names: the non-empty lines joined by spaces give the name back; only the first line can be empty, and it is empty exactly when the first word exceeds 20 characters |
| WordWrap.WrapNameUntrimmed | src/charts/EventTimeline.ts:144-159 | the untrimmed loop emits exactly its specified lines, each trimmed |
| WordWrap.UntrimmedLinesTrimmed | src/charts/EventTimeline.ts:151-159 | every line the untrimmed accumulator emits is trimmed |
| WordWrap.UntrimmedTracksTrimmed | src/charts/EventTimeline.ts:151-158 | on words without spaces, the untrimmed state has the trimmed state's lines, and its line in progress differs by at most one leading space |
| WordWrap.UntrimmedSameLines | src/charts/EventTimeline.ts:151-159 | for single-spaced names, the untrimmed accumulator draws exactly the trimmed version's lines |
| WordWrap.UntrimmedDiffers | src/charts/EventTimeline.ts:151-159 | for other names it does not: it keeps a doubled space between two short words, and it draws one empty line for the empty name |
| PerformanceChart.ParseAcceptsExactlyStudentArrays | src/charts/PerformanceChart.ts:36-41 | parsing succeeds exactly when `students` is an array, and then returns its input unchanged; otherwise it throws |
| PerformanceChart.OrderRules | src/charts/PerformanceChart.ts:109-113 | the arrow shows the sort direction; a click reverses it, so two clicks restore it; an initial sort without an order sorts descending, shows ▼, and the first click makes it ascending |
| PerformanceChart.Ids | src/charts/PerformanceChart.ts:282 | the band domain lists the rows' ids in row order |
| PerformanceChart.SortSpec.constructor | src/charts/PerformanceChart.ts:58 | the sort object holds the given order |
| PerformanceChart.Chart.constructor | src/charts/PerformanceChart.ts:58-62 | `sortBy` is the caller's `initialSort` object itself (or a fresh name/asc one); the rows are sorted in place by name in its direction |
| PerformanceChart.Chart.Click | src/charts/PerformanceChart.ts:110-113 | the order is flipped in the shared object, the header's arrow flips with it, then the rows are re-sorted and re-keyed |
| PerformanceChart.Chart.Header | src/charts/PerformanceChart.ts:109-112 | the header is `Estudante ` and one arrow, ▲ exactly when the rows are sorted ascending and ▼ exactly when descending |
| PerformanceChart.Chart.HandleSort | src/charts/PerformanceChart.ts:279-282 | the rows are sorted in place by name in the current direction, and the y-domain lists their ids in that order |
| PerformanceChart.ClickWritesCallerOptions | src/charts/PerformanceChart.ts:58-113 | one click sets `asc` in the `initialSort` object the caller passed without an order |
| PerformanceChart.ResortGuarantees | src/charts/PerformanceChart.ts:279-282 | a re-sort keeps the same rows, sorted by name, with one id per row |
| PerformanceChart.RowFillAlternates | src/charts/PerformanceChart.ts:292-294 | even ranks are #F9FAFB and odd ranks #FFFFFF, so adjacent rows differ |
| PerformanceChart.SubBarsDisjoint | src/charts/PerformanceChart.ts:205-209 | sub-bar i sits at 22·i; each ends at least 6 px before every later one starts |
| PerformanceChart.BarsAdjacent | src/charts/PerformanceChart.ts:238-259 | the red bar starts at 0 and the green bar where it ends; both lie inside the grey bar when no more answers than questions were given |
| PerformanceChart.Pad2Value | src/charts/PerformanceChart.ts:271 | a padded number has at least two digits and denotes the number |
| PerformanceChart.FractionRoundTrip | src/charts/PerformanceChart.ts:271 | the label reads back as (answered, total) and is at least 5 characters long |
| AccessInteractionChart.FormatInvalidTotal | src/charts/AccessInteractionChart.ts:146-147 | NaN and negative totals print as `0h00` |
| AccessInteractionChart.PaddedMinutes | src/charts/AccessInteractionChart.ts:150 | the minutes of the hour print as exactly two digits |
| AccessInteractionChart.FormatTotalTimeRoundTrip | src/charts/AccessInteractionChart.ts:146-152 | for whole minutes the label is hours, `h`, two-digit minutes, and it reads back as the total |
| AccessInteractionChart.SegmentsContiguous | src/charts/AccessInteractionChart.ts:216-228 | detailed segments start at 0, and each begins where the previous one ends |
| AccessInteractionChart.SegmentsPositive | src/charts/AccessInteractionChart.ts:217-221 | sessions of non-positive length are skipped, so under a positive scale every segment has a positive width |
| AccessInteractionChart.SegmentsSpan | src/charts/AccessInteractionChart.ts:216-228 | the segments together span the scaled minutes of the positive sessions |
| AccessInteractionChart.DetailedFillsSimpleBox | src/charts/AccessInteractionChart.ts:203-228 | when every session is positive, the detailed segments exactly fill the simple view's box |
| AccessInteractionChart.DetailedView | src/charts/AccessInteractionChart.ts:213-235 | the offset loop produces the contiguous segments for a day with time, and a grey 10 px box otherwise |
| AccessInteractionChart.StylesComplementary | src/charts/AccessInteractionChart.ts:296-303 | exactly one view is visible, and only the visible one receives mouse events |
| AccessInteractionChart.ViewSwitch.constructor | src/charts/AccessInteractionChart.ts:73 | the chart opens in the simple view |
| AccessInteractionChart.ViewSwitch.ToggleDetails | src/charts/AccessInteractionChart.ts:294-304 | the view flag flips and both views are restyled for it |
| DailyLayout.Days | src/charts/AccessInteractionChart.ts:119 | the days from first through last, in order, one each |
| DailyLayout.DailyMapLastWins | src/charts/AccessInteractionChart.ts:122 | a day is in the map exactly when some entry names it, and it holds the sessions of the last such entry |
| DailyLayout.Augment | src/charts/AccessInteractionChart.ts:124-128 | one augmented entry per day of the range |
| DailyLayout.AugmentEntries | src/charts/AccessInteractionChart.ts:121-128 | entry i is day first+i and carries its own total; a day without data gets no sessions and total 0; otherwise it gets the last entry's sessions |
| DailyLayout.DailyTotalNonNegative | src/charts/AccessInteractionChart.ts:126 | a day of well-ordered sessions has a non-negative total |
| DailyLayout.GrandTotalCountsEverySession | src/charts/AccessInteractionChart.ts:121-133 | with distinct in-range days, the grand total is the sum of the student's own daily totals |
| DailyLayout.WidthRule | src/charts/InteractionChart.ts:138-159 | an empty day is a grey 10 px box; a day with time is as wide as its scaled minutes; every box is positive and the weekday letter sits at its middle |
| DailyLayout.ScaleLeavesMargin | src/charts/InteractionChart.ts:103-106 | the time scale draws any total up to the maximum narrower than the full width |
| DailyLayout.PlaceDays | src/charts/InteractionChart.ts:164-172 | the first group is at 0, and each next one is a box width plus 3 px further |
| DailyLayout.PlacementDisjoint | src/charts/AccessInteractionChart.ts:248-256 | each box ends at least 3 px before any later box starts, so the offsets strictly increase |
| Sorting.SortInPlace | src/charts/EventTimelineChart.ts:357-365 | the array ends up as the stable sort of its old contents |
| Sorting.InsertInPlace | src/charts/EventTimelineChart.ts:357-365 | one pass inserts `a[i]` into the sorted prefix and leaves the rest of the array alone |
| Sorting.ShiftRight | src/charts/EventTimelineChart.ts:357-365 | the elements that go after `x` are shifted one place right; the hole left is where `x` belongs |
| Sorting.BeforeIsStrictTotalOrder | src/charts/EventTimelineChart.ts:355 | either comparator direction is a strict total order on keys |
| Sorting.SortPermutes | src/charts/EventTimelineChart.ts:357-365 | sorting permutes the rows |
| Sorting.SortSorts | src/charts/EventTimelineChart.ts:357-365 | the result is ordered by key in the chosen direction |
| Sorting.SortIsStable | src/charts/EventTimelineChart.ts:355-365 | rows with equal keys keep their relative order, ascending and descending alike |
| Sorting.SortOfSorted | src/charts/PerformanceChart.ts:279-281 | sorting rows that are already in order changes nothing |
| Sorting.SortIdempotent | src/charts/PerformanceChart.ts:279-281 | sorting twice with one comparator equals sorting once |
| Utils.SortByKey | src/utils/sortByKey.ts:1-3 | the same array is returned, holding the same elements, with keys in non-increasing order |
| Utils.ComparatorOnKeys | src/utils/sortByKey.ts:2 | on distinct keys the comparator puts the larger first; on equal keys it answers 1 in both orders |
| Weights.DrawWeightsChart | src/charts/weights.ts:27-48 | `data` is reordered in place, heaviest first, and the drawn items are its non-zero items in that order |
| Weights.SortedByWeight | src/charts/weights.ts:27 | sorted by `sortByKey(data, 'weight')` means heaviest first |
| Weights.NonZeroKeepsExactly | src/charts/weights.ts:48 | exactly the zero-weight items are dropped, each other item kept as often as it occurs |
| Weights.NonZeroAppend | src/charts/weights.ts:48 | filtering a concatenation filters each part in place, so kept items keep their relative order, equal weights included |
| Weights.NonZeroKeepsOrder | src/charts/weights.ts:48 | the kept items stay heaviest first |
| Weights.MaxWeight | src/charts/weights.ts:31 | the maximum weight exists exactly for a non-empty list, is one of the weights, and bounds all of them |
| Weights.DrawnAreKept | src/charts/weights.ts:47-48 | one drawn item per kept item, in order |
| Weights.DrawnInOrder | src/charts/weights.ts:27-48 | the items are drawn heaviest first |
| Weights.DrawnAreNonZero | src/charts/weights.ts:48 | every drawn item has a non-zero weight and comes from the data |
| Weights.HeaviestDrawnFull | src/charts/weights.ts:66-67 | a non-zero heaviest item is drawn first, at the full box size (150 by default), even when every weight is negative |
| Weights.SideOfHeaviest | src/charts/weights.ts:66-67 | the heaviest item's side is the box |
| Text.Trim | src/charts/EventTimelineChart.ts:230 | a trimmed string has no white space at either end and is no longer than the input; what it keeps is stated by `TrimStripsSpaces` |
| Text.TrimStripsSpaces | src/charts/EventTimelineChart.ts:230 | the trimmed string is the infix of the input left after cutting only white space from both ends; with `Trim`'s own contract, nothing else is cut |
| Text.TrimIdempotent | src/charts/EventTimelineChart.ts:231 | trimming a trimmed line changes nothing |
| Text.TrimDropsLeadingSpace | src/charts/EventTimeline.ts:152 | trimming ignores one more space in front |
| Text.SplitJoin | src/charts/EventTimelineChart.ts:226 | the pieces of `split(" ")` hold no space, and joining them with spaces gives the string back |
| Text.JoinSplit | src/charts/EventTimelineChart.ts:226 | splitting undoes joining space-free words |
| Text.NatToStringRoundTrip | src/charts/EventTimelineChart.ts:296 | the decimal digits of a number read back as the number |
| Text.CanonicalDigitsRoundTrip | src/charts/EventTimelineChart.ts:296 | `String(n)` writes digits without leading zeros, and every such digit string is `String` of its value |
| Text.PadStart | src/charts/AccessInteractionChart.ts:150 | padding reaches the target length, keeps the string at the end, and fills the front with the pad character |
| Text.ParseIntRoundTrip | src/charts/EventTimelineChart.ts:381 | `parseInt` of a printed integer gives it back, and so does `\|\| 0` |
| Text.ParseNonNumeric | src/charts/EventTimelineChart.ts:381 | input whose first non-blank character is not a sign or digit parses to NaN, hence 0 |

## Left out

- DOM and D3 machinery is not modelled: selections, joins, transitions (750 ms, 300 ms), tooltips and their HTML, legends, axes, SVG filters, and the timeline chart's header texts and icons (`updateHeaderIcons`).
- D3 scales become the linear map `v * k`. Band-scale padding and positions are not modelled.
- `Date` objects, `toISOString` day keys, `d3.timeDay` and `Intl.DateTimeFormat` weekday names are not modelled. Instants are whole minutes and days are integer indices, so the UTC-versus-local mismatch of the day keys is not modelled.
- `Math.round` on fractional minutes is not modelled. All durations are whole minutes, so labels such as `60m` or `0h60` from rounding cannot arise here.
- `parseInteractionData` (both interaction charts) is not modelled. It converts date strings to `Date` in place, which lies outside the integer-minute model.
- The tooltip's per-type `d3.rollup` summary (src/charts/AccessInteractionChart.ts:266-287) is not modelled; it only builds HTML.
- Weights.Side: a zero maximum weight gives D3 a degenerate scale domain; the model returns `None` there instead of modelling D3's output.
- DailyLayout.ScaleFactor requires the domain end (the largest total plus 120) to be positive, so D3's degenerate-domain output is not modelled.
- Utils.SortByKey: deliberately weaker than a full specification. It promises a permutation in non-increasing key order, but no order among equal keys. The comparator never answers 0 (it answers 1 for `compare(a, a)` and for both orders of a tie), so under ECMA-262 it is not a consistent comparator and the whole resulting order is implementation-defined. The non-increasing order this member promises is what the engines' sorts produce with this comparator, not what the language guarantees.
- WordWrap.Step: the 20-character test counts Unicode scalar values, while `.length` counts UTF-16 code units, so the wrap differs for names with characters outside the Basic Multilingual Plane (each counts 2 there); the same holds for `WordWrap.StepUntrimmed` and `WordWrap.WrapName`.
- Sorting.StrLess compares Dafny characters (Unicode scalar values). JavaScript compares UTF-16 code units, and the two orders differ only for characters outside the Basic Multilingual Plane.
- JavaScript numbers are doubles, but the model's numbers are mathematical integers and reals. `String(n)` switching to exponent form from 1e21 and `parseInt` rounding above 2^53 are not modelled, so `Text.NatToStringRoundTrip`, `Text.ParseIntRoundTrip` and `EventTimeline.DelayInputValues` hold for every integer only in the model.
- Options given explicitly as `undefined` (rather than left out) are not distinguished from missing ones.
- The `sortBy.column` null branch of the timeline chart (src/charts/EventTimelineChart.ts:76) is not modelled: the declared option type never yields a null column.
- The session count text (`N con.`, src/charts/EventTimelineChart.ts:298) is not modelled. The timeline chart's grayscale avatar (src/charts/EventTimelineChart.ts:289-290) is not modelled separately; the simple timeline's avatar filter is modelled in `EventTimeline.Avatar`.
- The performance chart's word wrap (src/charts/PerformanceChart.ts:167-191) is the same code as the timeline chart's, so `WordWrap.WrapName` models both.
- The demo drivers, `barChart`, `lineChart`, the unfinished `StudentsInteractions` and the re-exporting `index.ts` are not part of this model.

## Findings

| source | as written | input that shows it | evidently intended | confidence | as-written member | corrected member |
|---|---|---|---|---|---|---|
| src/charts/ActivityMonitorChart.ts:175 | `\w` in `/\b\w/g` is ASCII-only, so `ã` is a non-word character, so the letter after it starts a new "word" and is upper-cased | a cell without a state: the fallback `Não interagiu` becomes `NãO Interagiu` | capitalise only the first letter of each word: `Não Interagiu` | high; not executed | ActivityMonitorConfig.StateLabelAsWrittenSplitsWords | ActivityMonitorConfig.StateLabelCorrectedKeepsWords |
