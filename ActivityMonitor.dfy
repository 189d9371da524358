/** The activity monitor's preprocessing: the topic tree is flattened into the ordered
    list of resource columns, and every grouping node records a header spanning the
    columns of the resources below it, one row of headers per tree level. */
module ActivityMonitor {
  import opened Wrappers

  /** A topic-tree node. `kind` is the resource `type` (absent for a pure grouping node);
      `children` is the optional array of sub-nodes. */
  datatype Node = Node(name: string, id: string, kind: Option<string>, children: Children)

  /** An array of nodes, or `undefined`. */
  datatype Children = Absent | Present(nodes: seq<Node>)

  /** A resource column: the node together with the names of its ancestors, root first. */
  datatype FlatResource = FlatResource(node: Node, path: seq<string>)

  /** A header cell of row `level`, spanning `colSpan` columns from `startIndex`. */
  datatype Header = Header(name: string, level: nat, startIndex: nat, colSpan: nat)

  /** The two shared arrays the walk appends to. */
  datatype Layout = Layout(flat: seq<FlatResource>, headers: seq<seq<Header>>)

  /** `if (node.type)`: a resource is a node whose type is present and not empty. */
  predicate IsResource(n: Node) {
    n.kind.Some? && n.kind.value != ""
  }

  // ---------------------------------------------------------------- the walk, as a function

  /** The layout after visiting the nodes `ns` in order, at tree level `level`. */
  function WalkForest(ns: seq<Node>, level: nat, path: seq<string>, st: Layout): (r: Layout)
    requires level <= |st.headers|
    ensures |r.headers| >= |st.headers| && |r.flat| >= |st.flat|
    decreases ns, 0
  {
    if ns == [] then st
    else WalkNode(ns[|ns| - 1], level, path, WalkForest(ns[..|ns| - 1], level, path, st))
  }

  /** The layout after visiting one node: list it if it is a resource, then, if it has
      children, make sure header row `level` exists and visit them as a group. */
  function WalkNode(n: Node, level: nat, path: seq<string>, st: Layout): (r: Layout)
    requires level <= |st.headers|
    ensures |r.headers| >= |st.headers| && |r.flat| >= |st.flat|
    decreases n, 0
  {
    var listed := if IsResource(n) then st.(flat := st.flat + [FlatResource(n, path)]) else st;
    match n.children
    case Absent => listed
    case Present(cs) =>
      var withRow := if level < |listed.headers| then listed else listed.(headers := listed.headers + [[]]);
      WalkGroup(n.name, cs, level, path + [n.name], withRow)
  }

  /** A grouping node's children, walked one level down, followed by the group's header in
      row `level` when they added at least one column. */
  function WalkGroup(name: string, cs: seq<Node>, level: nat, path: seq<string>, st: Layout): (r: Layout)
    requires level < |st.headers|
    ensures |r.headers| >= |st.headers| && |r.flat| >= |st.flat|
    decreases cs, 1
  {
    var start := |st.flat|;
    var walked := WalkForest(cs, level + 1, path, st);
    var end := |walked.flat|;
    if end > start then
      walked.(headers := walked.headers[level := walked.headers[level] + [Header(name, level, start, end - start)]])
    else walked
  }

  /** `flattenHierarchy(nodes, level, parentPath)`; `undefined` visits nothing. */
  function Walk(nodes: Children, level: nat, path: seq<string>, st: Layout): (r: Layout)
    requires level <= |st.headers|
    ensures |r.headers| >= |st.headers| && |r.flat| >= |st.flat|
  {
    match nodes
    case Absent => st
    case Present(ns) => WalkForest(ns, level, path, st)
  }

  // ---------------------------------------------------------------- reference: pre-order resources

  /** The resources of a forest in depth-first, pre-order, left-to-right order, each
      paired with the names of its ancestors. */
  function Resources(ns: seq<Node>, path: seq<string>): seq<FlatResource>
    decreases ns
  {
    if ns == [] then []
    else Resources(ns[..|ns| - 1], path) + NodeResources(ns[|ns| - 1], path)
  }

  /** A node's own column (when it is a resource) comes before its descendants'. */
  function NodeResources(n: Node, path: seq<string>): seq<FlatResource>
    decreases n
  {
    (if IsResource(n) then [FlatResource(n, path)] else [])
    + match n.children
      case Absent => []
      case Present(cs) => Resources(cs, path + [n.name])
  }

  function ChildrenResources(nodes: Children, path: seq<string>): seq<FlatResource> {
    match nodes
    case Absent => []
    case Present(ns) => Resources(ns, path)
  }

  /** The walk appends exactly the pre-order resources to the flat list. */
  lemma {:induction false} WalkForestFlat(ns: seq<Node>, level: nat, path: seq<string>, st: Layout)
    requires level <= |st.headers|
    ensures WalkForest(ns, level, path, st).flat == st.flat + Resources(ns, path)
    decreases ns
  {
    if ns != [] {
      var front, last := ns[..|ns| - 1], ns[|ns| - 1];
      WalkForestFlat(front, level, path, st);
      WalkNodeFlat(last, level, path, WalkForest(front, level, path, st));
    }
  }

  lemma {:induction false} WalkNodeFlat(n: Node, level: nat, path: seq<string>, st: Layout)
    requires level <= |st.headers|
    ensures WalkNode(n, level, path, st).flat == st.flat + NodeResources(n, path)
    decreases n
  {
    var listed := if IsResource(n) then st.(flat := st.flat + [FlatResource(n, path)]) else st;
    match n.children
    case Absent =>
    case Present(cs) =>
      var withRow := if level < |listed.headers| then listed else listed.(headers := listed.headers + [[]]);
      WalkForestFlat(cs, level + 1, path + [n.name], withRow);
  }

  /** `flattenHierarchy` lists exactly the resources of the tree, in pre-order, each with
      its ancestors' names as its path. */
  lemma WalkFlat(nodes: Children, level: nat, path: seq<string>, st: Layout)
    requires level <= |st.headers|
    ensures Walk(nodes, level, path, st).flat == st.flat + ChildrenResources(nodes, path)
  {
    match nodes
    case Absent =>
    case Present(ns) => WalkForestFlat(ns, level, path, st);
  }

  // ---------------------------------------------------------------- header rows

  /** The walk at `level` never touches the header rows above it. */
  lemma {:induction false} WalkForestFrame(ns: seq<Node>, level: nat, path: seq<string>, st: Layout)
    requires level <= |st.headers|
    ensures var r := WalkForest(ns, level, path, st);
      forall l :: 0 <= l < level ==> r.headers[l] == st.headers[l]
    decreases ns
  {
    if ns != [] {
      var front, last := ns[..|ns| - 1], ns[|ns| - 1];
      WalkForestFrame(front, level, path, st);
      WalkNodeFrame(last, level, path, WalkForest(front, level, path, st));
    }
  }

  lemma {:induction false} WalkNodeFrame(n: Node, level: nat, path: seq<string>, st: Layout)
    requires level <= |st.headers|
    ensures var r := WalkNode(n, level, path, st);
      forall l :: 0 <= l < level ==> r.headers[l] == st.headers[l]
    decreases n
  {
    var listed := if IsResource(n) then st.(flat := st.flat + [FlatResource(n, path)]) else st;
    match n.children
    case Absent =>
    case Present(cs) =>
      var withRow := if level < |listed.headers| then listed else listed.(headers := listed.headers + [[]]);
      assert forall l :: 0 <= l < level ==> withRow.headers[l] == st.headers[l];
      WalkForestFrame(cs, level + 1, path + [n.name], withRow);
  }

  /** Every header sits in the row of its level, spans at least one column and lies
      inside the flat list; within a row the spans are disjoint and in increasing order. */
  ghost predicate HeadersWellFormed(l: Layout) {
    && (forall lv, k :: 0 <= lv < |l.headers| && 0 <= k < |l.headers[lv]| ==>
          l.headers[lv][k].level == lv && l.headers[lv][k].colSpan > 0
          && l.headers[lv][k].startIndex + l.headers[lv][k].colSpan <= |l.flat|)
    && (forall lv, j, k :: 0 <= lv < |l.headers| && 0 <= j < k < |l.headers[lv]| ==>
          l.headers[lv][j].startIndex + l.headers[lv][j].colSpan <= l.headers[lv][k].startIndex)
  }

  /** Appending a header that starts at or after every column listed so far keeps the
      rows well formed. */
  lemma AppendHeaderWellFormed(l: Layout, lv: nat, h: Header, before: nat)
    requires HeadersWellFormed(l) && lv < |l.headers|
    requires forall k :: 0 <= k < |l.headers[lv]| ==>
      l.headers[lv][k].startIndex + l.headers[lv][k].colSpan <= before
    requires h.level == lv && h.colSpan > 0 && before <= h.startIndex && h.startIndex + h.colSpan <= |l.flat|
    ensures HeadersWellFormed(l.(headers := l.headers[lv := l.headers[lv] + [h]]))
  {
    var r := l.(headers := l.headers[lv := l.headers[lv] + [h]]);
    forall x, k | 0 <= x < |r.headers| && 0 <= k < |r.headers[x]|
      ensures r.headers[x][k].level == x && r.headers[x][k].colSpan > 0
      ensures r.headers[x][k].startIndex + r.headers[x][k].colSpan <= |r.flat|
    {
      if x != lv || k < |l.headers[lv]| {
        assert r.headers[x][k] == l.headers[x][k];
      }
    }
    forall x, j, k | 0 <= x < |r.headers| && 0 <= j < k < |r.headers[x]|
      ensures r.headers[x][j].startIndex + r.headers[x][j].colSpan <= r.headers[x][k].startIndex
    {
      if x != lv || k < |l.headers[lv]| {
        assert r.headers[x][k] == l.headers[x][k];
        assert r.headers[x][j] == l.headers[x][j];
      } else {
        assert r.headers[x][j] == l.headers[x][j];
      }
    }
  }

  /** Growing the flat list keeps the header rows well formed. */
  lemma ListWellFormed(l: Layout, extra: seq<FlatResource>)
    requires HeadersWellFormed(l)
    ensures HeadersWellFormed(l.(flat := l.flat + extra))
  {
  }

  /** Opening an empty header row keeps the rows well formed. */
  lemma OpenRowWellFormed(l: Layout)
    requires HeadersWellFormed(l)
    ensures HeadersWellFormed(l.(headers := l.headers + [[]]))
  {
    var r := l.(headers := l.headers + [[]]);
    assert forall x :: 0 <= x < |l.headers| ==> r.headers[x] == l.headers[x];
  }

  lemma {:induction false} WalkForestWellFormed(ns: seq<Node>, level: nat, path: seq<string>, st: Layout)
    requires level <= |st.headers| && HeadersWellFormed(st)
    ensures HeadersWellFormed(WalkForest(ns, level, path, st))
    decreases ns, 0
  {
    if ns != [] {
      var front, last := ns[..|ns| - 1], ns[|ns| - 1];
      WalkForestWellFormed(front, level, path, st);
      WalkNodeWellFormed(last, level, path, WalkForest(front, level, path, st));
    }
  }

  lemma {:induction false} WalkNodeWellFormed(n: Node, level: nat, path: seq<string>, st: Layout)
    requires level <= |st.headers| && HeadersWellFormed(st)
    ensures HeadersWellFormed(WalkNode(n, level, path, st))
    decreases n, 0
  {
    var listed := if IsResource(n) then st.(flat := st.flat + [FlatResource(n, path)]) else st;
    assert HeadersWellFormed(listed) by {
      if IsResource(n) { ListWellFormed(st, [FlatResource(n, path)]); }
    }
    match n.children
    case Absent =>
    case Present(cs) =>
      var withRow := if level < |listed.headers| then listed else listed.(headers := listed.headers + [[]]);
      assert HeadersWellFormed(withRow) by {
        if level == |listed.headers| { OpenRowWellFormed(listed); }
      }
      GroupWellFormed(n.name, cs, level, path + [n.name], withRow);
  }

  /** Walking a grouping node's children and recording its header keeps the rows well formed. */
  lemma GroupWellFormed(name: string, cs: seq<Node>, level: nat, path: seq<string>, withRow: Layout)
    requires level < |withRow.headers| && HeadersWellFormed(withRow)
    ensures HeadersWellFormed(WalkGroup(name, cs, level, path, withRow))
    decreases cs, 1
  {
    var start := |withRow.flat|;
    var walked := WalkForest(cs, level + 1, path, withRow);
    WalkForestWellFormed(cs, level + 1, path, withRow);
    if |walked.flat| > start {
      var h := Header(name, level, start, |walked.flat| - start);
      WalkForestFrame(cs, level + 1, path, withRow);
      assert walked.headers[level] == withRow.headers[level];
      AppendHeaderWellFormed(walked, level, h, start);
      assert WalkGroup(name, cs, level, path, withRow) == walked.(headers := walked.headers[level := walked.headers[level] + [h]]);
    } else {
      assert WalkGroup(name, cs, level, path, withRow) == walked;
    }
  }

  /** What visiting a grouping node records: row `level` exists afterwards (even when the
      subtree adds no column); the node's own column, if it is a resource, comes first and
      is outside its span; and a header is appended to row `level` exactly when the
      children add columns, spanning precisely the columns of their resources. */
  lemma NodeHeader(n: Node, level: nat, path: seq<string>, st: Layout)
    requires level <= |st.headers| && n.children.Present?
    ensures var r := WalkNode(n, level, path, st);
      var row := if level < |st.headers| then st.headers[level] else [];
      var own := if IsResource(n) then 1 else 0;
      var start := |st.flat| + own;
      var below := Resources(n.children.nodes, path + [n.name]);
      && level < |r.headers|
      && (IsResource(n) ==> r.flat[|st.flat|] == FlatResource(n, path))
      && r.flat[start..] == below
      && r.headers[level] == row + (if below != [] then [Header(n.name, level, start, |below|)] else [])
  {
    var cs := n.children.nodes;
    var listed := if IsResource(n) then st.(flat := st.flat + [FlatResource(n, path)]) else st;
    var withRow := if level < |listed.headers| then listed else listed.(headers := listed.headers + [[]]);
    GroupHeader(n.name, cs, level, path + [n.name], withRow);
    assert withRow.headers[level] == (if level < |st.headers| then st.headers[level] else []);
    assert |withRow.flat| == |st.flat| + (if IsResource(n) then 1 else 0);
  }

  /** A group appends its children's resources and, when there are any, one header
      spanning exactly them to row `level`. */
  lemma GroupHeader(name: string, cs: seq<Node>, level: nat, path: seq<string>, st: Layout)
    requires level < |st.headers|
    ensures var r := WalkGroup(name, cs, level, path, st);
      var below := Resources(cs, path);
      && level < |r.headers|
      && r.flat == st.flat + below
      && r.headers[level] == st.headers[level] + (if below != [] then [Header(name, level, |st.flat|, |below|)] else [])
  {
    WalkForestFlat(cs, level + 1, path, st);
    WalkForestFrame(cs, level + 1, path, st);
  }

  // ---------------------------------------------------------------- the walk, in place

  /** Visiting one more node of a forest. */
  lemma ForestStep(ns: seq<Node>, i: nat, level: nat, path: seq<string>, st: Layout)
    requires i < |ns| && level <= |st.headers|
    ensures WalkForest(ns[..i + 1], level, path, st) == WalkNode(ns[i], level, path, WalkForest(ns[..i], level, path, st))
  {
    assert ns[..i + 1][..i] == ns[..i];
  }

  /** Visiting a node: list it, then open its row and visit its children as a group. */
  lemma NodeStep(n: Node, level: nat, path: seq<string>, st: Layout)
    requires level <= |st.headers|
    ensures var listed := if IsResource(n) then st.(flat := st.flat + [FlatResource(n, path)]) else st;
      var withRow := if level < |listed.headers| then listed else listed.(headers := listed.headers + [[]]);
      WalkNode(n, level, path, st) == if n.children.Absent? then listed else WalkGroup(n.name, n.children.nodes, level, path + [n.name], withRow)
  {
  }

  /** A group, given the layout its children's walk leaves. */
  lemma GroupStep(name: string, cs: seq<Node>, level: nat, path: seq<string>, st: Layout, walked: Layout)
    requires level < |st.headers|
    requires walked == Walk(Present(cs), level + 1, path, st)
    ensures level < |walked.headers|
    ensures WalkGroup(name, cs, level, path, st) ==
      if |walked.flat| > |st.flat| then walked.(headers := walked.headers[level := walked.headers[level] + [Header(name, level, |st.flat|, |walked.flat| - |st.flat|)]])
      else walked
  {
  }

  /** The preprocessing state: the two arrays `flattenHierarchy` pushes into. */
  class Preprocessor {
    var flatResources: seq<FlatResource>
    var headers: seq<seq<Header>>

    /** `const flatResources = []; const headers = [];` */
    constructor()
      ensures flatResources == [] && headers == []
    {
      flatResources := [];
      headers := [];
    }

    /** `flattenHierarchy(nodes, level, parentPath)` */
    method FlattenHierarchy(nodes: Children, level: nat, parentPath: seq<string>)
      requires level <= |headers|
      modifies this
      ensures Layout(flatResources, headers) == Walk(nodes, level, parentPath, old(Layout(flatResources, headers)))
      decreases nodes
    {
      if nodes.Absent? {
        return;
      }
      var ns := nodes.nodes;
      ghost var st0 := Layout(flatResources, headers);
      for i := 0 to |ns|
        invariant Layout(flatResources, headers) == WalkForest(ns[..i], level, parentPath, st0)
      {
        var node := ns[i];
        assert node in ns;
        ghost var before := Layout(flatResources, headers);
        ForestStep(ns, i, level, parentPath, st0);
        var currentPath := parentPath + [node.name];
        if IsResource(node) {
          flatResources := flatResources + [FlatResource(node, parentPath)];
        }
        if node.children.Present? {
          if level == |headers| {
            headers := headers + [[]];
          }
          ghost var withRow := Layout(flatResources, headers);
          var startIndex := |flatResources|;
          FlattenHierarchy(node.children, level + 1, currentPath);
          GroupStep(node.name, node.children.nodes, level, currentPath, withRow, Layout(flatResources, headers));
          var endIndex := |flatResources|;
          if endIndex > startIndex {
            headers := headers[level := headers[level] + [Header(node.name, level, startIndex, endIndex - startIndex)]];
          }
          assert Layout(flatResources, headers) == WalkGroup(node.name, node.children.nodes, level, currentPath, withRow);
        }
        NodeStep(node, level, parentPath, before);
      }
      assert ns[..|ns|] == ns;
    }
  }

  /** `flattenHierarchy(data.topics, 0, [])` on fresh arrays: both arrays are the walk of
      the whole tree from empty ones, so every header is the one `NodeHeader` describes;
      the columns are the tree's resources in pre-order and the header rows are well
      formed. */
  method Preprocess(topics: Children) returns (p: Preprocessor)
    ensures fresh(p)
    ensures Layout(p.flatResources, p.headers) == Walk(topics, 0, [], Layout([], []))
    ensures p.flatResources == ChildrenResources(topics, [])
    ensures HeadersWellFormed(Layout(p.flatResources, p.headers))
  {
    p := new Preprocessor();
    p.FlattenHierarchy(topics, 0, []);
    WalkFlat(topics, 0, [], Layout([], []));
    if topics.Present? {
      WalkForestWellFormed(topics.nodes, 0, [], Layout([], []));
    }
  }
}
