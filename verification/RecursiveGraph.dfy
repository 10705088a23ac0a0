/** The recursive artifact graph of an explicit recursive extraction (src/main.cpp:2384-2417, 598, 607-647). */
module RecursiveGraph {
  import opened Common
  import opened ArtifactGraph

  datatype Item = Item(path: string, parent: string, relation: string, depth: nat, root: bool)

  /** One analysed node: what its report contributes to the graph. `budgetNotes` counts exhausted extractors. */
  datatype Node = Node(sha256: string, budgetNotes: nat, extractable: bool, children: seq<(string, string)>)

  datatype Report = Report(item: Item, node: Node)

  /** `analyze` gets the path, the report number, whether extraction is on, and the byte and file allowance. */
  datatype NodeWorld = NodeWorld(analyze: (string, nat, bool, u64, nat) -> Node, probe: (string, nat) -> Probe)

  // What has been queued.

  function AdmittedEdges(es: seq<Edge>): seq<Edge> {
    if es == [] then []
    else AdmittedEdges(es[..|es| - 1]) + (if es[|es| - 1].state == Admitted then [es[|es| - 1]] else [])
  }

  /** The bytes of the admitted children. */
  function AdmittedSizes(es: seq<Edge>): nat {
    if es == [] then 0 else AdmittedSizes(es[..|es| - 1]) + (if es[|es| - 1].state == Admitted then es[|es| - 1].size else 0)
  }

  function RootItem(path: string): Item { Item(path, "", "input", 0, true) }

  function ChildItem(e: Edge): Item { Item(e.child, e.parent, e.relation, e.depth, false) }

  function Roots(files: seq<string>): (r: seq<Item>)
    ensures |r| == |files|
  {
    seq(|files|, i requires 0 <= i < |files| => RootItem(files[i]))
  }

  function Children(es: seq<Edge>): (r: seq<Item>)
    ensures |r| == |es|
  {
    seq(|es|, i requires 0 <= i < |es| => ChildItem(es[i]))
  }

  /** Everything that is ever queued: the roots, then the admitted children in admission order. */
  ghost function Items(files: seq<string>, es: seq<Edge>): (r: seq<Item>)
    ensures |r| == |files| + |AdmittedEdges(es)|
  {
    Roots(files) + Children(AdmittedEdges(es))
  }

  ghost function Visited(reports: seq<Report>): (r: seq<Item>)
    ensures |r| == |reports|
  {
    seq(|reports|, i requires 0 <= i < |reports| => reports[i].item)
  }

  // What is known.

  /** The digest belongs to a report or to an admitted child. */
  ghost predicate Digested(reports: seq<Report>, es: seq<Edge>, s: string) {
    s != "" && ((exists r :: r in reports && r.node.sha256 == s) || exists e :: e in es && e.state == Admitted && e.sha256 == s)
  }

  /** The path is that of a report or of an admitted child with the digest. */
  ghost predicate Names(reports: seq<Report>, es: seq<Edge>, s: string, path: string) {
    (exists r :: r in reports && r.node.sha256 == s && r.item.path == path) ||
    exists e :: e in es && e.state == Admitted && e.sha256 == s && e.child == path
  }

  ghost predicate Knows(first: map<string, string>, reports: seq<Report>, es: seq<Edge>) {
    (forall s :: s in first <==> Digested(reports, es, s)) && forall s :: s in first ==> Names(reports, es, s, first[s])
  }

  // Why an edge is what it is.

  /** The edge e, offered by the last report after the edges es: the first rule that applies, in the order of the
      code. `roots` is the number of inputs, so the nodes so far are these and the admitted children. */
  ghost predicate Ruled(world: NodeWorld, lim: Limits, roots: nat, reports: seq<Report>, es: seq<Edge>, e: Edge)
    requires reports != []
  {
    var cur, p := reports[|reports| - 1].item, world.probe(e.child, |es|);
    e.parent == cur.path && e.depth == cur.depth + 1 && e.size == ProbedSize(p) && e.sha256 == ProbedSha(p) &&
    e.state == (
      if e.sha256 == "" then SkippedUnsafe
      else if Min(HashedBytes(es + [e]), U64_MAX) > lim.maxTotalBytes then SkippedByteLimit
      else if Digested(reports, es, e.sha256) then DuplicateSkipped
      else if e.depth > lim.maxDepth then SkippedDepth
      else if roots + |AdmittedEdges(es)| >= lim.maxNodes then SkippedNodeLimit
      else Admitted) &&
    (e.state == DuplicateSkipped ==> Names(reports, es, e.sha256, e.duplicateOf))
  }

  /** The last report offers its children, in order, as the edges from n on. */
  ghost predicate Offers(world: NodeWorld, lim: Limits, roots: nat, reports: seq<Report>, es: seq<Edge>, n: nat, k: nat)
    requires reports != []
  {
    var children := reports[|reports| - 1].node.children;
    n <= k <= |es| && k - n <= |children| &&
    forall j :: n <= j < k ==> es[j].child == children[j - n].0 && es[j].relation == children[j - n].1 &&
                               Ruled(world, lim, roots, reports, es[..j], es[j])
  }

  function BytesLeft(lim: Limits, hashed: nat): u64 {
    if Min(hashed, U64_MAX) < lim.maxTotalBytes then lim.maxTotalBytes - Min(hashed, U64_MAX) else 0
  }

  /** The last report is what the world answered within the allowance left after the edges es. */
  ghost predicate Analysed(world: NodeWorld, lim: Limits, roots: nat, reports: seq<Report>, es: seq<Edge>)
    requires reports != []
  {
    var r, nodes := reports[|reports| - 1], roots + |AdmittedEdges(es)|;
    nodes <= lim.maxNodes &&
    r.node == world.analyze(r.item.path, |reports| - 1, r.item.depth < lim.maxDepth, BytesLeft(lim, HashedBytes(es)), lim.maxNodes - nodes)
  }

  /** The reports are the world's answers, and the edges are their children, each decided by the rules. */
  ghost predicate Traced(world: NodeWorld, lim: Limits, roots: nat, reports: seq<Report>, es: seq<Edge>)
    decreases |reports|
  {
    if reports == [] then es == []
    else
      var before, m := reports[..|reports| - 1], |reports[|reports| - 1].node.children|;
      m <= |es| && Traced(world, lim, roots, before, es[..|es| - m]) &&
      Analysed(world, lim, roots, reports, es[..|es| - m]) && Offers(world, lim, roots, reports, es, |es| - m, |es|)
  }

  /** A whole run: every queued item is reported once, in order, and every edge is accounted for. */
  ghost predicate Explored(world: NodeWorld, lim: Limits, started: seq<string>, reports: seq<Report>, es: seq<Edge>) {
    Visited(reports) == Items(started, es) && Traced(world, lim, |started|, reports, es)
  }

  /** Admitted children are within the depth limit and no digest is admitted twice. */
  ghost predicate UniqueAdmissions(lim: Limits, es: seq<Edge>) {
    (forall k :: 0 <= k < |es| && es[k].state == Admitted ==> es[k].sha256 != "" && es[k].depth <= lim.maxDepth) &&
    (forall j, k :: 0 <= j < k < |es| && es[j].state == Admitted && es[k].state == Admitted ==> es[j].sha256 != es[k].sha256)
  }

  // Accounts.

  predicate Classified(e: Edge) {
    e.state == Admitted || e.state == SkippedUnsafe || e.state == DuplicateSkipped || LimitSkip(e.state)
  }

  /** The counters that depend on the edges alone, and the byte limit on what was admitted. */
  ghost predicate RecursiveAccounts(g: Graph) {
    g.deduplicated == Count(g.edges, DuplicateSkipped) % U32_LIMIT &&
    g.skippedUnsafe == Count(g.edges, SkippedUnsafe) % U32_LIMIT &&
    g.materializedFiles == Hashes(g.edges) % U32_LIMIT &&
    g.materializedBytes == Min(HashedBytes(g.edges), U64_MAX) &&
    g.admittedBytes == Min(AdmittedSizes(g.edges), U64_MAX) <= g.limits.maxTotalBytes &&
    AdmittedSizes(g.edges) <= HashedBytes(g.edges) &&
    forall e :: e in g.edges ==> Classified(e)
  }

  /** Limit notes of one analysed node: exhausted extractors, and extraction cut off at the depth limit. */
  function Notes(lim: Limits, node: Node, depth: nat): nat {
    node.budgetNotes + (if depth >= lim.maxDepth && node.extractable then 1 else 0)
  }

  function AllNotes(lim: Limits, reports: seq<Report>): nat {
    if reports == [] then 0
    else
      var r := reports[|reports| - 1];
      AllNotes(lim, reports[..|reports| - 1]) + Notes(lim, r.node, r.item.depth)
  }

  function Cuts(es: seq<Edge>): nat {
    if es == [] then 0 else Cuts(es[..|es| - 1]) + (if LimitSkip(es[|es| - 1].state) then 1 else 0)
  }

  /** Inputs beyond the node limit, a 32-bit count that saturates. */
  function Omitted(lim: Limits, inputs: nat): u32 { if inputs > lim.maxNodes then Min(inputs - lim.maxNodes, U32_LIMIT - 1) else 0 }

  /** Everything that was left out for a limit is counted, and the graph says so. */
  ghost predicate CutsCounted(g: Graph, inputs: nat, reports: seq<Report>) {
    var cuts := Omitted(g.limits, inputs) + AllNotes(g.limits, reports) + Cuts(g.edges);
    g.skippedLimits == cuts % U32_LIMIT && (g.truncated <==> cuts > 0)
  }

  // What was left out, on the fields of the inputs, reports and edges.

  /** A container whose extraction the depth limit cut off. */
  ghost predicate CutOff(lim: Limits, r: Report) { r.item.depth >= lim.maxDepth && r.node.extractable }

  ghost predicate SkippedForLimit(e: Edge) {
    e.state == SkippedDepth || e.state == SkippedByteLimit || e.state == SkippedNodeLimit
  }

  /** Something was left out: an input, the output of an extractor, a container at the depth limit, or a child. */
  ghost predicate SomethingLeftOut(lim: Limits, inputs: nat, reports: seq<Report>, es: seq<Edge>) {
    inputs > lim.maxNodes || (exists r :: r in reports && r.node.budgetNotes > 0) ||
    (exists r :: r in reports && CutOff(lim, r)) || exists e :: e in es && SkippedForLimit(e)
  }

  ghost function ExtractorNotes(reports: seq<Report>): nat {
    if reports == [] then 0 else ExtractorNotes(reports[..|reports| - 1]) + reports[|reports| - 1].node.budgetNotes
  }

  ghost function CutOffs(lim: Limits, reports: seq<Report>): set<nat> { set i: nat | i < |reports| && CutOff(lim, reports[i]) }

  ghost function LimitSkips(es: seq<Edge>): set<nat> { set k: nat | k < |es| && SkippedForLimit(es[k]) }

  /** How much was left out; the inputs are counted up to 2^32 - 1. */
  ghost function LeftOut(lim: Limits, inputs: nat, reports: seq<Report>, es: seq<Edge>): nat {
    Min(Max(0, inputs - lim.maxNodes), 0xFFFF_FFFF) + ExtractorNotes(reports) + |CutOffs(lim, reports)| + |LimitSkips(es)|
  }

  lemma {:induction false} NotesAre(lim: Limits, reports: seq<Report>)
    ensures AllNotes(lim, reports) == ExtractorNotes(reports) + |CutOffs(lim, reports)|
    ensures AllNotes(lim, reports) > 0 <==>
              (exists r :: r in reports && r.node.budgetNotes > 0) || exists r :: r in reports && CutOff(lim, r)
  {
    if reports != [] {
      var n := |reports| - 1;
      NotesOfOne(lim, reports[n]);
      hide CutOff, Notes;
      NotesAre(lim, reports[..n]);
      assert forall r :: r in reports <==> r in reports[..n] || r == reports[n];
      assert CutOffs(lim, reports) == CutOffs(lim, reports[..n]) + (if CutOff(lim, reports[n]) then {n} else {});
    }
  }

  lemma NotesOfOne(lim: Limits, r: Report)
    ensures Notes(lim, r.node, r.item.depth) == r.node.budgetNotes + (if CutOff(lim, r) then 1 else 0)
  {
  }

  lemma {:induction false} CutsAre(es: seq<Edge>)
    ensures Cuts(es) == |LimitSkips(es)|
    ensures Cuts(es) > 0 <==> exists e :: e in es && SkippedForLimit(e)
  {
    if es != [] {
      var n := |es| - 1;
      CutsAre(es[..n]);
      assert es == es[..n] + [es[n]];
      assert LimitSkips(es) == LimitSkips(es[..n]) + (if SkippedForLimit(es[n]) then {n} else {});
    }
  }

  /** The counter and the flag of a run say exactly how much was left out, and whether anything was. */
  lemma LeftOutIsCounted(g: Graph, inputs: nat, reports: seq<Report>)
    requires CutsCounted(g, inputs, reports)
    ensures g.skippedLimits == LeftOut(g.limits, inputs, reports, g.edges) % 0x1_0000_0000
    ensures g.truncated <==> SomethingLeftOut(g.limits, inputs, reports, g.edges)
  {
    hide AllNotes, Cuts, ExtractorNotes, CutOffs, LimitSkips, CutOff, SkippedForLimit;
    NotesAre(g.limits, reports);
    CutsAre(g.edges);
  }

  // The loop.

  /** One extracted child: probe it and decide whether it joins the queue. `occupied` counts reports, the
      current node and the queue. */
  method OfferChild(path: string, relation: string, cur: Item, world: NodeWorld, g: Graph, first: map<string, string>, occupied: nat)
    returns (h: Graph, known: map<string, string>, e: Edge)
    requires RecursiveAccounts(g)
    ensures h.edges == g.edges + [e] && h.limits == g.limits && h.nodes == g.nodes && RecursiveAccounts(h)
    ensures e.child == path && e.parent == cur.path && e.relation == relation && e.depth == cur.depth + 1
    ensures e.size == ProbedSize(world.probe(path, |g.edges|)) && e.sha256 == ProbedSha(world.probe(path, |g.edges|))
    ensures e.state == (
      if e.sha256 == "" then SkippedUnsafe
      else if Min(HashedBytes(g.edges + [e]), U64_MAX) > g.limits.maxTotalBytes then SkippedByteLimit
      else if e.sha256 in first then DuplicateSkipped
      else if e.depth > g.limits.maxDepth then SkippedDepth
      else if occupied >= g.limits.maxNodes then SkippedNodeLimit
      else Admitted)
    ensures e.state == DuplicateSkipped ==> e.duplicateOf == first[e.sha256]
    ensures known == if e.state == Admitted then first[e.sha256 := path] else first
    ensures h.skippedLimits == if LimitSkip(e.state) then Inc32(g.skippedLimits) else g.skippedLimits
    ensures h.truncated == (g.truncated || LimitSkip(e.state))
  {
    hide RecursiveAccounts, Inc32, HashedBytes;
    e := Edge(cur.path, path, "", relation, "", SkippedUnsafe, 0, cur.depth + 1);
    match world.probe(path, |g.edges|) {
      case NotRegular =>
      case Unsized => e := e.(size := U64_MAX);
      case Regular(size, sha256) => e := e.(size := size, sha256 := sha256);
    }
    h, known := g, first;
    Materialized(g, e);
    if e.sha256 == "" {
      h := h.(skippedUnsafe := Inc32(h.skippedUnsafe));
    } else {
      h := h.(materializedBytes := SatAdd(h.materializedBytes, e.size), materializedFiles := Inc32(h.materializedFiles));
      if h.materializedBytes > h.limits.maxTotalBytes {
        e := e.(state := SkippedByteLimit);
        h := h.(truncated := true, skippedLimits := Inc32(h.skippedLimits));
      } else if e.sha256 in first {
        e := e.(state := DuplicateSkipped, duplicateOf := first[e.sha256]);
        h := h.(deduplicated := Inc32(h.deduplicated));
      } else if e.depth > h.limits.maxDepth {
        e := e.(state := SkippedDepth);
        h := h.(truncated := true, skippedLimits := Inc32(h.skippedLimits));
      } else if occupied >= h.limits.maxNodes {
        e := e.(state := SkippedNodeLimit);
        h := h.(truncated := true, skippedLimits := Inc32(h.skippedLimits));
      } else {
        known := first[e.sha256 := path];
        e := e.(state := Admitted);
        h := h.(admittedBytes := SatAdd(h.admittedBytes, e.size));
      }
    }
    h := h.(edges := h.edges + [e]);
    Materialized(g, e);
    AccountsGrow(g, h, e);
  }

  lemma Materialized(g: Graph, e: Edge)
    requires RecursiveAccounts(g)
    ensures e.sha256 != "" ==> SatAdd(g.materializedBytes, e.size) == Min(HashedBytes(g.edges + [e]), U64_MAX)
  {
    hide Count, Hashes, HashedBytes, AdmittedSizes;
    CountsGrow(g.edges, e);
  }

  lemma SizesGrow(es: seq<Edge>, e: Edge)
    ensures AdmittedSizes(es + [e]) == AdmittedSizes(es) + (if e.state == Admitted then e.size else 0)
    ensures AdmittedEdges(es + [e]) == AdmittedEdges(es) + (if e.state == Admitted then [e] else [])
    ensures Cuts(es + [e]) == Cuts(es) + (if LimitSkip(e.state) then 1 else 0)
  {
    assert (es + [e])[..|es|] == es;
  }

  lemma AccountsGrow(g: Graph, h: Graph, e: Edge)
    requires RecursiveAccounts(g) && Classified(e) && h.limits == g.limits && h.edges == g.edges + [e]
    requires h.deduplicated == if e.state == DuplicateSkipped then Inc32(g.deduplicated) else g.deduplicated
    requires h.skippedUnsafe == if e.state == SkippedUnsafe then Inc32(g.skippedUnsafe) else g.skippedUnsafe
    requires h.materializedFiles == if e.sha256 != "" then Inc32(g.materializedFiles) else g.materializedFiles
    requires h.materializedBytes == if e.sha256 != "" then SatAdd(g.materializedBytes, e.size) else g.materializedBytes
    requires h.admittedBytes == if e.state == Admitted then SatAdd(g.admittedBytes, e.size) else g.admittedBytes
    requires e.state == Admitted ==> e.sha256 != "" && h.materializedBytes <= h.limits.maxTotalBytes
    ensures RecursiveAccounts(h)
  {
    hide Count, Hashes, HashedBytes, Inc32, AdmittedSizes, AdmittedEdges, Classified, SatAdd;
    CountsGrow(g.edges, e);
    SizesGrow(g.edges, e);
    IncrementWraps(Count(g.edges, DuplicateSkipped));
    IncrementWraps(Count(g.edges, SkippedUnsafe));
    IncrementWraps(Hashes(g.edges));
    ClassifiedGrows(g.edges, e);
  }

  lemma ClassifiedGrows(es: seq<Edge>, e: Edge)
    requires Classified(e) && forall x :: x in es ==> Classified(x)
    ensures forall x :: x in es + [e] ==> Classified(x)
  {
  }

  lemma ItemsGrow(files: seq<string>, es: seq<Edge>, e: Edge)
    ensures Items(files, es + [e]) == Items(files, es) + (if e.state == Admitted then [ChildItem(e)] else [])
  {
    hide AdmittedEdges;
    SizesGrow(es, e);
    var before, after := AdmittedEdges(es), AdmittedEdges(es + [e]);
    assert Children(after) == Children(before) + (if e.state == Admitted then [ChildItem(e)] else []);
  }

  lemma KnowsChild(first: map<string, string>, known: map<string, string>, reports: seq<Report>, es: seq<Edge>, e: Edge)
    requires Knows(first, reports, es)
    requires known == if e.state == Admitted then first[e.sha256 := e.child] else first
    requires e.state == Admitted ==> e.sha256 != "" && e.sha256 !in first
    ensures Knows(known, reports, es + [e])
  {
    var more := es + [e];
    assert forall x :: x in more <==> x in es || x == e;
    forall s ensures s in known <==> Digested(reports, more, s) { assert s in first <==> Digested(reports, es, s); }
    forall s | s in known ensures Names(reports, more, s, known[s]) {
      if s in first { assert Names(reports, es, s, first[s]); }
    }
  }

  lemma KnowsReport(first: map<string, string>, known: map<string, string>, reports: seq<Report>, es: seq<Edge>, r: Report)
    requires Knows(first, reports, es)
    requires known == if r.node.sha256 != "" && r.node.sha256 !in first then first[r.node.sha256 := r.item.path] else first
    ensures Knows(known, reports + [r], es)
  {
    var more := reports + [r];
    assert forall x :: x in more <==> x in reports || x == r;
    forall s ensures s in known <==> Digested(more, es, s) { assert s in first <==> Digested(reports, es, s); }
    forall s | s in known ensures Names(more, es, s, known[s]) {
      if s in first { assert Names(reports, es, s, first[s]); }
    }
  }

  /** The decision on a child, in terms of what is known instead of the map. */
  lemma DecisionIsRuled(world: NodeWorld, lim: Limits, roots: nat, reports: seq<Report>, es: seq<Edge>, e: Edge,
                            first: map<string, string>, occupied: nat)
    requires reports != [] && Knows(first, reports, es) && occupied == roots + |AdmittedEdges(es)|
    requires var cur := reports[|reports| - 1].item; e.parent == cur.path && e.depth == cur.depth + 1
    requires e.size == ProbedSize(world.probe(e.child, |es|)) && e.sha256 == ProbedSha(world.probe(e.child, |es|))
    requires e.state == (
      if e.sha256 == "" then SkippedUnsafe
      else if Min(HashedBytes(es + [e]), U64_MAX) > lim.maxTotalBytes then SkippedByteLimit
      else if e.sha256 in first then DuplicateSkipped
      else if e.depth > lim.maxDepth then SkippedDepth
      else if occupied >= lim.maxNodes then SkippedNodeLimit
      else Admitted)
    requires e.state == DuplicateSkipped ==> e.duplicateOf == first[e.sha256]
    ensures Ruled(world, lim, roots, reports, es, e)
  {
    hide HashedBytes, AdmittedEdges, Digested, Names;
  }

  lemma OffersStart(world: NodeWorld, lim: Limits, roots: nat, reports: seq<Report>, es: seq<Edge>)
    requires reports != []
    ensures Offers(world, lim, roots, reports, es, |es|, |es|)
  {
  }

  lemma OffersMore(world: NodeWorld, lim: Limits, roots: nat, reports: seq<Report>, es: seq<Edge>, n: nat, e: Edge)
    requires reports != [] && Offers(world, lim, roots, reports, es, n, |es|)
    requires |es| - n < |reports[|reports| - 1].node.children|
    requires var c := reports[|reports| - 1].node.children[|es| - n]; e.child == c.0 && e.relation == c.1
    requires Ruled(world, lim, roots, reports, es, e)
    ensures Offers(world, lim, roots, reports, es + [e], n, |es| + 1)
  {
    hide Ruled;
    var more := es + [e];
    forall j | n <= j < |more|
      ensures more[j].child == reports[|reports| - 1].node.children[j - n].0
      ensures more[j].relation == reports[|reports| - 1].node.children[j - n].1
      ensures Ruled(world, lim, roots, reports, more[..j], more[j])
    {
      assert more[..j] == es[..j];
      assert es[..|es|] == es;
      if j < |es| { assert es[j] == more[j]; }
    }
  }

  lemma CutsGrow(g: Graph, h: Graph, inputs: nat, reports: seq<Report>, e: Edge)
    requires CutsCounted(g, inputs, reports) && h.edges == g.edges + [e] && h.limits == g.limits
    requires h.skippedLimits == if LimitSkip(e.state) then Inc32(g.skippedLimits) else g.skippedLimits
    requires h.truncated == (g.truncated || LimitSkip(e.state))
    ensures CutsCounted(h, inputs, reports)
  {
    hide AllNotes, Omitted, Inc32, Cuts, AdmittedSizes, AdmittedEdges;
    SizesGrow(g.edges, e);
    IncrementWraps(Omitted(g.limits, inputs) + AllNotes(g.limits, reports) + Cuts(g.edges));
  }

  /** Offer all children of the current node; the admitted ones join the queue in order. */
  method OfferChildren(r: Report, world: NodeWorld, g0: Graph, first0: map<string, string>, reported: nat, queue0: seq<Item>,
                       ghost started: seq<string>, ghost reports: seq<Report>, ghost inputs: nat)
    returns (g: Graph, first: map<string, string>, queue: seq<Item>)
    requires reported + 1 == |reports| && reports[reported] == r && |reports| + |queue0| <= g0.limits.maxNodes
    requires RecursiveAccounts(g0) && Knows(first0, reports, g0.edges) && CutsCounted(g0, inputs, reports)
    requires Visited(reports) + queue0 == Items(started, g0.edges)
    ensures RecursiveAccounts(g) && Knows(first, reports, g.edges) && CutsCounted(g, inputs, reports)
    ensures Visited(reports) + queue == Items(started, g.edges)
    ensures g.limits == g0.limits && g.nodes == g0.nodes && |reports| + |queue| <= g.limits.maxNodes
    ensures g0.edges <= g.edges && |g.edges| == |g0.edges| + |r.node.children|
    ensures Offers(world, g.limits, |started|, reports, g.edges, |g0.edges|, |g.edges|)
  {
    hide RecursiveAccounts, Knows, CutsCounted, Items, Visited, Offers, Ruled, HashedBytes, AdmittedEdges, Inc32;
    g, first, queue := g0, first0, queue0;
    OffersStart(world, g.limits, |started|, reports, g.edges);
    for i := 0 to |r.node.children|
      invariant RecursiveAccounts(g) && Knows(first, reports, g.edges) && CutsCounted(g, inputs, reports)
      invariant Visited(reports) + queue == Items(started, g.edges)
      invariant g.limits == g0.limits && g.nodes == g0.nodes && |reports| + |queue| <= g.limits.maxNodes
      invariant g0.edges <= g.edges && |g.edges| == |g0.edges| + i
      invariant Offers(world, g.limits, |started|, reports, g.edges, |g0.edges|, |g.edges|)
    {
      var child := r.node.children[i];
      assert |Visited(reports) + queue| == |reports| + |queue|;
      var h, known, e := OfferChild(child.0, child.1, r.item, world, g, first, reported + |queue| + 1);
      DecisionIsRuled(world, g.limits, |started|, reports, g.edges, e, first, reported + |queue| + 1);
      OffersMore(world, g.limits, |started|, reports, g.edges, |g0.edges|, e);
      KnowsChild(first, known, reports, g.edges, e);
      CutsGrow(g, h, inputs, reports, e);
      ItemsGrow(started, g.edges, e);
      g, first := h, known;
      if e.state == Admitted {
        assert (Visited(reports) + queue) + [ChildItem(e)] == Visited(reports) + (queue + [ChildItem(e)]);
        queue := queue + [Item(child.0, r.item.path, child.1, e.depth, false)];
      }
    }
  }

  /** One round of the loop: analyse the current item, book its notes, remember its digest, offer its children. */
  method AnalyzeNode(cur: Item, rest: seq<Item>, world: NodeWorld, g0: Graph, first0: map<string, string>, reported: nat,
                     ghost started: seq<string>, ghost reports: seq<Report>, ghost inputs: nat)
    returns (g: Graph, first: map<string, string>, queue: seq<Item>, r: Report)
    requires reported == |reports| && reported + 1 + |rest| <= g0.limits.maxNodes && g0.nodes == reported
    requires RecursiveAccounts(g0) && Knows(first0, reports, g0.edges) && CutsCounted(g0, inputs, reports)
    requires Visited(reports) + ([cur] + rest) == Items(started, g0.edges)
    requires Traced(world, g0.limits, |started|, reports, g0.edges)
    ensures r.item == cur && g.limits == g0.limits
    ensures RecursiveAccounts(g) && Knows(first, reports + [r], g.edges) && CutsCounted(g, inputs, reports + [r])
    ensures Visited(reports + [r]) + queue == Items(started, g.edges)
    ensures reported + 1 + |queue| <= g.limits.maxNodes && g.nodes == reported + 1
    ensures Traced(world, g.limits, |started|, reports + [r], g.edges)
  {
    hide RecursiveAccounts, Knows, CutsCounted, Items, Visited, Offers, Traced, HashedBytes, AdmittedEdges, AdmittedSizes, Notes;
    var lim := g0.limits;
    assert |Visited(reports) + ([cur] + rest)| == reported + 1 + |rest|;
    AllowanceLeft(g0);
    var bytesLeft := if g0.materializedBytes < lim.maxTotalBytes then lim.maxTotalBytes - g0.materializedBytes else 0;
    var node := world.analyze(cur.path, reported, cur.depth < lim.maxDepth, bytesLeft, lim.maxNodes - (reported + |rest| + 1));
    r := Report(cur, node);
    g := BookNode(g0, r, inputs, reports);
    first := first0;
    KnowsReport(first, if node.sha256 != "" && node.sha256 !in first then first[node.sha256 := cur.path] else first, reports, g.edges, r);
    if node.sha256 != "" && node.sha256 !in first {
      first := first[node.sha256 := cur.path];
    }
    VisitedGrows(reports, r);
    assert Visited(reports) + ([cur] + rest) == (Visited(reports) + [cur]) + rest;
    g, first, queue := OfferChildren(r, world, g, first, reported, rest, started, reports + [r], inputs);
    TracedMore(world, lim, |started|, reports, g0.edges, r, g.edges);
  }

  lemma AllowanceLeft(g: Graph)
    requires RecursiveAccounts(g)
    ensures BytesLeft(g.limits, HashedBytes(g.edges)) ==
            if g.materializedBytes < g.limits.maxTotalBytes then g.limits.maxTotalBytes - g.materializedBytes else 0
  {
  }

  lemma TracedMore(world: NodeWorld, lim: Limits, roots: nat, reports: seq<Report>, es: seq<Edge>, r: Report, more: seq<Edge>)
    requires Traced(world, lim, roots, reports, es) && Analysed(world, lim, roots, reports + [r], es)
    requires es <= more && |more| == |es| + |r.node.children|
    requires Offers(world, lim, roots, reports + [r], more, |es|, |more|)
    ensures Traced(world, lim, roots, reports + [r], more)
  {
    hide Analysed, Offers;
    assert (reports + [r])[..|reports|] == reports;
    assert more[..|more| - |r.node.children|] == es;
  }

  /** Counting the node, and noting what its analysis left out. */
  method BookNode(g: Graph, r: Report, ghost inputs: nat, ghost reports: seq<Report>) returns (h: Graph)
    requires RecursiveAccounts(g) && CutsCounted(g, inputs, reports)
    ensures h == g.(nodes := g.nodes + 1, skippedLimits := h.skippedLimits, truncated := h.truncated)
    ensures RecursiveAccounts(h) && CutsCounted(h, inputs, reports + [r])
  {
    hide CutsCounted, RecursiveAccounts;
    h := g.(nodes := g.nodes + 1);
    if r.node.budgetNotes > 0 {
      h := h.(truncated := true, skippedLimits := (h.skippedLimits + r.node.budgetNotes) % U32_LIMIT);
    }
    if r.item.depth >= h.limits.maxDepth && r.node.extractable {
      h := h.(truncated := true, skippedLimits := Inc32(h.skippedLimits));
    }
    WrapAdds(g.skippedLimits + r.node.budgetNotes, 1);
    NodeBooked(g, h, inputs, reports, r);
  }

  lemma NodeBooked(g: Graph, h: Graph, inputs: nat, reports: seq<Report>, r: Report)
    requires RecursiveAccounts(g) && CutsCounted(g, inputs, reports)
    requires h == g.(nodes := h.nodes, skippedLimits := (g.skippedLimits + Notes(g.limits, r.node, r.item.depth)) % U32_LIMIT,
                     truncated := g.truncated || Notes(g.limits, r.node, r.item.depth) > 0)
    ensures RecursiveAccounts(h) && CutsCounted(h, inputs, reports + [r])
  {
    hide Notes, Cuts, Omitted;
    assert (reports + [r])[..|reports|] == reports;
    WrapAdds(Omitted(g.limits, inputs) + AllNotes(g.limits, reports) + Cuts(g.edges), Notes(g.limits, r.node, r.item.depth));
  }

  lemma WrapAdds(a: nat, b: nat)
    ensures (a % U32_LIMIT + b) % U32_LIMIT == (a + b) % U32_LIMIT
  {
  }

  lemma VisitedGrows(reports: seq<Report>, r: Report)
    ensures Visited(reports + [r]) == Visited(reports) + [r.item]
  {
  }

  /** The work-list loop. Every queued item is analysed exactly once, in order; every extracted child has its edge;
      nodes, admitted bytes and admitted depths stay within their limits; and the loop always ends. */
  method ExploreRecursively(files: seq<string>, lim: Limits, world: NodeWorld) returns (g: Graph, reports: seq<Report>)
    ensures g.limits == lim && RecursiveAccounts(g) && CutsCounted(g, |files|, reports)
    ensures g.skippedLimits == LeftOut(lim, |files|, reports, g.edges) % 0x1_0000_0000
    ensures g.truncated <==> SomethingLeftOut(lim, |files|, reports, g.edges)
    ensures Explored(world, lim, files[..Min(|files|, lim.maxNodes)], reports, g.edges)
    ensures |reports| <= lim.maxNodes && g.nodes == |reports|
    ensures UniqueAdmissions(lim, g.edges)
    ensures lim.maxTotalBytes < U64_MAX ==> AdmittedSizes(g.edges) <= lim.maxTotalBytes
  {
    hide Items, Visited, UniqueAdmissions, Knows, Traced, CutsCounted, LeftOut, SomethingLeftOut;
    var started := files[..Min(|files|, lim.maxNodes)];
    g := Graph(lim, false, 0, 0, 0, 0, 0, 0, 0, []);
    if |files| > lim.maxNodes {
      g := g.(truncated := true, skippedLimits := Min(|files| - lim.maxNodes, U32_LIMIT - 1));
    }
    var queue := [];
    for i := 0 to |started|
      invariant queue == Roots(started[..i])
    {
      queue := queue + [Item(started[i], "", "input", 0, true)];
    }
    assert started[..|started|] == started;
    var first: map<string, string> := map[];
    reports := [];
    StartOfRun(g, started, |files|, world);
    while queue != []
      invariant g.limits == lim && RecursiveAccounts(g) && CutsCounted(g, |files|, reports)
      invariant Knows(first, reports, g.edges) && Traced(world, lim, |started|, reports, g.edges)
      invariant Visited(reports) + queue == Items(started, g.edges)
      invariant |reports| + |queue| <= lim.maxNodes && g.nodes == |reports|
      decreases lim.maxNodes - |reports|
    {
      hide RecursiveAccounts;
      var r;
      g, first, queue, r := AnalyzeNode(queue[0], queue[1..], world, g, first, |reports|, started, reports, |files|);
      reports := reports + [r];
    }
    assert Visited(reports) + [] == Visited(reports);
    AdmissionsAreUnique(world, lim, |started|, reports, g.edges);
    LeftOutIsCounted(g, |files|, reports);
  }

  lemma StartOfRun(g: Graph, started: seq<string>, inputs: nat, world: NodeWorld)
    requires g.edges == [] && g.skippedLimits == Omitted(g.limits, inputs) && (g.truncated <==> inputs > g.limits.maxNodes)
    ensures Visited([]) + Roots(started) == Items(started, [])
    ensures Knows(map[], [], []) && Traced(world, g.limits, |started|, [], []) && CutsCounted(g, inputs, [])
  {
  }

  // What every run keeps.

  /** How many children the reports offer, and so how many edges they have. */
  function Offered(reports: seq<Report>): nat {
    if reports == [] then 0 else Offered(reports[..|reports| - 1]) + |reports[|reports| - 1].node.children|
  }

  lemma {:induction false} OfferedGrows(reports: seq<Report>, m: nat)
    requires m <= |reports|
    ensures Offered(reports[..m]) <= Offered(reports)
    decreases |reports|
  {
    if m < |reports| {
      OfferedGrows(reports[..|reports| - 1], m);
      assert reports[..|reports| - 1][..m] == reports[..m];
    } else {
      assert reports[..m] == reports;
    }
  }

  /** There are as many edges as extracted children. */
  lemma {:induction false} EveryChildHasAnEdge(world: NodeWorld, lim: Limits, roots: nat, reports: seq<Report>, es: seq<Edge>)
    requires Traced(world, lim, roots, reports, es)
    ensures |es| == Offered(reports)
    decreases |reports|
  {
    hide Analysed, Offers;
    if reports != [] {
      var last := |reports| - 1;
      EveryChildHasAnEdge(world, lim, roots, reports[..last], es[..|es| - |reports[last].node.children|]);
    }
  }

  /** Every edge was offered by one report, and the rules decided it. */
  lemma {:induction false} Offerer(world: NodeWorld, lim: Limits, roots: nat, reports: seq<Report>, es: seq<Edge>, k: nat)
    returns (i: nat)
    requires Traced(world, lim, roots, reports, es) && k < |es|
    ensures i < |reports| && Ruled(world, lim, roots, reports[..i + 1], es[..k], es[k])
    ensures (es[k].child, es[k].relation) in reports[i].node.children
    ensures |es| == Offered(reports) && Offered(reports[..i]) <= k < Offered(reports[..i + 1])
    decreases |reports|
  {
    hide Ruled, Analysed;
    var last := |reports| - 1;
    var n := |es| - |reports[last].node.children|;
    if k < n {
      i := Offerer(world, lim, roots, reports[..last], es[..n], k);
      assert reports[..last][..i + 1] == reports[..i + 1] && es[..n][..k] == es[..k];
      assert reports[..last][..i] == reports[..i];
    } else {
      i := last;
      EveryChildHasAnEdge(world, lim, roots, reports[..last], es[..n]);
      assert reports[..i + 1] == reports;
      assert reports[last].node.children[k - n] == (es[k].child, es[k].relation);
    }
  }

  lemma {:induction false} AdmissionsAreUnique(world: NodeWorld, lim: Limits, roots: nat, reports: seq<Report>, es: seq<Edge>)
    requires Traced(world, lim, roots, reports, es)
    ensures UniqueAdmissions(lim, es)
  {
    hide Traced;
    forall k | 0 <= k < |es| && es[k].state == Admitted
      ensures es[k].sha256 != "" && es[k].depth <= lim.maxDepth
      ensures forall j :: 0 <= j < k && es[j].state == Admitted ==> es[j].sha256 != es[k].sha256
    {
      var i := Offerer(world, lim, roots, reports, es, k);
      forall j | 0 <= j < k && es[j].state == Admitted ensures es[j].sha256 != es[k].sha256 { assert es[j] in es[..k]; }
    }
  }

  /** Edges are admissions, duplicates, unsafe skips and limit skips, and nothing else. */
  lemma {:induction false} RecursiveEdgesAreConserved(es: seq<Edge>)
    requires forall e :: e in es ==> Classified(e)
    ensures |es| == Count(es, Admitted) + Count(es, DuplicateSkipped) + Count(es, SkippedUnsafe) +
                    Count(es, SkippedDepth) + Count(es, SkippedByteLimit) + Count(es, SkippedNodeLimit)
    ensures |AdmittedEdges(es)| == Count(es, Admitted)
  {
    if es != [] {
      assert Classified(es[|es| - 1]);
      RecursiveEdgesAreConserved(es[..|es| - 1]);
    }
  }
}
