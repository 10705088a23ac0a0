/** The work-list loop that analyses HIGH artifacts automatically (src/main.cpp:1371-1404). */
module ChildAnalysis {
  import opened Common
  import opened ArtifactGraph

  datatype Pending = Pending(artifact: Artifact, parent: string, depth: nat)

  function Queue(artifacts: seq<Artifact>, parent: string, depth: nat): (q: seq<Pending>)
    ensures |q| == |artifacts|
    ensures forall k :: 0 <= k < |q| ==> q[k] == Pending(artifacts[k], parent, depth)
  {
    seq(|artifacts|, k requires 0 <= k < |artifacts| => Pending(artifacts[k], parent, depth))
  }

  function BytesLeft(lim: Limits, used: nat): u64 { if used < lim.maxTotalBytes then lim.maxTotalBytes - used else 0 }

  function FilesLeft(lim: Limits, nodes: nat): u32 { if nodes < lim.maxNodes then lim.maxNodes - nodes else 0 }

  ghost predicate EdgeFor(e: Edge, p: Pending) {
    e.child == p.artifact.path && e.parent == p.parent && e.depth == p.depth &&
    e.relation == if p.artifact.relation == "" then "auto_high_value" else p.artifact.relation
  }

  /** The edge reports what the world answered when it was visited. */
  ghost predicate Observed(world: World, k: nat, e: Edge) {
    var p := world.probe(e.child, k);
    e.size == ProbedSize(p) && e.sha256 == ProbedSha(p) && (e.sha256 == "" ==> e.state == SkippedUnsafe) &&
    (Admits(e) ==> e.state == if !world.makeDirectory(k) then SkippedUnsafe
                              else if world.writeReport(k) then AnalyzedStatic else AnalyzedReportWriteFailed)
  }

  ghost predicate AllObserved(world: World, es: seq<Edge>) {
    forall k :: 0 <= k < |es| ==> Observed(world, k, es[k])
  }

  /** The candidates found by analysing the child of the edge e, which follows the edges es. */
  ghost function ChildrenOf(world: World, lim: Limits, es: seq<Edge>, e: Edge): seq<Pending> {
    if !Ran(e) then []
    else Queue(Candidates(world.analyze(e.child, |es|, BytesLeft(lim, AdmittedBytes(es + [e])),
                                        FilesLeft(lim, 1 + AdmittedCount(es + [e])))), e.child, e.depth + 1)
  }

  /** Everything ever put on the work list: the root's candidates, then each analysed child's, in edge order. */
  ghost function Enqueued(world: World, lim: Limits, roots: seq<Pending>, es: seq<Edge>): seq<Pending> {
    if es == [] then roots
    else Enqueued(world, lim, roots, es[..|es| - 1]) + ChildrenOf(world, lim, es[..|es| - 1], es[|es| - 1])
  }

  /** Every edge was visited after it had been queued. */
  ghost predicate QueuedBeforeVisit(world: World, lim: Limits, roots: seq<Pending>, es: seq<Edge>) {
    es == [] || (QueuedBeforeVisit(world, lim, roots, es[..|es| - 1]) && |Enqueued(world, lim, roots, es[..|es| - 1])| >= |es|)
  }

  /** The edges are the visited front of the work list and `queue` is the rest. */
  ghost predicate Progress(world: World, lim: Limits, roots: seq<Pending>, es: seq<Edge>, queue: seq<Pending>) {
    var all := Enqueued(world, lim, roots, es);
    QueuedBeforeVisit(world, lim, roots, es) &&
    |all| == |es| + |queue| && all[|es|..] == queue && forall k :: 0 <= k < |es| ==> EdgeFor(es[k], all[k])
  }

  lemma ProgressStep(world: World, lim: Limits, roots: seq<Pending>, es: seq<Edge>, queue: seq<Pending>, e: Edge)
    requires queue != [] && Progress(world, lim, roots, es, queue) && EdgeFor(e, queue[0])
    ensures Progress(world, lim, roots, es + [e], queue[1..] + ChildrenOf(world, lim, es, e))
  {
    hide EdgeFor, ChildrenOf;
    var before, found := Enqueued(world, lim, roots, es), ChildrenOf(world, lim, es, e);
    assert (es + [e])[..|es|] == es;
    assert before[|es|] == queue[0];
    assert (before + found)[|es| + 1..] == before[|es| + 1..] + found;
    assert before[|es| + 1..] == queue[1..];
  }

  /** The admission checks for a readable file, in order: known digest, depth, bytes, nodes. None admits it. */
  method Admission(g: Graph, first: map<string, string>, depth: nat, size: u64, sha256: string) returns (refusal: Option<EdgeState>)
    ensures refusal == Some(DuplicateSkipped) <==> sha256 in first
    ensures refusal == Some(SkippedDepth) <==> sha256 !in first && depth > g.limits.maxDepth
    ensures refusal == Some(SkippedByteLimit) <==> sha256 !in first && depth <= g.limits.maxDepth && !Fits(g, size)
    ensures refusal == Some(SkippedNodeLimit) <==>
              sha256 !in first && depth <= g.limits.maxDepth && Fits(g, size) && g.nodes >= g.limits.maxNodes
    ensures refusal.None? <==> sha256 !in first && depth <= g.limits.maxDepth && Fits(g, size) && g.nodes < g.limits.maxNodes
  {
    if sha256 in first { return Some(DuplicateSkipped); }
    if depth > g.limits.maxDepth { return Some(SkippedDepth); }
    if g.admittedBytes > g.limits.maxTotalBytes || size > g.limits.maxTotalBytes - g.admittedBytes { return Some(SkippedByteLimit); }
    if g.nodes >= g.limits.maxNodes { return Some(SkippedNodeLimit); }
    return None;
  }

  predicate Fits(g: Graph, size: u64) {
    g.admittedBytes <= g.limits.maxTotalBytes && size <= g.limits.maxTotalBytes - g.admittedBytes
  }

  /** Visit one queued artifact: probe it, decide, analyse it when admitted, and record the edge. */
  method Visit(cur: Pending, root: Root, world: World, g: Graph, first: map<string, string>)
    returns (h: Graph, known: map<string, string>, e: Edge, found: seq<Pending>)
    requires Counted(g) && first == FirstBySha(root, g.edges)
    ensures Recorded(g, h, e) && EdgeFor(e, cur)
    ensures Justified(root, g.limits, g.edges, e) && Observed(world, |g.edges|, e)
    ensures known == FirstBySha(root, g.edges + [e])
    ensures found == ChildrenOf(world, g.limits, g.edges, e)
  {
    hide AdmittedCount, AdmittedBytes, FirstBySha, Queue, Candidates, Inc32, Counted;
    var relation := if cur.artifact.relation == "" then "auto_high_value" else cur.artifact.relation;
    e := Edge(cur.parent, cur.artifact.path, "", relation, "", SkippedUnsafe, 0, cur.depth);
    match world.probe(cur.artifact.path, |g.edges|) {
      case NotRegular =>
      case Unsized => e := e.(size := U64_MAX);
      case Regular(size, sha256) => e := e.(size := size, sha256 := sha256);
    }
    if e.sha256 != "" {
      h, known, e, found := VisitReadable(root, world, g, first, e);
    } else {
      FirstByShaGrows(root, g.edges, e);
      CountersOf(g);
      h := g.(skippedUnsafe := Inc32(g.skippedUnsafe), truncated := true, edges := g.edges + [e]);
      known, found := first, [];
    }
  }

  ghost predicate Counted(g: Graph) {
    g.nodes == 1 + AdmittedCount(g.edges) && g.admittedBytes == AdmittedBytes(g.edges) <= g.limits.maxTotalBytes
  }

  /** A hashed file counts as materialized; then it is refused with a reason, or admitted and analysed. */
  method VisitReadable(root: Root, world: World, g: Graph, first: map<string, string>, e0: Edge)
    returns (h: Graph, known: map<string, string>, e: Edge, found: seq<Pending>)
    requires Counted(g) && first == FirstBySha(root, g.edges) && e0.sha256 != "" && e0.state == SkippedUnsafe
    ensures e == e0.(state := e.state, duplicateOf := e.duplicateOf)
    ensures Recorded(g, h, e) && Justified(root, g.limits, g.edges, e)
    ensures Admits(e) ==> e.state == if !world.makeDirectory(|g.edges|) then SkippedUnsafe
                                     else if world.writeReport(|g.edges|) then AnalyzedStatic else AnalyzedReportWriteFailed
    ensures known == FirstBySha(root, g.edges + [e])
    ensures found == ChildrenOf(world, g.limits, g.edges, e)
  {
    hide AdmittedCount, AdmittedBytes, FirstBySha, Queue, Candidates, Inc32;
    e, known, found := e0, first, [];
    h := g.(materializedFiles := Inc32(g.materializedFiles), materializedBytes := SatAdd(g.materializedBytes, e.size));
    var refusal := Admission(h, first, e.depth, e.size, e.sha256);
    if refusal.None? {
      h, known, e, found := AnalyzeAdmitted(root, world, g.edges, h, first, e);
    } else {
      e := e.(state := refusal.value);
      if refusal.value == DuplicateSkipped {
        e := e.(duplicateOf := first[e.sha256]);
        h := h.(deduplicated := Inc32(h.deduplicated), edges := h.edges + [e]);
      } else {
        h := h.(truncated := true, skippedLimits := Inc32(h.skippedLimits), edges := h.edges + [e]);
      }
      FirstByShaGrows(root, g.edges, e);
    }
  }

  /** An admitted child: make its directory, analyse it with what is left of the budgets, write its report. */
  method AnalyzeAdmitted(root: Root, world: World, ghost es: seq<Edge>, g: Graph, first: map<string, string>, e0: Edge)
    returns (h: Graph, known: map<string, string>, e: Edge, found: seq<Pending>)
    requires g.edges == es && g.nodes == 1 + AdmittedCount(es) && g.admittedBytes == AdmittedBytes(es) && Fits(g, e0.size)
    requires first == FirstBySha(root, es) && e0.sha256 != "" && e0.state == SkippedUnsafe
    ensures e == e0.(state := if !world.makeDirectory(|es|) then SkippedUnsafe
                              else if world.writeReport(|es|) then AnalyzedStatic else AnalyzedReportWriteFailed)
    ensures h == g.(edges := es + [e], nodes := g.nodes + 1, admittedBytes := g.admittedBytes + e.size,
                    truncated := g.truncated || !Complete(e),
                    skippedUnsafe := if e.state == SkippedUnsafe then Inc32(g.skippedUnsafe) else g.skippedUnsafe)
    ensures known == FirstBySha(root, es + [e])
    ensures found == ChildrenOf(world, g.limits, es, e)
  {
    hide AdmittedCount, AdmittedBytes, FirstBySha, Queue, Candidates, Inc32;
    var step := |g.edges|;
    e, known, found := e0, first[e0.sha256 := e0.child], [];
    h := g.(admittedBytes := SatAdd(g.admittedBytes, e.size), nodes := g.nodes + 1);
    assert h.admittedBytes == g.admittedBytes + e.size;
    hide SatAdd, ChildrenOf;
    var made := world.makeDirectory(step);
    if made {
      var bytesLeft := if h.admittedBytes < h.limits.maxTotalBytes then h.limits.maxTotalBytes - h.admittedBytes else 0;
      var filesLeft := if h.nodes < h.limits.maxNodes then h.limits.maxNodes - h.nodes else 0;
      var artifacts := world.analyze(e.child, step, bytesLeft, filesLeft);
      var wrote := world.writeReport(step);
      if wrote {
        e := e.(state := AnalyzedStatic);
      } else {
        e := e.(state := AnalyzedReportWriteFailed);
        h := h.(truncated := true);
      }
      found := Queue(Candidates(artifacts), e.child, e.depth + 1);
      CountsGrow(es, e);
      FoundChildren(world, g.limits, es, e, h.admittedBytes, h.nodes, found);
    } else {
      h := h.(truncated := true, skippedUnsafe := Inc32(h.skippedUnsafe));
      CountsGrow(es, e);
      FoundChildren(world, g.limits, es, e, h.admittedBytes, h.nodes, []);
    }
    h := h.(edges := h.edges + [e]);
    FirstByShaGrows(root, es, e);
  }

  lemma FoundChildren(world: World, lim: Limits, es: seq<Edge>, e: Edge, bytes: nat, nodes: nat, found: seq<Pending>)
    requires bytes == AdmittedBytes(es + [e]) && nodes == 1 + AdmittedCount(es + [e])
    requires found ==
      if !Ran(e) then []
      else Queue(Candidates(world.analyze(e.child, |es|, BytesLeft(lim, bytes), FilesLeft(lim, nodes))), e.child, e.depth + 1)
    ensures found == ChildrenOf(world, lim, es, e)
  {
    hide AdmittedCount, AdmittedBytes, Queue, Candidates, BytesLeft, FilesLeft;
  }

  lemma FirstByShaGrows(root: Root, es: seq<Edge>, e: Edge)
    ensures FirstBySha(root, es + [e]) ==
            if Admits(e) then FirstBySha(root, es)[e.sha256 := e.child] else FirstBySha(root, es)
  {
    assert (es + [e])[..|es|] == es;
  }

  /** What one run of the loop has established. */
  ghost predicate Explored(world: World, root: Root, roots: seq<Pending>, g: Graph) {
    Accounts(g) && AllJustified(root, g.limits, g.edges) && AllObserved(world, g.edges) &&
    Progress(world, g.limits, roots, g.edges, [])
  }

  ghost function RootQueue(root: Root, artifacts: seq<Artifact>): seq<Pending> {
    Queue(Candidates(artifacts), root.input, 1)
  }

  /** The loop. It always ends: each round either uses up a node or shortens the work list. */
  method AnalyzeStaticArtifactChildren(root: Root, artifacts: seq<Artifact>, lim: Limits, world: World)
    returns (enabled: bool, g: Graph)
    ensures enabled <==> exists a :: a in artifacts && High(a)
    ensures g.limits == lim && Explored(world, root, RootQueue(root, artifacts), g)
    ensures HighHaveEdges(world, root, artifacts, lim, g.edges) && EdgesAreHigh(world, root, artifacts, lim, g.edges)
  {
    SomeHigh(artifacts);
    hide AutomaticCandidate, High, HighHaveEdges, EdgesAreHigh, Candidates, Accounts, Counted, Recorded, Justified, Observed,
         Progress, EdgeFor, ChildrenOf, FirstBySha, AdmittedCount, AdmittedBytes, AllObserved;
    var queue := Queue(Candidates(artifacts), root.input, 1);
    ghost var roots := queue;
    g := Graph(lim, false, 1, 0, 0, 0, 0, 0, 0, []);
    NothingVisited(world, root, lim, roots);
    if queue == [] {
      RunIsClosed(world, root, artifacts, g);
      return false, g;
    }
    enabled := true;
    var first := if root.sha256 != "" then map[root.sha256 := root.input] else map[];
    while queue != []
      invariant g.limits == lim && Accounts(g) && AllJustified(root, lim, g.edges) && AllObserved(world, g.edges)
      invariant first == FirstBySha(root, g.edges)
      invariant Progress(world, lim, roots, g.edges, queue)
      decreases Max(1, lim.maxNodes) - AdmittedCount(g.edges), |queue|
    {
      var cur := queue[0];
      ghost var es := g.edges;
      LimitsAreKept(root, lim, es);
      assert Counted(g) by { AccountsAreCounted(g); }
      var h, known, e, found := Visit(cur, root, world, g, first);
      RecordedEdges(g, h, e);
      RecordedKeepsAccounts(g, h, e);
      ProgressStep(world, lim, roots, es, queue, e);
      ObservedStep(world, es, e);
      NoChildrenUnlessRan(world, lim, es, e);
      queue := queue[1..] + found;
      g, first := h, known;
      LimitsAreKept(root, lim, g.edges);
    }
    RunIsClosed(world, root, artifacts, g);
  }

  lemma SomeHigh(artifacts: seq<Artifact>)
    ensures Candidates(artifacts) != [] <==> exists a :: a in artifacts && High(a)
  {
    hide AutomaticCandidate, High;
    forall a ensures AutomaticCandidate(a) <==> High(a) { CandidatesAreHigh(a); }
    if Candidates(artifacts) != [] {
      assert Candidates(artifacts)[0] in Candidates(artifacts);
    }
    if a :| a in artifacts && High(a) {
      assert a in Candidates(artifacts);
    }
  }

  lemma NothingVisited(world: World, root: Root, lim: Limits, roots: seq<Pending>)
    ensures Accounts(Graph(lim, false, 1, 0, 0, 0, 0, 0, 0, []))
    ensures AllObserved(world, []) && Progress(world, lim, roots, [], roots)
    ensures FirstBySha(root, []) == if root.sha256 != "" then map[root.sha256 := root.input] else map[]
  {
  }

  lemma CountersOf(g: Graph)
    requires Counted(g)
    ensures g.nodes == 1 + AdmittedCount(g.edges) && g.admittedBytes == AdmittedBytes(g.edges) <= g.limits.maxTotalBytes
  {
  }

  lemma AccountsAreCounted(g: Graph)
    requires Accounts(g) && AdmittedBytes(g.edges) <= g.limits.maxTotalBytes
    ensures Counted(g)
  {
  }

  lemma RecordedEdges(g: Graph, h: Graph, e: Edge)
    requires Recorded(g, h, e)
    ensures h.edges == g.edges + [e] && h.limits == g.limits && h.edges[..|g.edges|] == g.edges
    ensures AdmittedCount(h.edges) == AdmittedCount(g.edges) + (if Admits(e) then 1 else 0)
  {
    assert h.edges[..|g.edges|] == g.edges;
  }

  lemma ObservedStep(world: World, es: seq<Edge>, e: Edge)
    requires AllObserved(world, es) && Observed(world, |es|, e)
    ensures AllObserved(world, es + [e])
  {
  }

  lemma NoChildrenUnlessRan(world: World, lim: Limits, es: seq<Edge>, e: Edge)
    ensures !Admits(e) ==> ChildrenOf(world, lim, es, e) == []
  {
  }

  /** Whether an analysis of the edge es[j] put the item on the work list. */
  ghost predicate FoundBy(world: World, lim: Limits, es: seq<Edge>, j: nat, item: Pending)
    requires j < |es|
  {
    Ran(es[j]) && item in ChildrenOf(world, lim, es[..j], es[j])
  }

  lemma {:induction false} EnqueuedPrefix(world: World, lim: Limits, roots: seq<Pending>, es: seq<Edge>, k: nat)
    requires k <= |es|
    ensures Enqueued(world, lim, roots, es[..k]) <= Enqueued(world, lim, roots, es)
    decreases |es| - k
  {
    if k == |es| {
      assert es[..k] == es;
    } else {
      EnqueuedPrefix(world, lim, roots, es, k + 1);
      assert es[..k + 1][..k] == es[..k];
    }
  }

  /** Where a queued item came from: the root, or an analysis of an edge strictly before it. */
  lemma {:induction false} ItemOrigin(world: World, lim: Limits, roots: seq<Pending>, es: seq<Edge>, p: nat)
    requires p < |Enqueued(world, lim, roots, es)| && QueuedBeforeVisit(world, lim, roots, es)
    ensures var item := Enqueued(world, lim, roots, es)[p];
            (p < |roots| && item == roots[p]) || exists j :: 0 <= j < |es| && j < p && FoundBy(world, lim, es, j, item)
    decreases |es|
  {
    hide ChildrenOf;
    if es != [] {
      var n := |es| - 1;
      var before := Enqueued(world, lim, roots, es[..n]);
      var item := Enqueued(world, lim, roots, es)[p];
      if p < |before| {
        ItemOrigin(world, lim, roots, es[..n], p);
        if j :| 0 <= j < n && j < p && FoundBy(world, lim, es[..n], j, item) {
          assert es[..n][..j] == es[..j];
          assert FoundBy(world, lim, es, j, item);
        }
      } else {
        assert item in ChildrenOf(world, lim, es[..n], es[n]);
        NoChildrenUnlessRan(world, lim, es[..n], es[n]);
        NothingUnlessRan(world, lim, es[..n], es[n]);
        assert FoundBy(world, lim, es, n, item);
      }
    }
  }

  lemma NothingUnlessRan(world: World, lim: Limits, es: seq<Edge>, e: Edge)
    ensures ChildrenOf(world, lim, es, e) != [] ==> Ran(e)
    ensures forall p :: p in ChildrenOf(world, lim, es, e) ==> p.parent == e.child && p.depth == e.depth + 1 && AutomaticCandidate(p.artifact)
  {
    if Ran(e) {
      var found := Candidates(world.analyze(e.child, |es|, BytesLeft(lim, AdmittedBytes(es + [e])),
                                            FilesLeft(lim, 1 + AdmittedCount(es + [e]))));
      forall p | p in ChildrenOf(world, lim, es, e)
        ensures p.parent == e.child && p.depth == e.depth + 1 && AutomaticCandidate(p.artifact)
      {
        var k :| 0 <= k < |found| && p == Pending(found[k], e.child, e.depth + 1);
        assert found[k] in found;
      }
    }
  }

  /** Every edge hangs below the root or below a child analysed earlier, exactly one level higher. */
  lemma ParentsAreAnalysed(world: World, root: Root, artifacts: seq<Artifact>, g: Graph, k: nat)
    requires Explored(world, root, RootQueue(root, artifacts), g) && k < |g.edges|
    ensures var e := g.edges[k];
            (e.parent == root.input && e.depth == 1) ||
            exists j :: 0 <= j < k && Ran(g.edges[j]) && g.edges[j].child == e.parent && g.edges[j].depth + 1 == e.depth
  {
    hide ChildrenOf, Enqueued;
    var roots := RootQueue(root, artifacts);
    var item := Enqueued(world, g.limits, roots, g.edges)[k];
    assert EdgeFor(g.edges[k], item);
    ItemOrigin(world, g.limits, roots, g.edges, k);
    if !(k < |roots| && item == roots[k]) {
      var j :| 0 <= j < |g.edges| && j < k && FoundBy(world, g.limits, g.edges, j, item);
      NothingUnlessRan(world, g.limits, g.edges[..j], g.edges[j]);
    }
  }

  /** Closure: every HIGH candidate of the root has an edge below the root. */
  lemma RootCandidatesHaveEdges(world: World, root: Root, artifacts: seq<Artifact>, g: Graph, a: Artifact)
    requires Explored(world, root, RootQueue(root, artifacts), g)
    requires a in artifacts && AutomaticCandidate(a)
    ensures exists m :: 0 <= m < |g.edges| && EdgeFor(g.edges[m], Pending(a, root.input, 1))
  {
    hide EdgeFor;
    var roots := RootQueue(root, artifacts);
    var i :| 0 <= i < |Candidates(artifacts)| && Candidates(artifacts)[i] == a;
    EnqueuedPrefix(world, g.limits, roots, g.edges, 0);
    assert Enqueued(world, g.limits, roots, g.edges)[i] == Pending(a, root.input, 1);
    assert EdgeFor(g.edges[i], Pending(a, root.input, 1));
  }

  /** Closure: every HIGH candidate found by analysing an edge has an edge of its own, later and one level deeper. */
  lemma ChildCandidatesHaveEdges(world: World, root: Root, artifacts: seq<Artifact>, g: Graph, k: nat, a: Artifact)
    requires Explored(world, root, RootQueue(root, artifacts), g)
    requires k < |g.edges| && Ran(g.edges[k]) && AutomaticCandidate(a)
    requires a in world.analyze(g.edges[k].child, k, BytesLeft(g.limits, AdmittedBytes(g.edges[..k + 1])),
                                FilesLeft(g.limits, 1 + AdmittedCount(g.edges[..k + 1])))
    ensures exists m :: k < m < |g.edges| && EdgeFor(g.edges[m], Pending(a, g.edges[k].child, g.edges[k].depth + 1))
  {
    hide EdgeFor, AdmittedBytes, AdmittedCount, Candidates, Accounts, AllJustified, AllObserved, Progress, BytesLeft, FilesLeft;
    var es, lim := g.edges, g.limits;
    assert es[..k + 1] == es[..k] + [es[k]];
    var found := Candidates(world.analyze(es[k].child, k, BytesLeft(lim, AdmittedBytes(es[..k + 1])),
                                          FilesLeft(lim, 1 + AdmittedCount(es[..k + 1]))));
    var i :| 0 <= i < |found| && found[i] == a;
    assert ChildrenOf(world, lim, es[..k], es[k])[i] == Pending(a, es[k].child, es[k].depth + 1);
    FoundItemHasEdge(world, lim, RootQueue(root, artifacts), es, k, i);
  }

  /** The artifacts that the analysis behind the edge k reported, within the bytes and nodes that were left. */
  ghost function Reported(world: World, lim: Limits, es: seq<Edge>, k: nat): seq<Artifact>
    requires k < |es|
  {
    world.analyze(es[k].child, k, Max(0, lim.maxTotalBytes - AdmittedBytes(es[..k + 1])),
                  Max(0, lim.maxNodes - 1 - AdmittedCount(es[..k + 1])))
  }

  /** Every HIGH artifact of the root, and of every child that was analysed, has an edge with its path. */
  ghost predicate HighHaveEdges(world: World, root: Root, artifacts: seq<Artifact>, lim: Limits, es: seq<Edge>) {
    (forall a :: a in artifacts && High(a) ==>
       exists m :: 0 <= m < |es| && es[m].child == a.path && es[m].parent == root.input && es[m].depth == 1) &&
    forall k, a :: 0 <= k < |es| && Ran(es[k]) && a in Reported(world, lim, es, k) && High(a) ==>
      exists m :: k < m < |es| && es[m].child == a.path && es[m].parent == es[k].child && es[m].depth == es[k].depth + 1
  }

  /** Every edge is that of a HIGH artifact, of the root or of a child analysed before. */
  ghost predicate EdgesAreHigh(world: World, root: Root, artifacts: seq<Artifact>, lim: Limits, es: seq<Edge>) {
    forall m :: 0 <= m < |es| ==>
      (es[m].parent == root.input && es[m].depth == 1 && exists a :: a in artifacts && High(a) && a.path == es[m].child) ||
      exists k :: 0 <= k < m && Ran(es[k]) && es[m].parent == es[k].child && es[m].depth == es[k].depth + 1 &&
                  exists a :: a in Reported(world, lim, es, k) && High(a) && a.path == es[m].child
  }

  lemma ReportedChildren(world: World, lim: Limits, es: seq<Edge>, k: nat)
    requires k < |es| && Ran(es[k])
    ensures Reported(world, lim, es, k) ==
            world.analyze(es[k].child, k, BytesLeft(lim, AdmittedBytes(es[..k + 1])), FilesLeft(lim, 1 + AdmittedCount(es[..k + 1])))
    ensures forall p :: p in ChildrenOf(world, lim, es[..k], es[k]) ==> p.artifact in Reported(world, lim, es, k) && High(p.artifact)
  {
    hide AdmittedBytes, AdmittedCount, High, AutomaticCandidate;
    assert es[..k + 1] == es[..k] + [es[k]];
    var found := Candidates(Reported(world, lim, es, k));
    forall p | p in ChildrenOf(world, lim, es[..k], es[k]) ensures p.artifact in Reported(world, lim, es, k) && High(p.artifact) {
      assert p.artifact in found;
      CandidatesAreHigh(p.artifact);
    }
  }

  lemma RunIsClosed(world: World, root: Root, artifacts: seq<Artifact>, g: Graph)
    requires Explored(world, root, RootQueue(root, artifacts), g)
    ensures HighHaveEdges(world, root, artifacts, g.limits, g.edges)
    ensures EdgesAreHigh(world, root, artifacts, g.limits, g.edges)
  {
    hide Explored, RootQueue, High, Reported, Ran, EdgesAreHigh;
    forall a | a in artifacts && High(a)
      ensures exists m :: 0 <= m < |g.edges| && g.edges[m].child == a.path && g.edges[m].parent == root.input && g.edges[m].depth == 1
    {
      var m := RootArtifactEdge(world, root, artifacts, g, a);
    }
    forall k, a | 0 <= k < |g.edges| && Ran(g.edges[k]) && a in Reported(world, g.limits, g.edges, k) && High(a)
      ensures exists m :: k < m < |g.edges| && g.edges[m].child == a.path && g.edges[m].parent == g.edges[k].child &&
                          g.edges[m].depth == g.edges[k].depth + 1
    {
      var m := ChildArtifactEdge(world, root, artifacts, g, k, a);
    }
    AllEdgesAreHigh(world, root, artifacts, g);
  }

  lemma RootArtifactEdge(world: World, root: Root, artifacts: seq<Artifact>, g: Graph, a: Artifact) returns (m: nat)
    requires Explored(world, root, RootQueue(root, artifacts), g) && a in artifacts && High(a)
    ensures m < |g.edges| && g.edges[m].child == a.path && g.edges[m].parent == root.input && g.edges[m].depth == 1
  {
    hide Explored, RootQueue;
    CandidatesAreHigh(a);
    RootCandidatesHaveEdges(world, root, artifacts, g, a);
    m :| m < |g.edges| && EdgeFor(g.edges[m], Pending(a, root.input, 1));
  }

  lemma ChildArtifactEdge(world: World, root: Root, artifacts: seq<Artifact>, g: Graph, k: nat, a: Artifact) returns (m: nat)
    requires Explored(world, root, RootQueue(root, artifacts), g)
    requires k < |g.edges| && Ran(g.edges[k]) && a in Reported(world, g.limits, g.edges, k) && High(a)
    ensures k < m < |g.edges| && g.edges[m].child == a.path && g.edges[m].parent == g.edges[k].child
    ensures g.edges[m].depth == g.edges[k].depth + 1
  {
    hide Explored, RootQueue, BytesLeft, FilesLeft, AdmittedBytes, AdmittedCount, Reported;
    CandidatesAreHigh(a);
    ReportedChildren(world, g.limits, g.edges, k);
    ChildCandidatesHaveEdges(world, root, artifacts, g, k, a);
    m :| k < m < |g.edges| && EdgeFor(g.edges[m], Pending(a, g.edges[k].child, g.edges[k].depth + 1));
  }

  lemma AllEdgesAreHigh(world: World, root: Root, artifacts: seq<Artifact>, g: Graph)
    requires Explored(world, root, RootQueue(root, artifacts), g)
    ensures EdgesAreHigh(world, root, artifacts, g.limits, g.edges)
  {
    hide Explored, RootQueue, High, Reported, Ran;
    var es, lim := g.edges, g.limits;
    forall m | 0 <= m < |es|
      ensures (es[m].parent == root.input && es[m].depth == 1 && exists a :: a in artifacts && High(a) && a.path == es[m].child) ||
              exists k :: 0 <= k < m && Ran(es[k]) && es[m].parent == es[k].child && es[m].depth == es[k].depth + 1 &&
                          exists a :: a in Reported(world, lim, es, k) && High(a) && a.path == es[m].child
    {
      EdgeOrigin(world, root, artifacts, g, m);
    }
  }

  /** The artifact behind an edge. */
  lemma EdgeOrigin(world: World, root: Root, artifacts: seq<Artifact>, g: Graph, m: nat)
    requires Explored(world, root, RootQueue(root, artifacts), g) && m < |g.edges|
    ensures var es := g.edges;
            (es[m].parent == root.input && es[m].depth == 1 && exists a :: a in artifacts && High(a) && a.path == es[m].child) ||
            exists k :: 0 <= k < m && Ran(es[k]) && es[m].parent == es[k].child && es[m].depth == es[k].depth + 1 &&
                        exists a :: a in Reported(world, g.limits, es, k) && High(a) && a.path == es[m].child
  {
    hide ChildrenOf, Enqueued, High, AutomaticCandidate, Reported;
    var roots, es, lim := RootQueue(root, artifacts), g.edges, g.limits;
    var item := Enqueued(world, lim, roots, es)[m];
    assert EdgeFor(es[m], item);
    ItemOrigin(world, lim, roots, es, m);
    if m < |roots| && item == roots[m] {
      assert item.artifact in Candidates(artifacts);
      CandidatesAreHigh(item.artifact);
    } else {
      var j :| 0 <= j < |es| && j < m && FoundBy(world, lim, es, j, item);
      NothingUnlessRan(world, lim, es[..j], es[j]);
      ReportedChildren(world, lim, es, j);
      assert item.artifact in Reported(world, lim, es, j);
    }
  }

  /** Item number i found at the edge k has been visited at a later edge. */
  lemma FoundItemHasEdge(world: World, lim: Limits, roots: seq<Pending>, es: seq<Edge>, k: nat, i: nat)
    requires Progress(world, lim, roots, es, []) && k < |es| && i < |ChildrenOf(world, lim, es[..k], es[k])|
    ensures exists m :: k < m < |es| && EdgeFor(es[m], ChildrenOf(world, lim, es[..k], es[k])[i])
  {
    hide EdgeFor, ChildrenOf;
    var before, found := Enqueued(world, lim, roots, es[..k]), ChildrenOf(world, lim, es[..k], es[k]);
    VisitedAfterQueued(world, lim, roots, es, k);
    EnqueuedPrefix(world, lim, roots, es, k + 1);
    assert es[..k + 1][..k] == es[..k];
    assert Enqueued(world, lim, roots, es[..k + 1]) == before + found;
    var m := |before| + i;
    assert Enqueued(world, lim, roots, es)[m] == found[i];
    assert EdgeFor(es[m], found[i]);
  }

  lemma {:induction false} VisitedAfterQueued(world: World, lim: Limits, roots: seq<Pending>, es: seq<Edge>, k: nat)
    requires QueuedBeforeVisit(world, lim, roots, es) && k < |es|
    ensures |Enqueued(world, lim, roots, es[..k])| > k
    decreases |es|
  {
    if k < |es| - 1 {
      VisitedAfterQueued(world, lim, roots, es[..|es| - 1], k);
      assert es[..|es| - 1][..k] == es[..k];
    }
  }

  /** If nothing was truncated, every visited file is the root again or has been analysed exactly once. */
  lemma UntruncatedIsClosed(world: World, root: Root, roots: seq<Pending>, g: Graph, k: nat)
    requires Explored(world, root, roots, g) && !g.truncated && k < |g.edges|
    ensures g.edges[k].sha256 != ""
    ensures g.edges[k].sha256 == root.sha256 ||
            exists j :: 0 <= j <= k && g.edges[j].state == AnalyzedStatic && g.edges[j].sha256 == g.edges[k].sha256 &&
                        forall i :: 0 <= i < |g.edges| && Ran(g.edges[i]) && g.edges[i].sha256 == g.edges[j].sha256 ==> i == j
  {
    hide AllJustified, Progress, AllObserved, FirstBySha;
    var es := g.edges;
    NothingTruncated(g);
    JustifiedAt(root, g.limits, es, k);
    assert Complete(es[k]);
    hide Accounts;
    KnownDigests(root, es[..k]);
    if es[k].state == DuplicateSkipped && !(es[k].sha256 == root.sha256 && es[k].sha256 != "") {
      var j :| 0 <= j < k && Admits(es[..k][j]) && es[..k][j].sha256 == es[k].sha256;
      assert Admits(es[j]) && Complete(es[j]);
      AnalysedOnce(root, g.limits, es, j);
    } else if es[k].state == AnalyzedStatic {
      AnalysedOnce(root, g.limits, es, k);
    }
  }

  lemma NothingTruncated(g: Graph)
    requires Accounts(g) && !g.truncated
    ensures forall k :: 0 <= k < |g.edges| ==> Complete(g.edges[k])
  {
    assert forall k :: 0 <= k < |g.edges| ==> g.edges[k] in g.edges;
  }

  lemma AnalysedOnce(root: Root, lim: Limits, es: seq<Edge>, j: nat)
    requires AllJustified(root, lim, es) && j < |es| && Admits(es[j])
    ensures es[j].sha256 != "" && es[j].sha256 != root.sha256
    ensures forall i :: 0 <= i < |es| && Admits(es[i]) && es[i].sha256 == es[j].sha256 ==> i == j
  {
    AdmittedOnce(root, lim, es, j, j);
    forall i | 0 <= i < |es| && Admits(es[i]) && es[i].sha256 == es[j].sha256 ensures i == j {
      if i < j { AdmittedOnce(root, lim, es, i, j); }
      if j < i { AdmittedOnce(root, lim, es, j, i); }
    }
  }

  lemma {:induction false} JustifiedAt(root: Root, lim: Limits, es: seq<Edge>, k: nat)
    requires AllJustified(root, lim, es) && k < |es|
    ensures Justified(root, lim, es[..k], es[k])
    decreases |es|
  {
    hide Justified;
    if k < |es| - 1 {
      JustifiedAt(root, lim, es[..|es| - 1], k);
      assert es[..|es| - 1][..k] == es[..k];
    }
  }

  ghost predicate DepthsSorted(s: seq<Pending>) {
    forall i, j :: 0 <= i <= j < |s| ==> s[i].depth <= s[j].depth
  }

  /** The work list is breadth first: depths never decrease, and the waiting items span at most two levels. */
  lemma {:induction false} BreadthFirst(world: World, lim: Limits, roots: seq<Pending>, es: seq<Edge>)
    requires QueuedBeforeVisit(world, lim, roots, es)
    requires forall p :: p in roots ==> p.depth == 1
    requires forall k :: 0 <= k < |es| && k < |Enqueued(world, lim, roots, es)| ==>
               es[k].depth == Enqueued(world, lim, roots, es)[k].depth
    ensures DepthsSorted(Enqueued(world, lim, roots, es))
    ensures var all := Enqueued(world, lim, roots, es);
            |es| < |all| ==> forall p :: 0 <= p < |all| ==> all[p].depth <= all[|es|].depth + 1
  {
    hide ChildrenOf, DepthsSorted;
    if es == [] {
      assert DepthsSorted(roots) by { OneDepth(roots, 1); }
    } else {
      var n := |es| - 1;
      var before, found := Enqueued(world, lim, roots, es[..n]), ChildrenOf(world, lim, es[..n], es[n]);
      assert Enqueued(world, lim, roots, es) == before + found;
      assert forall k :: 0 <= k < n && k < |before| ==> es[..n][k].depth == before[k].depth;
      BreadthFirst(world, lim, roots, es[..n]);
      NothingUnlessRan(world, lim, es[..n], es[n]);
      assert es[n].depth == before[n].depth;
      AppendLevel(before, found, n);
    }
  }

  lemma OneDepth(s: seq<Pending>, depth: nat)
    requires forall p :: p in s ==> p.depth == depth
    ensures DepthsSorted(s)
  {
    assert forall k :: 0 <= k < |s| ==> s[k] in s;
  }

  /** Appending the next level behind item n keeps the list sorted and two levels wide. */
  lemma AppendLevel(before: seq<Pending>, found: seq<Pending>, n: nat)
    requires n < |before| && DepthsSorted(before)
    requires forall p :: 0 <= p < |before| ==> before[p].depth <= before[n].depth + 1
    requires forall p :: p in found ==> p.depth == before[n].depth + 1
    ensures DepthsSorted(before + found)
    ensures n + 1 < |before + found| ==>
              forall p :: 0 <= p < |before + found| ==> (before + found)[p].depth <= (before + found)[n + 1].depth + 1
  {
    assert forall k :: 0 <= k < |found| ==> found[k] in found;
  }

  /** Edges are recorded level by level. */
  lemma EdgesAreBreadthFirst(world: World, root: Root, artifacts: seq<Artifact>, g: Graph, i: nat, j: nat)
    requires Explored(world, root, RootQueue(root, artifacts), g) && i <= j < |g.edges|
    ensures 1 <= g.edges[i].depth <= g.edges[j].depth
  {
    hide ChildrenOf;
    var roots := RootQueue(root, artifacts);
    var all := Enqueued(world, g.limits, roots, g.edges);
    assert forall k :: 0 <= k < |g.edges| ==> EdgeFor(g.edges[k], all[k]);
    BreadthFirst(world, g.limits, roots, g.edges);
    ParentsAreAnalysed(world, root, artifacts, g, i);
  }
}
