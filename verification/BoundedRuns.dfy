/** What a call of the bounded child analysis promises, and where its duplicates mislead (src/main.cpp:1412-1451). */
module BoundedRuns {
  import opened Common
  import opened ArtifactGraph
  import opened BoundedChildren

  /** The first edge with its digest. */
  ghost predicate First(es: seq<Edge>, j: nat)
    requires j < |es|
  {
    es[j].sha256 != "" && forall i :: 0 <= i < j ==> es[i].sha256 != es[j].sha256
  }

  /** The path is the root's for its digest, and otherwise that of the first edge with the digest. */
  ghost predicate NamesFirst(root: Root, es: seq<Edge>, s: string, path: string) {
    if s == root.sha256 then path == root.input
    else exists j :: 0 <= j < |es| && First(es, j) && es[j].sha256 == s && es[j].child == path
  }

  /** Duplicates name the root or the first edge with their digest; only first edges were analysed. */
  ghost predicate Orderly(root: Root, es: seq<Edge>) {
    (forall k :: 0 <= k < |es| && es[k].state == DuplicateSkipped ==>
       es[k].sha256 != "" && NamesFirst(root, es[..k], es[k].sha256, es[k].duplicateOf)) &&
    forall k :: 0 <= k < |es| && Ran(es[k]) ==> First(es, k) && es[k].sha256 != root.sha256
  }

  /** Equal digests go with equal sizes, as they do for files. Complete edges need not even that. */
  ghost predicate Consistent(es: seq<Edge>) {
    (forall i, j :: 0 <= i < |es| && 0 <= j < |es| && es[i].sha256 == es[j].sha256 != "" ==> es[i].size == es[j].size) ||
    forall e :: e in es ==> Complete(e)
  }

  /** So it is when the digest determines the size, and when nothing was left out. */
  lemma ConsistentFiles(es: seq<Edge>, size: string -> u64)
    requires (forall e :: e in es && e.sha256 != "" ==> e.size == size(e.sha256)) ||
             forall e :: e in es ==> e.state == AnalyzedStatic || e.state == DuplicateSkipped
    ensures Consistent(es)
  {
    forall i, j | 0 <= i < |es| && 0 <= j < |es| && es[i].sha256 == es[j].sha256 != "" && exists e :: e in es && !Complete(e)
      ensures es[i].size == es[j].size
    {
      assert es[i] in es && es[j] in es;
    }
  }

  /** During a call: known digests name their first edge, and a digest that was refused stays refused. */
  ghost predicate Tracks(root: Root, caps: Caps, m: Meter) {
    var es := m.graph.edges;
    (forall s :: s in m.known ==> s != "" && NamesFirst(root, es, s, m.known[s])) &&
    (root.sha256 != "" ==> root.sha256 in m.known) &&
    (forall j :: 0 <= j < |es| && es[j].sha256 != "" && es[j].sha256 !in m.known ==>
       !Complete(es[j]) && OverLimit(m, es[j].size, caps).Some?) &&
    Orderly(root, es)
  }

  lemma NamesFirstGrows(root: Root, es: seq<Edge>, e: Edge, s: string, path: string)
    requires NamesFirst(root, es, s, path)
    ensures NamesFirst(root, es + [e], s, path)
  {
    if s != root.sha256 {
      var j :| 0 <= j < |es| && First(es, j) && es[j].sha256 == s && es[j].child == path;
      assert First(es + [e], j);
    }
  }

  lemma OrderlyGrows(root: Root, es: seq<Edge>, e: Edge)
    requires Orderly(root, es)
    requires e.state == DuplicateSkipped ==> e.sha256 != "" && NamesFirst(root, es, e.sha256, e.duplicateOf)
    requires Ran(e) ==> First(es + [e], |es|) && e.sha256 != root.sha256
    ensures Orderly(root, es + [e])
  {
    hide NamesFirst;
    var more := es + [e];
    assert more[..|es|] == es;
    forall k | 0 <= k < |more| && more[k].state == DuplicateSkipped
      ensures more[k].sha256 != "" && NamesFirst(root, more[..k], more[k].sha256, more[k].duplicateOf)
    {
      if k < |es| { assert more[..k] == es[..k]; }
    }
    forall k | 0 <= k < |more| && Ran(more[k]) ensures First(more, k) && more[k].sha256 != root.sha256 {
      if k < |es| { assert First(es, k); }
    }
  }

  /** Nothing a call does lifts a limit. */
  lemma OverLimitStays(input: string, world: ChildWorld, caps: Caps, m: Meter, a: Artifact, size: u64)
    requires OverLimit(m, size, caps).Some?
    ensures OverLimit(Step(input, world, caps, m, a), size, caps).Some?
  {
    hide Outcome, Inc32, Complete;
  }

  /** A child that enters is the first with its digest. */
  lemma EntersFirst(root: Root, caps: Caps, m: Meter, e: Edge)
    requires Tracks(root, caps, m) && Consistent(m.graph.edges + [e]) && Enters(m, e.sha256, e.size, caps)
    ensures First(m.graph.edges + [e], |m.graph.edges|) && e.sha256 != root.sha256
  {
    hide OverLimit, Complete, NamesFirst, Orderly;
    var es := m.graph.edges;
    forall j | 0 <= j < |es| ensures es[j].sha256 != e.sha256 {
      assert (es + [e])[j] == es[j] && (es + [e])[|es|] == e;
      assert es[j] in es + [e];
    }
  }

  lemma StepTracks(root: Root, world: ChildWorld, caps: Caps, m: Meter, a: Artifact)
    requires Tracks(root, caps, m) && Consistent(m.graph.edges + [NextEdge(root.input, world, caps, m, a)])
    ensures Tracks(root, caps, Step(root.input, world, caps, m, a))
  {
    var e, n := NextEdge(root.input, world, caps, m, a), Step(root.input, world, caps, m, a);
    var es := m.graph.edges;
    assert n.graph.edges == es + [e];
    if Enters(m, e.sha256, e.size, caps) { EntersFirst(root, caps, m, e); }
    EdgeStates(root.input, world, caps, m, a);
    hide OverLimit, Complete, NamesFirst, NextEdge, Enters, Outcome, Inc32, Orderly;
    assert Orderly(root, es + [e]) by { OrderlyGrows(root, es, e); }
    forall s | s in n.known ensures s != "" && NamesFirst(root, es + [e], s, n.known[s]) {
      if s in m.known && n.known[s] == m.known[s] {
        NamesFirstGrows(root, es, e, s, m.known[s]);
      } else {
        LastIsFirst(root, es, e);
      }
    }
    forall j | 0 <= j < |es + [e]| && (es + [e])[j].sha256 != "" && (es + [e])[j].sha256 !in n.known
      ensures !Complete((es + [e])[j]) && OverLimit(n, (es + [e])[j].size, caps).Some?
    {
      if j < |es| { assert es[j].sha256 !in m.known; }
      OverLimitStays(root.input, world, caps, m, a, (es + [e])[j].size);
    }
  }

  lemma LastIsFirst(root: Root, es: seq<Edge>, e: Edge)
    requires First(es + [e], |es|) && e.sha256 != root.sha256
    ensures NamesFirst(root, es + [e], e.sha256, e.child)
  {
    assert (es + [e])[|es|] == e;
  }

  /** How the next edge and the next state hang together. */
  lemma EdgeStates(input: string, world: ChildWorld, caps: Caps, m: Meter, a: Artifact)
    ensures var e := NextEdge(input, world, caps, m, a);
            e.child == a.path &&
            (e.state == DuplicateSkipped <==> e.sha256 in m.known && e.sha256 != "") &&
            (e.state == DuplicateSkipped ==> e.duplicateOf == m.known[e.sha256]) &&
            (Ran(e) ==> Enters(m, e.sha256, e.size, caps)) &&
            (e.sha256 != "" && e.sha256 !in m.known && !Enters(m, e.sha256, e.size, caps) ==>
               !Complete(e) && OverLimit(m, e.size, caps).Some?) &&
            Step(input, world, caps, m, a).known == if Enters(m, e.sha256, e.size, caps) then m.known[e.sha256 := e.child] else m.known
  {
    OutcomeStates(world, |m.graph.edges|, m.bytes, m.files, caps);
    hide Outcome;
  }

  /** At the start of a call every recorded digest is known, with the path of its first edge. */
  lemma {:induction false} StartTracks(root: Root, es: seq<Edge>)
    ensures var known := KnownBefore(root, es);
            (forall s :: s in known ==> s != "" && NamesFirst(root, es, s, known[s])) &&
            (root.sha256 != "" ==> root.sha256 in known) && forall j :: 0 <= j < |es| && es[j].sha256 != "" ==> es[j].sha256 in known
  {
    if es != [] {
      var shorter, e := es[..|es| - 1], es[|es| - 1];
      StartTracks(root, shorter);
      var before, known := KnownBefore(root, shorter), KnownBefore(root, es);
      assert es == shorter + [e];
      forall s | s in known ensures s != "" && NamesFirst(root, es, s, known[s]) {
        if s in before {
          NamesFirstGrows(root, shorter, e, s, before[s]);
        } else {
          assert First(es, |shorter|);
          LastIsFirst(root, shorter, e);
        }
      }
    }
  }

  lemma {:induction false} StepsTrack(root: Root, world: ChildWorld, caps: Caps, m: Meter, cs: seq<Artifact>)
    requires Tracks(root, caps, m) && Consistent(Steps(root.input, world, caps, m, cs).graph.edges)
    ensures Tracks(root, caps, Steps(root.input, world, caps, m, cs))
    decreases |cs|
  {
    hide Tracks, Step, NextEdge;
    if cs != [] {
      var n := Steps(root.input, world, caps, m, cs[..|cs| - 1]);
      StepEdges(root.input, world, caps, n, cs[|cs| - 1]);
      ConsistentBefore(n.graph.edges, NextEdge(root.input, world, caps, n, cs[|cs| - 1]));
      StepsTrack(root, world, caps, m, cs[..|cs| - 1]);
      StepTracks(root, world, caps, n, cs[|cs| - 1]);
    }
  }

  lemma ConsistentBefore(es: seq<Edge>, e: Edge)
    requires Consistent(es + [e])
    ensures Consistent(es)
  {
    var more := es + [e];
    assert forall i :: 0 <= i < |es| ==> more[i] == es[i];
    assert forall x :: x in es ==> x in more;
  }

  /** Every call keeps the edges orderly, whatever was recorded before it. */
  lemma RunIsOrderly(root: Root, world: ChildWorld, caps: Caps, g: Graph, bytes: u64, files: u64, cs: seq<Artifact>)
    requires Orderly(root, g.edges) && Consistent(Run(root, world, caps, g, bytes, files, cs).graph.edges)
    ensures Orderly(root, Run(root, world, caps, g, bytes, files, cs).graph.edges)
  {
    hide Orderly, Consistent, Tracks, Steps;
    MeterTracks(root, caps, g, bytes, files);
    StepsTrack(root, world, caps, Meter(g, KnownBefore(root, g.edges), bytes, files), cs);
    TracksOrderly(root, caps, Run(root, world, caps, g, bytes, files, cs));
  }

  lemma TracksOrderly(root: Root, caps: Caps, m: Meter)
    requires Tracks(root, caps, m)
    ensures Orderly(root, m.graph.edges)
  {
  }

  lemma MeterTracks(root: Root, caps: Caps, g: Graph, bytes: u64, files: u64)
    requires Orderly(root, g.edges)
    ensures Tracks(root, caps, Meter(g, KnownBefore(root, g.edges), bytes, files))
  {
    hide Orderly, KnownBefore, NamesFirst, Complete, OverLimit;
    StartTracks(root, g.edges);
  }

  /** The path a duplicate names stands for analysed content: the root, or an earlier analysed child with its digest. */
  ghost predicate NamesAnalysed(root: Root, es: seq<Edge>, k: nat)
    requires k < |es|
  {
    (es[k].sha256 == root.sha256 && es[k].duplicateOf == root.input) ||
    exists i :: 0 <= i < k && Ran(es[i]) && es[i].sha256 == es[k].sha256 && es[i].child == es[k].duplicateOf
  }

  /** Exactly when a duplicate can be trusted: its digest is the root's, or the first edge with it was analysed. */
  lemma DuplicateNamesAnalysedExactlyWhen(root: Root, es: seq<Edge>, k: nat)
    requires Orderly(root, es) && k < |es| && es[k].state == DuplicateSkipped
    ensures NamesAnalysed(root, es, k) <==>
            es[k].sha256 == root.sha256 || exists j :: 0 <= j < k && First(es, j) && es[j].sha256 == es[k].sha256 && Ran(es[j])
  {
    if es[k].sha256 != root.sha256 {
      var j :| 0 <= j < k && First(es[..k], j) && es[..k][j].sha256 == es[k].sha256 && es[..k][j].child == es[k].duplicateOf;
      assert First(es, j);
      assert forall i :: 0 <= i < k && First(es, i) && es[i].sha256 == es[k].sha256 ==> i == j;
    }
  }

  /** So it is after every call, for the duplicates of this call and of those before. */
  lemma CallDuplicatesExactlyWhen(root: Root, world: ChildWorld, caps: Caps, g: Graph, bytes: u64, files: u64, cs: seq<Artifact>)
    requires Orderly(root, g.edges) && Consistent(Run(root, world, caps, g, bytes, files, cs).graph.edges)
    ensures var es := Run(root, world, caps, g, bytes, files, cs).graph.edges;
            forall k :: 0 <= k < |es| && es[k].state == DuplicateSkipped ==>
              (NamesAnalysed(root, es, k) <==>
               es[k].sha256 == root.sha256 || exists j :: 0 <= j < k && First(es, j) && es[j].sha256 == es[k].sha256 && Ran(es[j]))
  {
    hide Orderly, Consistent, NamesAnalysed, First, Run;
    RunIsOrderly(root, world, caps, g, bytes, files, cs);
    var es := Run(root, world, caps, g, bytes, files, cs).graph.edges;
    forall k | 0 <= k < |es| && es[k].state == DuplicateSkipped
      ensures NamesAnalysed(root, es, k) <==>
              es[k].sha256 == root.sha256 || exists j :: 0 <= j < k && First(es, j) && es[j].sha256 == es[k].sha256 && Ran(es[j])
    {
      DuplicateNamesAnalysedExactlyWhen(root, es, k);
    }
  }

  /** If nothing was left out, every edge's digest is the root's or was analysed exactly once. */
  lemma {:induction false} UntruncatedCallIsClosed(root: Root, es: seq<Edge>, k: nat)
    requires Orderly(root, es) && k < |es| && forall e :: e in es ==> Complete(e)
    ensures es[k].sha256 != ""
    ensures es[k].sha256 == root.sha256 ||
            exists j :: 0 <= j <= k && es[j].state == AnalyzedStatic && es[j].sha256 == es[k].sha256 &&
                        forall i :: 0 <= i < |es| && Ran(es[i]) && es[i].sha256 == es[j].sha256 ==> i == j
  {
    assert es[k] in es;
    if es[k].state == DuplicateSkipped && es[k].sha256 != root.sha256 {
      var j :| 0 <= j < k && First(es[..k], j) && es[..k][j].sha256 == es[k].sha256 && es[..k][j].child == es[k].duplicateOf;
      UntruncatedCallIsClosed(root, es, j);
    } else if es[k].sha256 != root.sha256 {
      assert First(es, k);
      forall i | 0 <= i < |es| && Ran(es[i]) && es[i].sha256 == es[k].sha256 ensures i == k { assert First(es, i); }
    }
  }

  /** A digest counts as known to a later call exactly when it is the root's or that of any recorded edge. */
  lemma {:induction false} KnownBeforeIsRecorded(root: Root, es: seq<Edge>, s: string)
    ensures s in KnownBefore(root, es) <==>
              s != "" && (s == root.sha256 || exists k :: 0 <= k < |es| && es[k].sha256 == s)
  {
    if es != [] {
      var n := |es| - 1;
      KnownBeforeIsRecorded(root, es[..n], s);
      if k :| 0 <= k < |es| && es[k].sha256 == s && k < n { assert es[..n][k].sha256 == s; }
      if k :| 0 <= k < n && es[..n][k].sha256 == s { assert es[k].sha256 == s; }
    }
  }

  // Counters and limits of a call.

  /** Every counter is the count it claims to be; the 32-bit ones wrap. */
  ghost predicate BoundedAccounts(g: Graph) {
    var es := g.edges;
    g.deduplicated == Count(es, DuplicateSkipped) % U32_LIMIT &&
    g.skippedUnsafe == Count(es, SkippedUnsafe) % U32_LIMIT &&
    g.skippedLimits == AllSkips(es) % U32_LIMIT &&
    g.materializedFiles == Hashes(es) % U32_LIMIT &&
    g.materializedBytes == Min(HashedBytes(es), U64_MAX) &&
    (g.truncated <==> exists e :: e in es && !Complete(e))
  }

  function AllSkips(es: seq<Edge>): nat {
    if es == [] then 0 else AllSkips(es[..|es| - 1]) + (if Skips(es[|es| - 1].state) then 1 else 0)
  }

  /** Limit skips are those for depth, bytes, nodes, the directory's allowance, and unexpected output. */
  lemma {:induction false} SkipsByReason(es: seq<Edge>)
    ensures AllSkips(es) ==
            Count(es, SkippedDepth) + Count(es, SkippedByteLimit) + Count(es, SkippedNodeLimit) +
            Count(es, SkippedDirectoryArtifactBudget) + Count(es, SkippedOutputInvariant)
  {
    if es != [] { SkipsByReason(es[..|es| - 1]); }
  }

  lemma FreshGraphIsCounted(lim: Limits)
    ensures BoundedAccounts(FreshGraph(lim)) && AllSkips([]) == 0
  {
  }

  lemma RecordKeepsAccounts(g: Graph, e: Edge, entered: bool)
    requires BoundedAccounts(g)
    ensures BoundedAccounts(Record(g, e, entered))
  {
    hide Count, Hashes, HashedBytes, AdmittedCount, AdmittedBytes, Inc32, Complete, Skips, SatAdd;
    var es := g.edges;
    CountsGrow(es, e);
    assert (es + [e])[..|es|] == es;
    IncrementWraps(Count(es, DuplicateSkipped));
    IncrementWraps(Count(es, SkippedUnsafe));
    IncrementWraps(AllSkips(es));
    IncrementWraps(Hashes(es));
    assert e in es + [e];
    assert forall x :: x in es + [e] <==> x in es || x == e;
  }

  /** A call keeps all accounts and limits, and adds one edge for each candidate, in order. */
  lemma {:induction false} RunKeepsAccounts(input: string, world: ChildWorld, caps: Caps, m: Meter, cs: seq<Artifact>)
    requires BoundedAccounts(m.graph)
    ensures var g := Steps(input, world, caps, m, cs).graph;
            BoundedAccounts(g) && OneEdgeEach(m.graph.edges, g.edges, cs) && KeepsLimits(m.graph, g)
    decreases |cs|
  {
    hide BoundedAccounts, NextEdge, Record, Enters, OneEdgeEach, KeepsLimits, Step;
    if cs == [] {
      NothingAdded(m.graph);
    } else {
      var n, last := Steps(input, world, caps, m, cs[..|cs| - 1]), cs[|cs| - 1];
      RunKeepsAccounts(input, world, caps, m, cs[..|cs| - 1]);
      var e := NextEdge(input, world, caps, n, last);
      StepKeepsLimits(input, world, caps, n, last);
      StepRecords(input, world, caps, n, last);
      RecordKeepsAccounts(n.graph, e, Enters(n, e.sha256, e.size, caps));
      EdgeAppended(m.graph.edges, n.graph.edges, cs[..|cs| - 1], last, e);
      LimitsCompose(m.graph, n.graph, Step(input, world, caps, n, last).graph);
      assert cs[..|cs| - 1] + [last] == cs;
    }
  }

  /** The edges added are one for each candidate, in the same order. */
  ghost predicate OneEdgeEach(from: seq<Edge>, es: seq<Edge>, cs: seq<Artifact>) {
    from <= es && |es| == |from| + |cs| && forall i :: 0 <= i < |cs| ==> es[|from| + i].child == cs[i].path
  }

  ghost predicate KeepsLimits(g: Graph, h: Graph) {
    h.limits == g.limits && h.nodes <= Max(g.nodes, g.limits.maxNodes) &&
    h.admittedBytes <= Max(g.admittedBytes, g.limits.maxTotalBytes)
  }

  lemma NothingAdded(g: Graph)
    ensures OneEdgeEach(g.edges, g.edges, []) && KeepsLimits(g, g)
  {
  }

  lemma LimitsCompose(f: Graph, g: Graph, h: Graph)
    requires KeepsLimits(f, g) && KeepsLimits(g, h)
    ensures KeepsLimits(f, h)
  {
  }

  lemma EdgeAppended(from: seq<Edge>, es: seq<Edge>, cs: seq<Artifact>, a: Artifact, e: Edge)
    requires OneEdgeEach(from, es, cs) && e.child == a.path
    ensures OneEdgeEach(from, es + [e], cs + [a])
  {
  }

  lemma StepRecords(input: string, world: ChildWorld, caps: Caps, m: Meter, a: Artifact)
    ensures var e := NextEdge(input, world, caps, m, a);
            Step(input, world, caps, m, a).graph == Record(m.graph, e, Enters(m, e.sha256, e.size, caps))
  {
  }

  lemma StepKeepsLimits(input: string, world: ChildWorld, caps: Caps, m: Meter, a: Artifact)
    ensures var g := Step(input, world, caps, m, a).graph;
            g.edges == m.graph.edges + [NextEdge(input, world, caps, m, a)] &&
            NextEdge(input, world, caps, m, a).child == a.path && KeepsLimits(m.graph, g)
  {
    hide Outcome, Inc32, Complete;
  }

  /** The edges of the children that entered the graph during a call, whatever became of their reports. */
  function EnteredEdges(input: string, world: ChildWorld, caps: Caps, m: Meter, cs: seq<Artifact>): seq<Edge>
    decreases |cs|
  {
    if cs == [] then []
    else
      var n := Steps(input, world, caps, m, cs[..|cs| - 1]);
      var e := NextEdge(input, world, caps, n, cs[|cs| - 1]);
      EnteredEdges(input, world, caps, m, cs[..|cs| - 1]) + (if Enters(n, e.sha256, e.size, caps) then [e] else [])
  }

  function Sizes(es: seq<Edge>): nat { if es == [] then 0 else Sizes(es[..|es| - 1]) + es[|es| - 1].size }

  /** The nodes and the admitted bytes of the graph are those of the children that entered it, without saturation, and
      every child that was analysed is one of them. */
  lemma {:induction false} AdmissionsAreCounted(input: string, world: ChildWorld, caps: Caps, m: Meter, cs: seq<Artifact>)
    ensures var g, entered := Steps(input, world, caps, m, cs).graph, EnteredEdges(input, world, caps, m, cs);
            g.nodes == m.graph.nodes + |entered| && g.admittedBytes == m.graph.admittedBytes + Sizes(entered) &&
            |m.graph.edges| <= |g.edges| &&
            (forall e :: e in entered ==> e in g.edges) &&
            forall k :: |m.graph.edges| <= k < |g.edges| && Ran(g.edges[k]) ==> g.edges[k] in entered
    decreases |cs|
  {
    hide Step, NextEdge, Enters, Sizes;
    if cs == [] {
      assert Sizes([]) == 0 by { NoSizes(); }
    } else {
      AdmissionsAreCounted(input, world, caps, m, cs[..|cs| - 1]);
      var n := Steps(input, world, caps, m, cs[..|cs| - 1]);
      StepCounts(input, world, caps, n, cs[|cs| - 1]);
      SizesGrow(EnteredEdges(input, world, caps, m, cs[..|cs| - 1]), NextEdge(input, world, caps, n, cs[|cs| - 1]));
    }
  }

  lemma NoSizes()
    ensures Sizes([]) == 0
  {
  }

  lemma SizesGrow(es: seq<Edge>, e: Edge)
    ensures Sizes(es + [e]) == Sizes(es) + e.size && es + [] == es
  {
    assert (es + [e])[..|es|] == es;
  }

  lemma StepCounts(input: string, world: ChildWorld, caps: Caps, m: Meter, a: Artifact)
    ensures var e, g := NextEdge(input, world, caps, m, a), Step(input, world, caps, m, a).graph;
            var entered := Enters(m, e.sha256, e.size, caps);
            g.edges == m.graph.edges + [e] && (Ran(e) ==> entered) &&
            g.nodes == m.graph.nodes + (if entered then 1 else 0) &&
            g.admittedBytes == m.graph.admittedBytes + (if entered then e.size else 0)
  {
    EdgeStates(input, world, caps, m, a);
    hide NextEdge, Inc32, Complete, Outcome;
  }

  /** A candidate is analysed exactly when it can be read, its digest is new, and depth, nodes, bytes, the directory's
      allowance and the file system all permit; it is reported exactly when the report is written too. */
  lemma AnalysedExactlyWhen(input: string, world: ChildWorld, caps: Caps, m: Meter, a: Artifact)
    ensures var k, g := |m.graph.edges|, Step(input, world, caps, m, a).graph;
            var p, lim, e := world.probe(a.path, k), m.graph.limits, g.edges[k];
            (e.sha256 == if !p.Regular? then "" else if a.sha256 != "" then a.sha256 else p.sha256) &&
            (e.size == match p case NotRegular => 0 case Unsized => 0xFFFF_FFFF_FFFF_FFFF case Regular(n, _) => n) &&
            (e.state == DuplicateSkipped <==> e.sha256 != "" && e.sha256 in m.known) &&
            (Ran(e) <==>
              e.sha256 != "" && e.sha256 !in m.known && lim.maxDepth >= 1 && m.graph.nodes < lim.maxNodes &&
              m.graph.admittedBytes + e.size <= lim.maxTotalBytes && m.files < caps.files && m.bytes < caps.bytes &&
              world.reset(k) && world.inspect(k) == Some(Tree(0, 0)) && m.bytes + world.payload(k) <= caps.bytes &&
              world.ensureDirectory(k) && world.pathFree(k)) &&
            (e.state == AnalyzedStatic <==> Ran(e) && world.write(k))
  {
    hide SatAdd, Inc32, Complete;
  }

  // Duplicates that mislead.

  /** An extracted file that is analysed automatically. */
  function Extracted(path: string): (a: Artifact)
    ensures a.path == path && (path != "" ==> High(a))
  {
    Artifact(path, "file", "extracted", "HIGH", "", "", false)
  }

  function FreshGraph(lim: Limits): Graph { Graph(lim, false, 1, 0, 0, 0, 0, 0, 0, []) }

  /** Two extracted files with equal content, whose report is one byte too large for what is left. */
  function TightWorld(payload: u64): ChildWorld {
    ChildWorld((_, _) => Regular(1, "s"), _ => true, _ => Some(Tree(0, 0)), _ => payload, _ => true, _ => true, _ => true)
  }

  /** One call: the report of "p" does not fit, so "p" is not analysed, and "q" is called a duplicate of it. */
  lemma UnwrittenReportIsNamed(lim: Limits, payload: u64)
    requires lim.maxDepth >= 1 && lim.maxNodes >= 2 && lim.maxTotalBytes >= 1 && payload > EARLY_BYTES
    ensures var es := Run(Root("i", "r"), TightWorld(payload), Caps(EARLY_BYTES, EARLY_FILES), FreshGraph(lim), 0, 1, [Extracted("p"), Extracted("q")]).graph.edges;
            |es| == 2 && es[0].state == SkippedDirectoryArtifactBudget &&
            es[1].state == DuplicateSkipped && es[1].duplicateOf == "p" && !NamesAnalysed(Root("i", "r"), es, 1)
  {
    var world, caps, p, q := TightWorld(payload), Caps(EARLY_BYTES, EARLY_FILES), Extracted("p"), Extracted("q");
    var m := Meter(FreshGraph(lim), KnownBefore(Root("i", "r"), []), 0, 1);
    assert [p, q][..1] == [p] && [p][..0] == [];
    var n := Step("i", world, caps, m, p);
    assert Steps("i", world, caps, m, [p]) == n;
    assert n.known["s"] == "p";
  }

  lemma OneStep(input: string, world: ChildWorld, caps: Caps, m: Meter, a: Artifact)
    ensures Steps(input, world, caps, m, [a]) == Step(input, world, caps, m, a)
  {
    hide Step;
    assert [a][..0] == [];
  }

  lemma KnownOne(root: Root, e: Edge)
    requires root.sha256 != "" && e.sha256 != "" && e.sha256 != root.sha256
    ensures KnownBefore(root, [e]) == map[root.sha256 := root.input][e.sha256 := e.child]
  {
    assert [e][..0] == [];
  }

  /** Two calls: with phase one's allowance used up "p" is refused; in phase two, with room again, "q" is called a
      duplicate of "p" although its content was never analysed. */
  lemma RefusedChildIsNamed(lim: Limits, payload: u64)
    requires lim.maxDepth >= 1 && lim.maxNodes >= 2 && lim.maxTotalBytes >= 1 && payload <= ARTIFACT_BYTES - EARLY_BYTES
    ensures var root, world := Root("i", "r"), TightWorld(payload);
            var g := Run(root, world, Caps(EARLY_BYTES, EARLY_FILES), FreshGraph(lim), EARLY_BYTES, 1, [Extracted("p")]).graph;
            var es := Run(root, world, Caps(ARTIFACT_BYTES, ARTIFACT_FILES), g, EARLY_BYTES, 1, [Extracted("q")]).graph.edges;
            |es| == 2 && es[0].state == SkippedDirectoryArtifactBudget &&
            es[1].state == DuplicateSkipped && es[1].duplicateOf == "p" && !NamesAnalysed(root, es, 1)
  {
    var root, world, p, q := Root("i", "r"), TightWorld(payload), Extracted("p"), Extracted("q");
    var early, late := Caps(EARLY_BYTES, EARLY_FILES), Caps(ARTIFACT_BYTES, ARTIFACT_FILES);
    var m := Meter(FreshGraph(lim), KnownBefore(root, []), EARLY_BYTES, 1);
    var g := Step("i", world, early, m, p).graph;
    OneStep("i", world, early, m, p);
    var e := NextEdge("i", world, early, m, p);
    assert KnownBefore(root, []) == map["r" := "i"];
    assert g.edges == [e] && e.sha256 == "s" && e.state == SkippedDirectoryArtifactBudget;
    KnownOne(root, e);
    var n := Meter(g, KnownBefore(root, [e]), EARLY_BYTES, 1);
    OneStep("i", world, late, n, q);
  }
}
