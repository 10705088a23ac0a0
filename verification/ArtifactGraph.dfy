/** Artifact graphs: edges, their accounting, and the decision taken for every child
    (include/prts/report.hpp:56-64, src/main.cpp:1345-1402). */
module ArtifactGraph {
  import opened Common

  datatype Artifact = Artifact(path: string, kind: string, role: string, priority: string, relation: string,
                               sha256: string, runtimeConfirmed: bool)

  /** Which artifacts are analysed as children without being asked for. */
  predicate AutomaticCandidate(a: Artifact) {
    a.priority == "HIGH" && a.path != "" && !a.runtimeConfirmed &&
    a.role != "analysis_map" && a.role != "static_child_report" && a.kind != "analysis_report" && a.kind != "pyinstaller_pyz"
  }

  /** The same on the fields: a HIGH artifact with a path, not confirmed by the runtime, that is neither a derivative of
      an analysis nor a raw archive. */
  ghost predicate High(a: Artifact) {
    a.priority == "HIGH" && |a.path| > 0 && a.runtimeConfirmed == false &&
    a.role !in {"analysis_map", "static_child_report"} && a.kind !in {"analysis_report", "pyinstaller_pyz"}
  }

  lemma CandidatesAreHigh(a: Artifact)
    ensures AutomaticCandidate(a) <==> High(a)
  {
  }

  function Candidates(s: seq<Artifact>): (r: seq<Artifact>)
    ensures forall a :: a in r <==> a in s && AutomaticCandidate(a)
  {
    if s == [] then []
    else (if AutomaticCandidate(s[0]) then [s[0]] else []) + Candidates(s[1..])
  }

  /** What the file system says about a path; an unreadable file has the empty digest. */
  datatype Probe = NotRegular | Unsized | Regular(size: u64, sha256: string)

  /** The size an edge gets: a failed size query answers with the largest number. */
  function ProbedSize(p: Probe): u64 { if p.Regular? then p.size else if p.Unsized? then U64_MAX else 0 }

  function ProbedSha(p: Probe): string { if p.Regular? then p.sha256 else "" }

  datatype EdgeState =
    | SkippedUnsafe | DuplicateSkipped | SkippedDepth | SkippedByteLimit | SkippedNodeLimit
    | SkippedDirectoryArtifactBudget | SkippedOutputInvariant | AnalyzedStatic | AnalyzedReportWriteFailed | Admitted

  datatype Edge = Edge(parent: string, child: string, duplicateOf: string, relation: string, sha256: string,
                       state: EdgeState, size: u64, depth: nat)

  datatype Limits = Limits(maxDepth: nat, maxNodes: u32, maxTotalBytes: u64)

  datatype Graph = Graph(limits: Limits, truncated: bool, nodes: nat, deduplicated: u32, skippedLimits: u32,
                         skippedUnsafe: u32, materializedFiles: u32, materializedBytes: u64, admittedBytes: u64,
                         edges: seq<Edge>)

  datatype Root = Root(input: string, sha256: string)

  /** The outside world. Every answer may depend on the number of edges recorded so far, so nothing is
      assumed about files or analyses staying the same. */
  datatype World = World(probe: (string, nat) -> Probe,
                         makeDirectory: nat -> bool,
                         analyze: (string, nat, u64, u32) -> seq<Artifact>,
                         writeReport: nat -> bool)

  predicate Ran(e: Edge) { e.state == AnalyzedStatic || e.state == AnalyzedReportWriteFailed }

  /** The child passed admission: it was analysed, or its directory could not be made. */
  predicate Admits(e: Edge) { Ran(e) || (e.state == SkippedUnsafe && e.sha256 != "") }

  predicate LimitSkip(s: EdgeState) { s == SkippedDepth || s == SkippedByteLimit || s == SkippedNodeLimit }

  /** Edges after which the graph is still complete. */
  predicate Complete(e: Edge) { e.state == AnalyzedStatic || e.state == DuplicateSkipped }

  function Count(es: seq<Edge>, s: EdgeState): nat {
    if es == [] then 0 else Count(es[..|es| - 1], s) + (if es[|es| - 1].state == s then 1 else 0)
  }

  function Hashes(es: seq<Edge>): nat {
    if es == [] then 0 else Hashes(es[..|es| - 1]) + (if es[|es| - 1].sha256 != "" then 1 else 0)
  }

  function HashedBytes(es: seq<Edge>): nat {
    if es == [] then 0 else HashedBytes(es[..|es| - 1]) + (if es[|es| - 1].sha256 != "" then es[|es| - 1].size else 0)
  }

  function AdmittedCount(es: seq<Edge>): nat {
    if es == [] then 0 else AdmittedCount(es[..|es| - 1]) + (if Admits(es[|es| - 1]) then 1 else 0)
  }

  function AdmittedBytes(es: seq<Edge>): nat {
    if es == [] then 0 else AdmittedBytes(es[..|es| - 1]) + (if Admits(es[|es| - 1]) then es[|es| - 1].size else 0)
  }

  /** The first admitted path of every digest, the root's included. */
  function FirstBySha(root: Root, es: seq<Edge>): map<string, string> {
    if es == [] then (if root.sha256 == "" then map[] else map[root.sha256 := root.input])
    else
      var e := es[|es| - 1];
      var before := FirstBySha(root, es[..|es| - 1]);
      if Admits(e) then before[e.sha256 := e.child] else before
  }

  /** Every counter of the graph is the count it claims to be; the 32-bit ones wrap. */
  ghost predicate Accounts(g: Graph) {
    var es := g.edges;
    g.nodes == 1 + AdmittedCount(es) &&
    g.admittedBytes == AdmittedBytes(es) &&
    g.deduplicated == Count(es, DuplicateSkipped) % U32_LIMIT &&
    g.skippedUnsafe == Count(es, SkippedUnsafe) % U32_LIMIT &&
    g.skippedLimits == (Count(es, SkippedDepth) + Count(es, SkippedByteLimit) + Count(es, SkippedNodeLimit)) % U32_LIMIT &&
    g.materializedFiles == Hashes(es) % U32_LIMIT &&
    g.materializedBytes == Min(HashedBytes(es), U64_MAX) &&
    (g.truncated <==> exists e :: e in es && !Complete(e))
  }

  /** The change of the counters that one more edge causes. */
  ghost predicate Recorded(g: Graph, h: Graph, e: Edge) {
    h == g.(edges := g.edges + [e],
            truncated := g.truncated || !Complete(e),
            nodes := if Admits(e) then g.nodes + 1 else g.nodes,
            admittedBytes := h.admittedBytes,
            deduplicated := if e.state == DuplicateSkipped then Inc32(g.deduplicated) else g.deduplicated,
            skippedUnsafe := if e.state == SkippedUnsafe then Inc32(g.skippedUnsafe) else g.skippedUnsafe,
            skippedLimits := if LimitSkip(e.state) then Inc32(g.skippedLimits) else g.skippedLimits,
            materializedFiles := if e.sha256 != "" then Inc32(g.materializedFiles) else g.materializedFiles,
            materializedBytes := if e.sha256 != "" then SatAdd(g.materializedBytes, e.size) else g.materializedBytes) &&
    h.admittedBytes == g.admittedBytes + (if Admits(e) then e.size else 0)
  }

  lemma IncrementWraps(n: nat)
    ensures Inc32(n % U32_LIMIT) == (n + 1) % U32_LIMIT
  {
  }

  lemma CountsGrow(es: seq<Edge>, e: Edge)
    ensures forall s :: Count(es + [e], s) == Count(es, s) + (if e.state == s then 1 else 0)
    ensures Hashes(es + [e]) == Hashes(es) + (if e.sha256 != "" then 1 else 0)
    ensures HashedBytes(es + [e]) == HashedBytes(es) + (if e.sha256 != "" then e.size else 0)
    ensures AdmittedCount(es + [e]) == AdmittedCount(es) + (if Admits(e) then 1 else 0)
    ensures AdmittedBytes(es + [e]) == AdmittedBytes(es) + (if Admits(e) then e.size else 0)
  {
    assert (es + [e])[..|es|] == es;
  }

  lemma RecordedKeepsAccounts(g: Graph, h: Graph, e: Edge)
    requires Accounts(g) && Recorded(g, h, e)
    ensures Accounts(h)
  {
    hide Count, Hashes, HashedBytes, AdmittedCount, AdmittedBytes, Inc32;
    var es := g.edges;
    CountsGrow(es, e);
    IncrementWraps(Count(es, DuplicateSkipped));
    IncrementWraps(Count(es, SkippedUnsafe));
    IncrementWraps(Count(es, SkippedDepth) + Count(es, SkippedByteLimit) + Count(es, SkippedNodeLimit));
    IncrementWraps(Hashes(es));
    assert e in h.edges;
    assert forall x :: x in h.edges <==> x in g.edges || x == e;
  }

  /** Why the edge e follows the edges es: the first rule that applies, in the order of the code. */
  ghost predicate Justified(root: Root, lim: Limits, es: seq<Edge>, e: Edge) {
    var known := FirstBySha(root, es);
    var fits := AdmittedBytes(es) <= lim.maxTotalBytes && e.size <= lim.maxTotalBytes - AdmittedBytes(es);
    var room := 1 + AdmittedCount(es) < lim.maxNodes;
    match e.state
    case DuplicateSkipped => e.sha256 in known && e.duplicateOf == known[e.sha256]
    case SkippedDepth => e.sha256 !in known && e.depth > lim.maxDepth
    case SkippedByteLimit => e.sha256 !in known && e.depth <= lim.maxDepth && !fits
    case SkippedNodeLimit => e.sha256 !in known && e.depth <= lim.maxDepth && fits && !room
    case SkippedUnsafe => e.sha256 == "" || (e.sha256 !in known && e.depth <= lim.maxDepth && fits && room)
    case AnalyzedStatic => e.sha256 != "" && e.sha256 !in known && e.depth <= lim.maxDepth && fits && room
    case AnalyzedReportWriteFailed => e.sha256 != "" && e.sha256 !in known && e.depth <= lim.maxDepth && fits && room
    case _ => false
  }

  ghost predicate AllJustified(root: Root, lim: Limits, es: seq<Edge>) {
    es == [] || (AllJustified(root, lim, es[..|es| - 1]) && Justified(root, lim, es[..|es| - 1], es[|es| - 1]))
  }

  /** Node, byte and depth limits hold, whatever the world answers. */
  lemma {:induction false} LimitsAreKept(root: Root, lim: Limits, es: seq<Edge>)
    requires AllJustified(root, lim, es)
    ensures 1 + AdmittedCount(es) <= Max(1, lim.maxNodes)
    ensures AdmittedBytes(es) <= lim.maxTotalBytes
    ensures forall e :: e in es && Admits(e) ==> e.depth <= lim.maxDepth
  {
    if es != [] {
      var before, last := es[..|es| - 1], es[|es| - 1];
      LimitsAreKept(root, lim, before);
      assert es == before + [last];
    }
  }

  /** The digests known are the root's and those of the admitted edges. */
  lemma {:induction false} KnownDigests(root: Root, es: seq<Edge>)
    ensures forall s :: s in FirstBySha(root, es) <==>
              (s == root.sha256 && s != "") || exists k :: 0 <= k < |es| && Admits(es[k]) && es[k].sha256 == s
  {
    if es != [] {
      var n := |es| - 1;
      KnownDigests(root, es[..n]);
      forall s ensures s in FirstBySha(root, es) <==>
          (s == root.sha256 && s != "") || exists k :: 0 <= k < |es| && Admits(es[k]) && es[k].sha256 == s
      {
        if k :| 0 <= k < n && Admits(es[..n][k]) && es[..n][k].sha256 == s { assert Admits(es[k]); }
        if k :| 0 <= k < |es| && Admits(es[k]) && es[k].sha256 == s && k < n { assert Admits(es[..n][k]); }
      }
    }
  }

  /** No digest is admitted twice, and the root is never admitted as its own child. */
  lemma {:induction false} AdmittedOnce(root: Root, lim: Limits, es: seq<Edge>, j: nat, k: nat)
    requires AllJustified(root, lim, es)
    requires j < |es| && Admits(es[j])
    ensures es[j].sha256 != "" && es[j].sha256 != root.sha256
    ensures j < k < |es| && Admits(es[k]) ==> es[j].sha256 != es[k].sha256
    decreases |es|
  {
    var n := |es| - 1;
    if j == n {
      KnownDigests(root, es[..n]);
    } else if k == n {
      AdmittedOnce(root, lim, es[..n], j, j);
      KnownDigests(root, es[..n]);
      assert es[..n][j] == es[j];
    } else {
      AdmittedOnce(root, lim, es[..n], j, k);
    }
  }

  /** A duplicate points at the root or at the one admitted edge with the same digest. */
  lemma {:induction false} FirstPathIsAdmitted(root: Root, es: seq<Edge>, s: string)
    requires s in FirstBySha(root, es)
    ensures (s == root.sha256 && FirstBySha(root, es)[s] == root.input) ||
            exists k :: 0 <= k < |es| && Admits(es[k]) && es[k].sha256 == s && es[k].child == FirstBySha(root, es)[s]
  {
    if es != [] {
      var n := |es| - 1;
      if Admits(es[n]) && es[n].sha256 == s {
      } else {
        FirstPathIsAdmitted(root, es[..n], s);
        if k :| 0 <= k < n && Admits(es[..n][k]) && es[..n][k].sha256 == s && es[..n][k].child == FirstBySha(root, es[..n])[s] {
          assert Admits(es[k]) && es[k].child == FirstBySha(root, es)[s];
        }
      }
    }
  }

  /** Every edge is counted exactly once. */
  lemma {:induction false} EdgesAreConserved(root: Root, lim: Limits, es: seq<Edge>)
    requires AllJustified(root, lim, es)
    ensures |es| == Count(es, AnalyzedStatic) + Count(es, AnalyzedReportWriteFailed) + Count(es, DuplicateSkipped) +
                    (Count(es, SkippedDepth) + Count(es, SkippedByteLimit) + Count(es, SkippedNodeLimit)) +
                    Count(es, SkippedUnsafe)
  {
    if es != [] { EdgesAreConserved(root, lim, es[..|es| - 1]); }
  }
}
