/** Child analysis under the shared allowance of a directory run (src/main.cpp:1412-1447). */
module BoundedChildren {
  import opened Common
  import opened ArtifactGraph

  const ARTIFACT_BYTES: int := 64 * 1024 * 1024
  const ARTIFACT_FILES: int := 512
  const EARLY_BYTES: int := 56 * 1024 * 1024
  const EARLY_FILES: int := 384

  /** The two counters that are passed around by reference. */
  class Ledger {
    var bytes: u64
    var files: u64

    constructor ()
      ensures bytes == 0 && files == 0
    {
      bytes, files := 0, 0;
    }

    predicate Within(maxBytes: u64, maxFiles: u64) reads this { bytes <= maxBytes && files <= maxFiles }

    method Charge(b: u64, f: u64)
      modifies this
      ensures bytes == SatAdd(old(bytes), b) && files == SatAdd(old(files), f)
    {
      bytes, files := SatAdd(bytes, b), SatAdd(files, f);
    }
  }

  /** What is left below a limit, never negative. */
  function Left(used: u64, max: u64): u64 { if used < max then max - used else 0 }

  datatype Tree = Tree(bytes: u64, files: u64)

  /** Answers of the world while child number k is being processed; None is an inspection failure. */
  datatype ChildWorld = ChildWorld(probe: (string, nat) -> Probe, reset: nat -> bool, inspect: nat -> Option<Tree>,
                                   payload: nat -> u64, ensureDirectory: nat -> bool, pathFree: nat -> bool, write: nat -> bool)

  datatype Caps = Caps(bytes: u64, files: u64)

  /** What one call works on: the graph, the known digests with their paths, and the ledger. */
  datatype Meter = Meter(graph: Graph, known: map<string, string>, bytes: u64, files: u64)

  /** The digest of a candidate as the code takes it; a preset digest saves the hashing. */
  function Digest(a: Artifact, p: Probe): string {
    if !p.Regular? then "" else if a.sha256 == "" then p.sha256 else a.sha256
  }

  // One child, as a function.

  /** The limits on a child that is not known, in order. They only get tighter. */
  function OverLimit(m: Meter, size: u64, caps: Caps): Option<EdgeState> {
    if 1 > m.graph.limits.maxDepth then Some(SkippedDepth)
    else if m.graph.nodes >= m.graph.limits.maxNodes then Some(SkippedNodeLimit)
    else if m.graph.admittedBytes > m.graph.limits.maxTotalBytes || size > m.graph.limits.maxTotalBytes - m.graph.admittedBytes then
      Some(SkippedByteLimit)
    else if m.files >= caps.files || m.bytes >= caps.bytes then Some(SkippedDirectoryArtifactBudget)
    else None
  }

  /** What becomes of an admitted child: analysis without output, then its report within the remaining allowance. */
  function Outcome(world: ChildWorld, k: nat, bytes: u64, files: u64, caps: Caps): EdgeState {
    if !world.reset(k) || world.inspect(k).None? then SkippedUnsafe
    else if world.inspect(k) != Some(Tree(0, 0)) then SkippedOutputInvariant
    else if files >= caps.files || world.payload(k) > Left(bytes, caps.bytes) then SkippedDirectoryArtifactBudget
    else if !world.ensureDirectory(k) || !world.pathFree(k) then SkippedUnsafe
    else if !world.write(k) then AnalyzedReportWriteFailed
    else AnalyzedStatic
  }

  /** The child gets into the graph, whatever becomes of its report. */
  predicate Enters(m: Meter, sha256: string, size: u64, caps: Caps) {
    sha256 != "" && sha256 !in m.known && OverLimit(m, size, caps).None?
  }

  function NextEdge(input: string, world: ChildWorld, caps: Caps, m: Meter, a: Artifact): Edge {
    var k := |m.graph.edges|;
    var p := world.probe(a.path, k);
    var sha, size := Digest(a, p), ProbedSize(p);
    var state :=
      if sha == "" then SkippedUnsafe
      else if sha in m.known then DuplicateSkipped
      else if OverLimit(m, size, caps).Some? then OverLimit(m, size, caps).value
      else Outcome(world, k, m.bytes, m.files, caps);
    Edge(input, a.path, if sha in m.known && sha != "" then m.known[sha] else "",
         if a.relation == "" then "auto_high_value" else a.relation, sha, state, size, 1)
  }

  predicate Skips(s: EdgeState) { LimitSkip(s) || s == SkippedDirectoryArtifactBudget || s == SkippedOutputInvariant }

  /** The graph with one more edge. */
  function Record(g: Graph, e: Edge, entered: bool): Graph {
    g.(edges := g.edges + [e],
       truncated := g.truncated || !Complete(e),
       nodes := if entered then g.nodes + 1 else g.nodes,
       admittedBytes := if entered then SatAdd(g.admittedBytes, e.size) else g.admittedBytes,
       deduplicated := if e.state == DuplicateSkipped then Inc32(g.deduplicated) else g.deduplicated,
       skippedUnsafe := if e.state == SkippedUnsafe then Inc32(g.skippedUnsafe) else g.skippedUnsafe,
       skippedLimits := if Skips(e.state) then Inc32(g.skippedLimits) else g.skippedLimits,
       materializedFiles := if e.sha256 != "" then Inc32(g.materializedFiles) else g.materializedFiles,
       materializedBytes := if e.sha256 != "" then SatAdd(g.materializedBytes, e.size) else g.materializedBytes)
  }

  function Step(input: string, world: ChildWorld, caps: Caps, m: Meter, a: Artifact): Meter {
    var e := NextEdge(input, world, caps, m, a);
    var entered := Enters(m, e.sha256, e.size, caps);
    Meter(Record(m.graph, e, entered),
          if entered then m.known[e.sha256 := a.path] else m.known,
          if e.state == AnalyzedStatic then SatAdd(m.bytes, world.payload(|m.graph.edges|)) else m.bytes,
          if e.state == AnalyzedStatic then SatAdd(m.files, 1) else m.files)
  }

  function Steps(input: string, world: ChildWorld, caps: Caps, m: Meter, cs: seq<Artifact>): Meter
    decreases |cs|
  {
    if cs == [] then m else Step(input, world, caps, Steps(input, world, caps, m, cs[..|cs| - 1]), cs[|cs| - 1])
  }

  /** The digests a call starts from: the root's, then those of every edge recorded before, admitted or not. */
  function KnownBefore(root: Root, es: seq<Edge>): map<string, string> {
    if es == [] then (if root.sha256 == "" then map[] else map[root.sha256 := root.input])
    else
      var before, e := KnownBefore(root, es[..|es| - 1]), es[|es| - 1];
      if e.sha256 != "" && e.sha256 !in before then before[e.sha256 := e.child] else before
  }

  /** A whole call. */
  function Run(root: Root, world: ChildWorld, caps: Caps, g: Graph, bytes: u64, files: u64, cs: seq<Artifact>): Meter {
    Steps(root.input, world, caps, Meter(g, KnownBefore(root, g.edges), bytes, files), cs)
  }

  // The code.

  /** An admitted child. */
  method WriteChildReport(world: ChildWorld, k: nat, ledger: Ledger, caps: Caps) returns (state: EdgeState)
    requires ledger.Within(caps.bytes, caps.files)
    modifies ledger
    ensures state == Outcome(world, k, old(ledger.bytes), old(ledger.files), caps)
    ensures ledger.Within(caps.bytes, caps.files)
    ensures state == AnalyzedStatic ==>
              ledger.bytes == old(ledger.bytes) + world.payload(k) && ledger.files == old(ledger.files) + 1
    ensures state != AnalyzedStatic ==> ledger.bytes == old(ledger.bytes) && ledger.files == old(ledger.files)
  {
    if !world.reset(k) { return SkippedUnsafe; }
    var unexpected := world.inspect(k);
    if unexpected.None? { return SkippedUnsafe; }
    if unexpected.value.files != 0 || unexpected.value.bytes != 0 { return SkippedOutputInvariant; }
    var payload := world.payload(k);
    if Left(ledger.files, caps.files) == 0 || payload > Left(ledger.bytes, caps.bytes) { return SkippedDirectoryArtifactBudget; }
    if !world.ensureDirectory(k) { return SkippedUnsafe; }
    if !world.pathFree(k) { return SkippedUnsafe; }
    if !world.write(k) { return AnalyzedReportWriteFailed; }
    ledger.Charge(payload, 1);
    return AnalyzedStatic;
  }

  /** A child that enters the graph is counted before its fate is known. */
  method AdmitChild(world: ChildWorld, k: nat, g: Graph, e0: Edge, ledger: Ledger, caps: Caps) returns (h: Graph, e: Edge)
    requires ledger.Within(caps.bytes, caps.files)
    modifies ledger
    ensures e == e0.(state := Outcome(world, k, old(ledger.bytes), old(ledger.files), caps))
    ensures h == g.(admittedBytes := SatAdd(g.admittedBytes, e.size), nodes := g.nodes + 1,
                    truncated := g.truncated || !Complete(e),
                    skippedUnsafe := if e.state == SkippedUnsafe then Inc32(g.skippedUnsafe) else g.skippedUnsafe,
                    skippedLimits := if Skips(e.state) then Inc32(g.skippedLimits) else g.skippedLimits)
    ensures e.state != DuplicateSkipped && ledger.Within(caps.bytes, caps.files)
    ensures ledger.bytes == old(ledger.bytes) + (if e.state == AnalyzedStatic then world.payload(k) else 0)
    ensures ledger.files == old(ledger.files) + (if e.state == AnalyzedStatic then 1 else 0)
  {
    hide Outcome, Inc32, SatAdd;
    h := g.(admittedBytes := SatAdd(g.admittedBytes, e0.size), nodes := g.nodes + 1);
    var state := WriteChildReport(world, k, ledger, caps);
    OutcomeStates(world, k, old(ledger.bytes), old(ledger.files), caps);
    e := e0.(state := state);
    if state == SkippedUnsafe {
      h := h.(truncated := true, skippedUnsafe := Inc32(h.skippedUnsafe));
    } else if state == SkippedOutputInvariant || state == SkippedDirectoryArtifactBudget {
      h := h.(truncated := true, skippedLimits := Inc32(h.skippedLimits));
    } else if state == AnalyzedReportWriteFailed {
      h := h.(truncated := true);
    }
  }

  /** The digest and size of a candidate; without a digest it cannot be read. */
  method TakeDigest(a: Artifact, p: Probe) returns (sha256: string, size: u64)
    ensures sha256 == Digest(a, p) && size == ProbedSize(p)
  {
    match p {
      case NotRegular => return "", 0;
      case Unsized => return "", U64_MAX;
      case Regular(n, hash) => return if a.sha256 != "" then a.sha256 else hash, n;
    }
  }

  /** The limits on a child that is not known; None admits it. */
  method Refusal(g: Graph, depth: nat, size: u64, ledger: Ledger, caps: Caps) returns (refusal: Option<EdgeState>)
    ensures depth == 1 ==> forall known :: refusal == OverLimit(Meter(g, known, ledger.bytes, ledger.files), size, caps)
    ensures refusal.Some? ==> refusal.value in {SkippedDepth, SkippedNodeLimit, SkippedByteLimit, SkippedDirectoryArtifactBudget}
  {
    if depth > g.limits.maxDepth { return Some(SkippedDepth); }
    if g.nodes >= g.limits.maxNodes { return Some(SkippedNodeLimit); }
    if g.admittedBytes > g.limits.maxTotalBytes || size > g.limits.maxTotalBytes - g.admittedBytes { return Some(SkippedByteLimit); }
    if ledger.files >= caps.files || ledger.bytes >= caps.bytes { return Some(SkippedDirectoryArtifactBudget); }
    return None;
  }

  /** One selected child. Only a written report is charged. */
  method BoundedChild(input: string, a: Artifact, world: ChildWorld, g: Graph, known: map<string, string>, ledger: Ledger, caps: Caps)
    returns (h: Graph, known': map<string, string>)
    requires ledger.Within(caps.bytes, caps.files)
    modifies ledger
    ensures Meter(h, known', ledger.bytes, ledger.files) ==
            Step(input, world, caps, Meter(g, known, old(ledger.bytes), old(ledger.files)), a)
    ensures ledger.Within(caps.bytes, caps.files)
    ensures var e := h.edges[|g.edges|];
            ledger.bytes == old(ledger.bytes) + (if e.state == AnalyzedStatic then world.payload(|g.edges|) else 0) &&
            ledger.files == old(ledger.files) + (if e.state == AnalyzedStatic then 1 else 0)
  {
    hide Outcome, Inc32, SatAdd, OverLimit, Digest, ProbedSize;
    var k := |g.edges|;
    var relation := if a.relation == "" then "auto_high_value" else a.relation;
    var sha, size := TakeDigest(a, world.probe(a.path, k));
    var e := Edge(input, a.path, "", relation, sha, SkippedUnsafe, size, 1);
    if sha == "" {
      h := g.(skippedUnsafe := Inc32(g.skippedUnsafe), truncated := true, edges := g.edges + [e]);
      known' := known;
    } else {
      h, known', e := BoundedReadable(world, g, known, e, ledger, caps);
    }
  }

  /** A hashed child counts as materialized; then it is a copy, is refused with a reason, or enters the graph. */
  method BoundedReadable(world: ChildWorld, g: Graph, known: map<string, string>, e0: Edge, ledger: Ledger, caps: Caps)
    returns (h: Graph, known': map<string, string>, e: Edge)
    requires ledger.Within(caps.bytes, caps.files)
    requires e0.sha256 != "" && e0.duplicateOf == "" && e0.depth == 1
    modifies ledger
    ensures var m := Meter(g, known, old(ledger.bytes), old(ledger.files));
            var entered := Enters(m, e0.sha256, e0.size, caps);
            e == (
              if e0.sha256 in known then e0.(state := DuplicateSkipped, duplicateOf := known[e0.sha256])
              else if !entered then e0.(state := OverLimit(m, e0.size, caps).value)
              else e0.(state := Outcome(world, |g.edges|, m.bytes, m.files, caps))) &&
            h == Record(g, e, entered) && known' == if entered then known[e0.sha256 := e0.child] else known
    ensures ledger.Within(caps.bytes, caps.files)
    ensures ledger.bytes == old(ledger.bytes) + (if e.state == AnalyzedStatic then world.payload(|g.edges|) else 0)
    ensures ledger.files == old(ledger.files) + (if e.state == AnalyzedStatic then 1 else 0)
  {
    hide Outcome, Inc32, SatAdd, OverLimit;
    h := g.(materializedFiles := Inc32(g.materializedFiles), materializedBytes := SatAdd(g.materializedBytes, e0.size));
    e, known' := e0, known;
    if e0.sha256 in known {
      e := e.(state := DuplicateSkipped, duplicateOf := known[e0.sha256]);
      h := h.(deduplicated := Inc32(h.deduplicated));
    } else {
      var refusal := Refusal(g, e0.depth, e0.size, ledger, caps);
      if refusal.Some? {
        e := e.(state := refusal.value);
        h := h.(skippedLimits := Inc32(h.skippedLimits), truncated := true);
      } else {
        known' := known[e0.sha256 := e0.child];
        h, e := AdmitChild(world, |g.edges|, h, e0, ledger, caps);
      }
    }
    h := h.(edges := h.edges + [e]);
  }

  lemma OutcomeStates(world: ChildWorld, k: nat, bytes: u64, files: u64, caps: Caps)
    ensures Outcome(world, k, bytes, files, caps) in
            {SkippedUnsafe, SkippedOutputInvariant, SkippedDirectoryArtifactBudget, AnalyzedReportWriteFailed, AnalyzedStatic}
  {
  }

  /** Bytes and number of the child reports written for the edges from index `from` on. */
  ghost function ReportBytes(world: ChildWorld, es: seq<Edge>, from: nat): nat
    decreases |es|
  {
    if |es| <= from then 0
    else ReportBytes(world, es[..|es| - 1], from) + (if es[|es| - 1].state == AnalyzedStatic then world.payload(|es| - 1) else 0)
  }

  ghost function ReportFiles(es: seq<Edge>, from: nat): nat
    decreases |es|
  {
    if |es| <= from then 0
    else ReportFiles(es[..|es| - 1], from) + (if es[|es| - 1].state == AnalyzedStatic then 1 else 0)
  }

  /** Every HIGH artifact of the selection has an edge of the call below the root, and every edge of the call is one of these. */
  ghost predicate HighSelected(input: string, selected: seq<Artifact>, from: seq<Edge>, es: seq<Edge>) {
    from <= es && (forall a :: a in selected && High(a) ==> HasEdge(input, a, |from|, es)) &&
    forall m :: |from| <= m < |es| ==> FromHigh(input, selected, es[m])
  }

  ghost predicate EdgeOf(input: string, a: Artifact, e: Edge) { e.parent == input && e.child == a.path && e.depth == 1 }

  ghost predicate HasEdge(input: string, a: Artifact, from: nat, es: seq<Edge>) {
    exists m :: from <= m < |es| && EdgeOf(input, a, es[m])
  }

  ghost predicate FromHigh(input: string, selected: seq<Artifact>, e: Edge) {
    exists a :: a in selected && High(a) && EdgeOf(input, a, e)
  }

  lemma HasEdgeStill(input: string, a: Artifact, from: nat, es: seq<Edge>, more: seq<Edge>)
    requires es <= more && HasEdge(input, a, from, es)
    ensures HasEdge(input, a, from, more)
  {
    hide EdgeOf;
    var m :| from <= m < |es| && EdgeOf(input, a, es[m]);
    assert more[m] == es[m];
  }

  lemma FromHighStill(input: string, before: seq<Artifact>, a: Artifact, e: Edge)
    requires FromHigh(input, before, e) || (High(a) && EdgeOf(input, a, e))
    ensures FromHigh(input, before + [a], e)
  {
    hide High, EdgeOf;
    if FromHigh(input, before, e) {
      var x :| x in before && High(x) && EdgeOf(input, x, e);
      assert x in before + [a];
    } else {
      assert a in before + [a];
    }
  }

  lemma SelectedMore(input: string, before: seq<Artifact>, a: Artifact, from: seq<Edge>, es: seq<Edge>, more: seq<Edge>)
    requires HighSelected(input, before, from, es)
    requires if High(a) then |more| == |es| + 1 && es == more[..|es|] && EdgeOf(input, a, more[|es|]) else more == es
    ensures HighSelected(input, before + [a], from, more)
  {
    assert High(a) ==> HasEdge(input, a, |from|, more);
    hide High, EdgeOf, HasEdge, FromHigh;
    assert es <= more;
    forall x | x in before + [a] && High(x) ensures HasEdge(input, x, |from|, more) {
      if x != a { HasEdgeStill(input, x, |from|, es, more); }
    }
    forall m | |from| <= m < |more| ensures FromHigh(input, before + [a], more[m]) {
      if m < |es| { assert more[m] == es[m]; }
      FromHighStill(input, before, a, more[m]);
    }
  }

  lemma NothingSelected(input: string, es: seq<Edge>)
    ensures HighSelected(input, [], es, es)
  {
  }

  lemma NextEdgeIs(input: string, world: ChildWorld, caps: Caps, m: Meter, a: Artifact)
    ensures EdgeOf(input, a, NextEdge(input, world, caps, m, a))
  {
    hide Outcome, OverLimit;
  }

  /** Child reports under a shared allowance: the graph and the ledger of the whole call, with exact charges. */
  method AnalyzeSelectedBounded(root: Root, g0: Graph, selected: seq<Artifact>, world: ChildWorld, ledger: Ledger, caps: Caps)
    returns (g: Graph)
    requires ledger.Within(caps.bytes, caps.files)
    modifies ledger
    ensures var m := Run(root, world, caps, g0, old(ledger.bytes), old(ledger.files), Candidates(selected));
            g == m.graph && ledger.bytes == m.bytes && ledger.files == m.files
    ensures ledger.Within(caps.bytes, caps.files)
    ensures ledger.bytes == old(ledger.bytes) + ReportBytes(world, g.edges, |g0.edges|)
    ensures ledger.files == old(ledger.files) + ReportFiles(g.edges, |g0.edges|)
    ensures HighSelected(root.input, selected, g0.edges, g.edges)
  {
    hide Candidates, Step, Steps, ReportBytes, ReportFiles, NextEdge, HighSelected, High, AutomaticCandidate;
    assert HighSelected(root.input, [], g0.edges, g0.edges) by { NothingSelected(root.input, g0.edges); }
    var known := KnownBefore(root, g0.edges);
    g := g0;
    ghost var start := Meter(g0, known, ledger.bytes, ledger.files);
    RunStarts(root.input, world, caps, start);
    assert selected[..0] == [];
    var i := 0;
    while i < |selected|
      invariant i <= |selected| && |g0.edges| <= |g.edges|
      invariant Meter(g, known, ledger.bytes, ledger.files) == Steps(root.input, world, caps, start, Candidates(selected[..i]))
      invariant ledger.Within(caps.bytes, caps.files)
      invariant ledger.bytes == old(ledger.bytes) + ReportBytes(world, g.edges, |g0.edges|)
      invariant ledger.files == old(ledger.files) + ReportFiles(g.edges, |g0.edges|)
      invariant HighSelected(root.input, selected[..i], g0.edges, g.edges)
    {
      CandidatesGrow(selected, i);
      CandidatesAreHigh(selected[i]);
      ghost var before := g.edges;
      assert selected[..i + 1] == selected[..i] + [selected[i]];
      if AutomaticCandidate(selected[i]) {
        label L:
        StepsGrow(root.input, world, caps, start, Candidates(selected[..i]), selected[i]);
        StepEdges(root.input, world, caps, Meter(g, known, ledger.bytes, ledger.files), selected[i]);
        var h, known' := BoundedChild(root.input, selected[i], world, g, known, ledger, caps);
        NextEdgeIs(root.input, world, caps, Meter(g, known, old@L(ledger.bytes), old@L(ledger.files)), selected[i]);
        ReportsGrow(world, g.edges, h.edges[|g.edges|], |g0.edges|);
        assert h.edges == g.edges + [h.edges[|g.edges|]];
        g, known := h, known';
      } else {
        assert Candidates(selected[..i]) + [] == Candidates(selected[..i]);
      }
      SelectedMore(root.input, selected[..i], selected[i], g0.edges, before, g.edges);
      i := i + 1;
    }
    assert selected[..|selected|] == selected;
  }

  lemma RunStarts(input: string, world: ChildWorld, caps: Caps, m: Meter)
    ensures Steps(input, world, caps, m, []) == m && Candidates([]) == []
    ensures ReportBytes(world, m.graph.edges, |m.graph.edges|) == 0 && ReportFiles(m.graph.edges, |m.graph.edges|) == 0
  {
  }

  lemma StepsGrow(input: string, world: ChildWorld, caps: Caps, m: Meter, cs: seq<Artifact>, a: Artifact)
    ensures Steps(input, world, caps, m, cs + [a]) == Step(input, world, caps, Steps(input, world, caps, m, cs), a)
  {
    hide Step;
    assert (cs + [a])[..|cs|] == cs;
  }

  lemma StepEdges(input: string, world: ChildWorld, caps: Caps, m: Meter, a: Artifact)
    ensures Step(input, world, caps, m, a).graph.edges == m.graph.edges + [NextEdge(input, world, caps, m, a)]
    ensures Step(input, world, caps, m, a).graph.limits == m.graph.limits
  {
  }

  lemma ReportsGrow(world: ChildWorld, es: seq<Edge>, e: Edge, from: nat)
    requires from <= |es|
    ensures ReportBytes(world, es + [e], from) == ReportBytes(world, es, from) + (if e.state == AnalyzedStatic then world.payload(|es|) else 0)
    ensures ReportFiles(es + [e], from) == ReportFiles(es, from) + (if e.state == AnalyzedStatic then 1 else 0)
  {
    assert (es + [e])[..|es|] == es;
  }

  lemma {:induction false} CandidatesGrow(s: seq<Artifact>, i: nat)
    requires i < |s|
    ensures Candidates(s[..i + 1]) == Candidates(s[..i]) + (if AutomaticCandidate(s[i]) then [s[i]] else [])
    decreases |s|
  {
    hide AutomaticCandidate, Candidates;
    CandidatesFirst(s[..i + 1]);
    if i > 0 {
      CandidatesFirst(s[..i]);
      CandidatesGrow(s[1..], i - 1);
      assert s[..i + 1][1..] == s[1..][..i] && s[..i][1..] == s[1..][..i - 1];
    } else {
      CandidatesNone();
      assert s[..1][1..] == [] && s[..0] == [];
    }
  }

  lemma CandidatesFirst(s: seq<Artifact>)
    requires s != []
    ensures Candidates(s) == (if AutomaticCandidate(s[0]) then [s[0]] else []) + Candidates(s[1..])
  {
    hide AutomaticCandidate;
  }

  lemma CandidatesNone()
    ensures Candidates([]) == []
  {
  }
}
