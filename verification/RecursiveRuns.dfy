/** What a whole recursive run promises: closure, de-duplication and its limits (src/main.cpp:2384-2421). */
module RecursiveRuns {
  import opened Common
  import opened ArtifactGraph
  import opened RecursiveGraph

  // Closure.

  /** The parent of an edge is a reported node one level higher that extracted the child. */
  lemma ParentsAreReported(world: NodeWorld, lim: Limits, started: seq<string>, reports: seq<Report>, es: seq<Edge>, k: nat)
    requires Explored(world, lim, started, reports, es) && k < |es|
    ensures exists r :: r in reports && r.item.path == es[k].parent && r.item.depth + 1 == es[k].depth &&
                        (es[k].child, es[k].relation) in r.node.children
  {
    var i := Offerer(world, lim, |started|, reports, es, k);
    assert reports[..i + 1][i] == reports[i];
    assert reports[i] in reports;
  }

  /** The j-th child of the i-th report has its edge behind those of the reports before. */
  lemma {:induction false} ChildrenHaveEdges(world: NodeWorld, lim: Limits, roots: nat, reports: seq<Report>, es: seq<Edge>,
                                             i: nat, j: nat)
    requires Traced(world, lim, roots, reports, es) && i < |reports| && j < |reports[i].node.children|
    ensures var k, r := Offered(reports[..i]) + j, reports[i];
            k < |es| && es[k].parent == r.item.path && es[k].depth == r.item.depth + 1 &&
            (es[k].child, es[k].relation) == r.node.children[j]
    decreases |reports|
  {
    hide Analysed, Offers;
    var last := |reports| - 1;
    var n := |es| - |reports[last].node.children|;
    EveryChildHasAnEdge(world, lim, roots, reports[..last], es[..n]);
    if i == last {
      OfferedChild(world, lim, roots, reports, es, n, j);
    } else {
      ChildrenHaveEdges(world, lim, roots, reports[..last], es[..n], i, j);
      assert reports[..last][..i] == reports[..i];
    }
  }

  lemma OfferedChild(world: NodeWorld, lim: Limits, roots: nat, reports: seq<Report>, es: seq<Edge>, n: nat, j: nat)
    requires reports != [] && Offers(world, lim, roots, reports, es, n, |es|) && n + j < |es|
    ensures var r := reports[|reports| - 1];
            j < |r.node.children| && es[n + j].parent == r.item.path && es[n + j].depth == r.item.depth + 1 &&
            (es[n + j].child, es[n + j].relation) == r.node.children[j]
  {
    assert Ruled(world, lim, roots, reports, es[..n + j], es[n + j]);
  }

  /** A duplicate names a path with its digest: that of a report or of a child admitted earlier. */
  lemma DuplicatesAreNamed(world: NodeWorld, lim: Limits, started: seq<string>, reports: seq<Report>, es: seq<Edge>, k: nat)
    requires Explored(world, lim, started, reports, es) && k < |es| && es[k].state == DuplicateSkipped
    ensures (exists r :: r in reports && r.node.sha256 == es[k].sha256 && r.item.path == es[k].duplicateOf) ||
            exists e :: e in es[..k] && e.state == Admitted && e.sha256 == es[k].sha256 && e.child == es[k].duplicateOf
  {
    var i := Offerer(world, lim, |started|, reports, es, k);
    assert forall r :: r in reports[..i + 1] ==> r in reports;
  }

  /** The report of every admitted child shows the digest its edge was admitted with. */
  ghost predicate SameDigests(roots: nat, reports: seq<Report>, es: seq<Edge>) {
    |reports| == roots + |AdmittedEdges(es)| &&
    forall j :: 0 <= j < |AdmittedEdges(es)| ==> reports[roots + j].node.sha256 == AdmittedEdges(es)[j].sha256
  }

  /** An admitted edge has its place among the admitted ones. */
  lemma {:induction false} PlaceOf(es: seq<Edge>, k: nat) returns (j: nat)
    requires k < |es| && es[k].state == Admitted
    ensures j < |AdmittedEdges(es)| && AdmittedEdges(es)[j] == es[k] && j == |AdmittedEdges(es[..k])|
    decreases |es|
  {
    var last := |es| - 1;
    if k == last {
      j := |AdmittedEdges(es[..last])|;
    } else {
      j := PlaceOf(es[..last], k);
      assert es[..last][..k] == es[..k];
    }
  }

  /** And every place belongs to an admitted edge. */
  lemma {:induction false} EdgeAt(es: seq<Edge>, j: nat) returns (k: nat)
    requires j < |AdmittedEdges(es)|
    ensures k < |es| && es[k].state == Admitted && AdmittedEdges(es)[j] == es[k] && j == |AdmittedEdges(es[..k])|
    decreases |es|
  {
    var last := |es| - 1;
    if j < |AdmittedEdges(es[..last])| {
      k := EdgeAt(es[..last], j);
      assert es[..last][..k] == es[..k];
    } else {
      k := last;
    }
  }

  /** If nothing was left out, every readable extracted child has the digest of a reported node. */
  lemma UntruncatedRunIsClosed(world: NodeWorld, started: seq<string>, reports: seq<Report>, g: Graph, inputs: nat, k: nat)
    requires Explored(world, g.limits, started, reports, g.edges) && CutsCounted(g, inputs, reports) && !g.truncated
    requires SameDigests(|started|, reports, g.edges) && k < |g.edges| && g.edges[k].sha256 != ""
    ensures exists r :: r in reports && r.node.sha256 == g.edges[k].sha256
  {
    var es := g.edges;
    var i := Offerer(world, g.limits, |started|, reports, es, k);
    NoCuts(es, k);
    var e := es[k];
    if e.state == DuplicateSkipped && !(exists r :: r in reports[..i + 1] && r.node.sha256 == e.sha256) {
      var a :| a in es[..k] && a.state == Admitted && a.sha256 == e.sha256;
      var n :| 0 <= n < k && es[..k][n] == a;
      ReportOf(|started|, reports, es, n);
    } else if e.state == Admitted {
      ReportOf(|started|, reports, es, k);
    }
  }

  lemma ReportOf(roots: nat, reports: seq<Report>, es: seq<Edge>, k: nat)
    requires SameDigests(roots, reports, es) && k < |es| && es[k].state == Admitted
    ensures exists r :: r in reports && r.node.sha256 == es[k].sha256
  {
    var j := PlaceOf(es, k);
    assert reports[roots + j] in reports;
  }

  lemma {:induction false} NoCuts(es: seq<Edge>, k: nat)
    requires Cuts(es) == 0 && k < |es|
    ensures !LimitSkip(es[k].state)
    decreases |es|
  {
    if k < |es| - 1 { NoCuts(es[..|es| - 1], k); }
  }

  // De-duplication.

  /** The m-th report came after the edge k. */
  ghost predicate Later(reports: seq<Report>, k: nat, m: nat)
    requires m <= |reports|
  {
    k < Offered(reports[..m])
  }

  lemma OfferedMonotone(reports: seq<Report>, a: nat, b: nat)
    requires a <= b <= |reports|
    ensures Offered(reports[..a]) <= Offered(reports[..b])
  {
    OfferedGrows(reports[..b], a);
    assert reports[..b][..a] == reports[..a];
  }

  /** An admitted digest differs from that of every node analysed before. */
  lemma AdmittedIsNew(world: NodeWorld, lim: Limits, started: seq<string>, reports: seq<Report>, es: seq<Edge>, k: nat, m: nat)
    requires Explored(world, lim, started, reports, es)
    requires k < |es| && es[k].state == Admitted && m < |reports| && !Later(reports, k, m)
    ensures es[k].sha256 != "" && es[k].sha256 != reports[m].node.sha256
  {
    var i := Offerer(world, lim, |started|, reports, es, k);
    if m > i { OfferedMonotone(reports, i + 1, m); }
    assert reports[..i + 1][m] == reports[m];
    assert reports[m] in reports[..i + 1];
  }

  /** No content is analysed twice. */
  ghost predicate AnalysedOnce(reports: seq<Report>) {
    forall i, j :: 0 <= i < j < |reports| && reports[i].node.sha256 != "" ==> reports[i].node.sha256 != reports[j].node.sha256
  }

  ghost predicate DistinctRoots(roots: nat, reports: seq<Report>)
    requires roots <= |reports|
  {
    AnalysedOnce(reports[..roots])
  }

  /** No admitted child has the digest of an input that is still waiting. */
  ghost predicate NoWaitingRoot(roots: nat, reports: seq<Report>, es: seq<Edge>)
    requires roots <= |reports|
  {
    forall k, m :: 0 <= k < |es| && 0 <= m < roots && es[k].state == Admitted && Later(reports, k, m) ==>
      es[k].sha256 != reports[m].node.sha256
  }

  /** Exactly when de-duplication keeps its promise: the inputs differ, and no child admitted is a copy of an input
      that is still waiting. Digests of analysed inputs and of admitted children are compared, waiting inputs are not. */
  lemma AnalysedOnceExactlyWhen(world: NodeWorld, lim: Limits, started: seq<string>, reports: seq<Report>, es: seq<Edge>)
    requires Explored(world, lim, started, reports, es) && SameDigests(|started|, reports, es)
    ensures AnalysedOnce(reports) <==> DistinctRoots(|started|, reports) && NoWaitingRoot(|started|, reports, es)
  {
    hide Explored, AnalysedOnce, NoWaitingRoot;
    if DistinctRoots(|started|, reports) && NoWaitingRoot(|started|, reports, es) {
      DistinctFollows(world, lim, started, reports, es);
    }
    if AnalysedOnce(reports) { DistinctNeeds(world, lim, started, reports, es); }
  }

  lemma DistinctNeeds(world: NodeWorld, lim: Limits, started: seq<string>, reports: seq<Report>, es: seq<Edge>)
    requires Explored(world, lim, started, reports, es) && SameDigests(|started|, reports, es) && AnalysedOnce(reports)
    ensures DistinctRoots(|started|, reports) && NoWaitingRoot(|started|, reports, es)
  {
    hide Explored, Later, SameDigests;
    assert |started| <= |reports| by { RootsAreReported(|started|, reports, es); }
    PrefixAnalysedOnce(reports, |started|);
    hide AnalysedOnce;
    forall k, m | 0 <= k < |es| && 0 <= m < |started| && es[k].state == Admitted && Later(reports, k, m)
      ensures es[k].sha256 != reports[m].node.sha256
    {
      ChildDiffersFromRoot(world, lim, started, reports, es, k, m);
    }
  }

  lemma RootsAreReported(roots: nat, reports: seq<Report>, es: seq<Edge>)
    requires SameDigests(roots, reports, es)
    ensures roots <= |reports|
  {
  }

  lemma PrefixAnalysedOnce(reports: seq<Report>, n: nat)
    requires AnalysedOnce(reports) && n <= |reports|
    ensures AnalysedOnce(reports[..n])
  {
  }

  lemma ChildDiffersFromRoot(world: NodeWorld, lim: Limits, started: seq<string>, reports: seq<Report>, es: seq<Edge>, k: nat, m: nat)
    requires Explored(world, lim, started, reports, es) && SameDigests(|started|, reports, es) && AnalysedOnce(reports)
    requires k < |es| && es[k].state == Admitted && m < |started|
    ensures es[k].sha256 != reports[m].node.sha256
  {
    hide AdmittedEdges, Traced;
    AdmissionsAreUnique(world, lim, |started|, reports, es);
    var j := PlaceOf(es, k);
    assert reports[|started| + j].node.sha256 == es[k].sha256;
  }

  lemma DistinctFollows(world: NodeWorld, lim: Limits, started: seq<string>, reports: seq<Report>, es: seq<Edge>)
    requires Explored(world, lim, started, reports, es) && SameDigests(|started|, reports, es)
    requires DistinctRoots(|started|, reports) && NoWaitingRoot(|started|, reports, es)
    ensures AnalysedOnce(reports)
  {
    hide Explored, Later;
    var roots := |started|;
    forall i, j | 0 <= i < j < |reports| && reports[i].node.sha256 != "" ensures reports[i].node.sha256 != reports[j].node.sha256 {
      if j < roots {
        assert reports[..roots][i] == reports[i] && reports[..roots][j] == reports[j];
      } else {
        var k := EdgeAt(es, j - roots);
        if i < roots {
          if !Later(reports, k, i) { AdmittedIsNew(world, lim, started, reports, es, k, i); }
        } else {
          var h := EdgeAt(es, i - roots);
          AdmissionsDiffer(world, lim, started, reports, es, h, k);
        }
      }
    }
  }

  lemma AdmissionsDiffer(world: NodeWorld, lim: Limits, started: seq<string>, reports: seq<Report>, es: seq<Edge>, h: nat, k: nat)
    requires Explored(world, lim, started, reports, es) && h < |es| && k < |es|
    requires es[h].state == Admitted && es[k].state == Admitted && |AdmittedEdges(es[..h])| != |AdmittedEdges(es[..k])|
    ensures es[h].sha256 != es[k].sha256
  {
    assert h != k;
    AdmissionsAreUnique(world, lim, |started|, reports, es);
  }

  /** With one input no content is ever analysed twice, so cycles of extraction end. */
  lemma OneInputIsAnalysedOnce(world: NodeWorld, lim: Limits, started: seq<string>, reports: seq<Report>, es: seq<Edge>)
    requires Explored(world, lim, started, reports, es) && SameDigests(|started|, reports, es) && |started| <= 1
    ensures AnalysedOnce(reports)
  {
    hide Explored;
    assert reports[..0] == [];
    assert forall k, m :: 0 <= k < |es| && 0 <= m < |started| ==> !Later(reports, k, m);
    AnalysedOnceExactlyWhen(world, lim, started, reports, es);
  }

  // Inputs on which it is not kept.

  /** The world in which every file has the one digest and nothing is extracted. */
  function EqualFiles(): NodeWorld { NodeWorld((_, _, _, _, _) => Node("s", 0, false, []), (_, _) => NotRegular) }

  /** The first reports are those of the inputs. */
  lemma RootReports(world: NodeWorld, lim: Limits, started: seq<string>, reports: seq<Report>, es: seq<Edge>, i: nat)
    requires Explored(world, lim, started, reports, es) && i < |started|
    ensures i < |started| <= |reports| && reports[i].item == RootItem(started[i])
    ensures exists x: bool, b: u64, f: nat :: reports[i].node == world.analyze(started[i], i, x, b, f)
  {
    hide Traced;
    assert Visited(reports)[i] == Items(started, es)[i];
    ReportIsAnswer(world, lim, |started|, reports, es, i);
  }

  /** Behind them come those of the admitted children. */
  lemma ChildReports(world: NodeWorld, lim: Limits, started: seq<string>, reports: seq<Report>, es: seq<Edge>, k: nat)
    requires Explored(world, lim, started, reports, es) && k < |es| && es[k].state == Admitted
    ensures var i := |started| + |AdmittedEdges(es[..k])|;
            i < |reports| && reports[i].item == ChildItem(es[k]) &&
            exists x: bool, b: u64, f: nat :: reports[i].node == world.analyze(es[k].child, i, x, b, f)
  {
    hide Traced, AdmittedEdges;
    var j := PlaceOf(es, k);
    assert Visited(reports)[|started| + j] == Items(started, es)[|started| + j];
    ReportIsAnswer(world, lim, |started|, reports, es, |started| + j);
  }

  /** Two equal inputs are both analysed. */
  lemma EqualInputsAreBothAnalysed(lim: Limits, reports: seq<Report>, es: seq<Edge>)
    requires Explored(EqualFiles(), lim, ["a", "b"], reports, es)
    ensures |reports| >= 2 && reports[0].node.sha256 == "s" == reports[1].node.sha256 && !AnalysedOnce(reports)
  {
    hide Explored;
    RootReports(EqualFiles(), lim, ["a", "b"], reports, es, 0);
    RootReports(EqualFiles(), lim, ["a", "b"], reports, es, 1);
  }

  /** The i-th report is the world's answer for its path. */
  lemma {:induction false} ReportIsAnswer(world: NodeWorld, lim: Limits, roots: nat, reports: seq<Report>, es: seq<Edge>, i: nat)
    requires Traced(world, lim, roots, reports, es) && i < |reports|
    ensures exists x: bool, b: u64, f: nat :: reports[i].node == world.analyze(reports[i].item.path, i, x, b, f)
    decreases |reports|
  {
    hide Offers;
    var last := |reports| - 1;
    var before := es[..|es| - |reports[last].node.children|];
    if i < last {
      ReportIsAnswer(world, lim, roots, reports[..last], before, i);
    } else {
      assert Analysed(world, lim, roots, reports, before);
    }
  }

  /** The input "a" holds a copy "c" of the input "b", which waits behind it. */
  function CopyOfWaitingInput(): NodeWorld {
    NodeWorld((path, _, _, _, _) => if path == "a" then Node("x", 0, false, [("c", "r")]) else Node("s", 0, false, []),
              (_, _) => Regular(1, "s"))
  }

  /** The content of "b" is analysed twice, although the inputs differ. */
  lemma WaitingInputIsAnalysedTwice(lim: Limits, reports: seq<Report>, es: seq<Edge>)
    requires Explored(CopyOfWaitingInput(), lim, ["a", "b"], reports, es)
    requires lim.maxDepth >= 1 && lim.maxNodes >= 3 && lim.maxTotalBytes >= 1
    ensures |reports| >= 3 && reports[0].node.sha256 == "x" && reports[1].node.sha256 == "s" == reports[2].node.sha256
    ensures reports[2].item.parent == "a" && reports[2].item.path == "c" && !AnalysedOnce(reports)
  {
    hide Explored, Ruled, HashedBytes;
    var world, started := CopyOfWaitingInput(), ["a", "b"];
    RootReports(world, lim, started, reports, es, 0);
    RootReports(world, lim, started, reports, es, 1);
    FirstEdge(world, lim, started, reports, es);
    assert es[0].state == Admitted by { AloneIsAdmitted(world, lim, 2, reports[0], es[0]); }
    assert es[..0] == [];
    ChildReports(world, lim, started, reports, es, 0);
  }

  /** The edges of the first report, as the first report offers them. */
  lemma {:induction false} FirstEdges(world: NodeWorld, lim: Limits, roots: nat, reports: seq<Report>, es: seq<Edge>, j: nat)
    requires Traced(world, lim, roots, reports, es) && reports != [] && j < |reports[0].node.children|
    ensures j < |es| && es[j].child == reports[0].node.children[j].0
    ensures Ruled(world, lim, roots, [reports[0]], es[..j], es[j])
    decreases |reports|
  {
    hide Ruled, Analysed;
    var last := |reports| - 1;
    var n := |es| - |reports[last].node.children|;
    if last == 0 {
      assert reports == [reports[0]];
    } else {
      FirstEdges(world, lim, roots, reports[..last], es[..n], j);
      assert es[..n][..j] == es[..j];
    }
  }

  lemma RunIsTraced(world: NodeWorld, lim: Limits, started: seq<string>, reports: seq<Report>, es: seq<Edge>)
    requires Explored(world, lim, started, reports, es)
    ensures Traced(world, lim, |started|, reports, es)
  {
  }

  lemma FirstEdge(world: NodeWorld, lim: Limits, started: seq<string>, reports: seq<Report>, es: seq<Edge>)
    requires Explored(world, lim, started, reports, es) && reports != [] && reports[0].node.children != []
    ensures es != [] && es[0].child == reports[0].node.children[0].0
    ensures Ruled(world, lim, |started|, [reports[0]], [], es[0]) && FromProbe(world, reports[0], 0, es[0])
  {
    hide Ruled, Traced;
    FirstEdges(world, lim, |started|, reports, es, 0);
    assert es[..0] == [];
    RuledFromProbe(world, lim, |started|, reports[0], [], es[0]);
  }

  /** The edge shows what the world answers for its path, and the report above it. */
  ghost predicate FromProbe(world: NodeWorld, r: Report, k: nat, e: Edge) {
    e.sha256 == ProbedSha(world.probe(e.child, k)) && e.size == ProbedSize(world.probe(e.child, k)) &&
    e.parent == r.item.path && e.depth == r.item.depth + 1
  }

  lemma RuledFromProbe(world: NodeWorld, lim: Limits, roots: nat, r: Report, es: seq<Edge>, e: Edge)
    requires Ruled(world, lim, roots, [r], es, e)
    ensures FromProbe(world, r, |es|, e)
  {
  }

  /** A first child with a digest of its own is admitted when there is room. */
  lemma AloneIsAdmitted(world: NodeWorld, lim: Limits, roots: nat, r: Report, e: Edge)
    requires Ruled(world, lim, roots, [r], [], e) && r.item.depth == 0
    requires e.sha256 != "" && e.sha256 != r.node.sha256 && e.size <= lim.maxTotalBytes
    requires lim.maxDepth >= 1 && lim.maxNodes > roots
    ensures e.state == Admitted
  {
    assert [] + [e] == [e] && [e][..0] == [];
    assert HashedBytes([e]) == e.size;
    assert !Digested([r], [], e.sha256);
  }

  lemma SecondIsAdmitted(world: NodeWorld, lim: Limits, roots: nat, r: Report, d: Edge, e: Edge)
    requires Ruled(world, lim, roots, [r], [d], e) && r.item.depth == 0 && d.state == Admitted
    requires e.sha256 != "" && e.sha256 != r.node.sha256 && e.sha256 != d.sha256 && lim.maxTotalBytes == U64_MAX
    requires lim.maxDepth >= 1 && lim.maxNodes > roots + 1
    ensures e.state == Admitted
  {
    hide HashedBytes;
    assert [d][..0] == [];
    assert |AdmittedEdges([d])| == 1;
    assert !Digested([r], [d], e.sha256);
  }

  // The byte limit.

  /** With the largest byte limit the saturating sum never exceeds it: nothing is ever refused for its size. */
  lemma LargestLimitNeverCuts(world: NodeWorld, lim: Limits, started: seq<string>, reports: seq<Report>, es: seq<Edge>, k: nat)
    requires Explored(world, lim, started, reports, es) && k < |es| && lim.maxTotalBytes == U64_MAX
    ensures es[k].state != SkippedByteLimit
  {
    var i := Offerer(world, lim, |started|, reports, es, k);
  }

  /** Two extracted children, one of them as large as a size can be. */
  function HugeChildren(): NodeWorld {
    NodeWorld((path, _, _, _, _) => if path == "a" then Node("x", 0, false, [("c", "r"), ("d", "r")]) else Node("y", 0, false, []),
              (path, _) => if path == "c" then Regular(U64_MAX, "s") else Regular(1, "t"))
  }

  /** So with that limit the admitted bytes can exceed it. */
  lemma LargestLimitIsExceeded(lim: Limits, reports: seq<Report>, es: seq<Edge>)
    requires Explored(HugeChildren(), lim, ["a"], reports, es)
    requires lim.maxTotalBytes == U64_MAX && lim.maxDepth >= 1 && lim.maxNodes >= 3
    ensures AdmittedSizes(es) > lim.maxTotalBytes
  {
    hide Explored, Ruled, HashedBytes;
    var world, started := HugeChildren(), ["a"];
    RootReports(world, lim, started, reports, es, 0);
    FirstEdge(world, lim, started, reports, es);
    FirstEdges(world, lim, 1, reports, es, 1) by { RunIsTraced(world, lim, started, reports, es); }
    assert es[..1] == [es[0]];
    RuledFromProbe(world, lim, 1, reports[0], [es[0]], es[1]);
    AloneIsAdmitted(world, lim, 1, reports[0], es[0]);
    SecondIsAdmitted(world, lim, 1, reports[0], es[0], es[1]);
    assert es[..2][..1] == [es[0]] && [es[0]][..0] == [];
    SizesMonotone(es, 2);
  }

  lemma {:induction false} SizesMonotone(es: seq<Edge>, n: nat)
    requires n <= |es|
    ensures AdmittedSizes(es[..n]) <= AdmittedSizes(es)
    decreases |es|
  {
    if n < |es| {
      SizesMonotone(es[..|es| - 1], n);
      assert es[..|es| - 1][..n] == es[..n];
    } else {
      assert es[..n] == es;
    }
  }
}
