/** Merging implicit-execution planes into one numbered list (src/core/implicit_exec.cpp:20-63). */
module ImplicitMerge {
  import opened Common
  import opened FactLists

  /** One plane as a value: its state, whether its analysis was cut short, and what its list shows. */
  datatype Plane = Plane(state: string, limited: bool, view: seq<Entry>)

  predicate Present(p: Plane) { p.state != "NOT_PRESENT" }

  /** The first position below n whose local index is x. */
  function First(view: seq<Entry>, x: u32, n: nat): (r: Option<nat>)
    requires n <= |view|
    ensures r.Some? ==> r.value < n
  {
    if n == 0 then None
    else
      var earlier := First(view, x, n - 1);
      if earlier.Some? then earlier else if view[n - 1].index == x then Some(n - 1) else None
  }

  lemma {:induction false} FirstIsFirst(view: seq<Entry>, x: u32, n: nat)
    requires n <= |view|
    ensures match First(view, x, n)
            case Some(p) => view[p].index == x && forall k :: 0 <= k < p ==> view[k].index != x
            case None => forall k :: 0 <= k < n ==> view[k].index != x
  {
    if n > 0 { FirstIsFirst(view, x, n - 1); }
  }

  /** A local dependency in the coordinates of the merged list; the code truncates it to 32 bits first. */
  function Remap(base: nat, view: seq<Entry>, dependency: int): int {
    if dependency < 0 then -1
    else match First(view, dependency % U32_LIMIT, |view|)
      case Some(k) => Wrap32(base + k)
      case None => -1
  }

  function Block(base: nat, view: seq<Entry>): (r: seq<Entry>)
    ensures |r| == |view|
  {
    seq(|view|, i requires 0 <= i < |view| => Entry(view[i].data, Wrap32(base + i), Remap(base, view, view[i].dependency)))
  }

  /** The merged list: the blocks of the present planes, one after the other. */
  ghost function MergedFrom(base: nat, ps: seq<Plane>): seq<Entry>
    decreases |ps|
  {
    if ps == [] then []
    else if Present(ps[0]) then Block(base, ps[0].view) + MergedFrom(base + |ps[0].view|, ps[1..])
    else MergedFrom(base, ps[1..])
  }

  ghost function Merged(ps: seq<Plane>): seq<Entry> { MergedFrom(0, ps) }

  ghost predicate DuplicateIndex(view: seq<Entry>) {
    exists j, k :: 0 <= j < k < |view| && view[j].index == view[k].index
  }

  ghost predicate LostEdge(view: seq<Entry>) {
    exists i :: 0 <= i < |view| && view[i].dependency >= 0 && First(view, view[i].dependency % U32_LIMIT, |view|).None?
  }

  ghost predicate PartialPlane(p: Plane) {
    Present(p) && (p.state !in {"RESOLVED", "FAILED", "UNSUPPORTED", ""} || DuplicateIndex(p.view) || LostEdge(p.view))
  }

  ghost predicate HasState(ps: seq<Plane>, state: string) { exists i :: 0 <= i < |ps| && ps[i].state == state }

  ghost predicate SomePartial(ps: seq<Plane>) { exists i :: 0 <= i < |ps| && PartialPlane(ps[i]) }

  ghost predicate SomeLimited(ps: seq<Plane>) { exists i :: 0 <= i < |ps| && Present(ps[i]) && ps[i].limited }

  ghost function MergedState(ps: seq<Plane>): string {
    if Merged(ps) != [] then
      if SomePartial(ps) || HasState(ps, "FAILED") || HasState(ps, "UNSUPPORTED") || SomeLimited(ps) then "PARTIAL" else "RESOLVED"
    else if HasState(ps, "FAILED") then "FAILED"
    else if SomePartial(ps) then "PARTIAL"
    else if HasState(ps, "UNSUPPORTED") then "UNSUPPORTED"
    else "NOT_PRESENT"
  }

  lemma {:induction false} MergedAppend(base: nat, ps: seq<Plane>, qs: seq<Plane>)
    ensures MergedFrom(base, ps + qs) == MergedFrom(base, ps) + MergedFrom(base + |MergedFrom(base, ps)|, qs)
    decreases |ps|
  {
    if ps == [] {
      assert ps + qs == qs;
    } else {
      assert (ps + qs)[1..] == ps[1..] + qs;
      MergedAppend(if Present(ps[0]) then base + |ps[0].view| else base, ps[1..], qs);
    }
  }

  /** Every fact survives in order, numbered by its position, and points nowhere or into the merged list. */
  lemma {:induction false} MergedIsNumbered(base: nat, ps: seq<Plane>, i: nat)
    requires i < |MergedFrom(base, ps)| && base + |MergedFrom(base, ps)| < U32_LIMIT
    ensures MergedFrom(base, ps)[i].index == base + i
    ensures MergedFrom(base, ps)[i].dependency == -1 ||
            base <= MergedFrom(base, ps)[i].dependency < base + |MergedFrom(base, ps)|
    decreases |ps|
  {
    if Present(ps[0]) {
      var n := |ps[0].view|;
      if i >= n { MergedIsNumbered(base + n, ps[1..], i - n); }
    } else {
      MergedIsNumbered(base, ps[1..], i);
    }
  }

  /** The edges of one plane stay inside the plane's own block: a dependency is dropped, or leads to the first
      fact of the same plane with that local index. */
  lemma EdgesStayInTheirPlane(before: seq<Plane>, p: Plane, after: seq<Plane>, i: nat)
    requires Present(p) && i < |p.view| && |Merged(before + [p] + after)| < U32_LIMIT
    ensures var merged, start := Merged(before + [p] + after), |Merged(before)|;
            start + |p.view| <= |merged| && merged[start + i].data == p.view[i].data &&
            var d := merged[start + i].dependency;
            if d == -1 then
              p.view[i].dependency < 0 || forall k :: 0 <= k < |p.view| ==> p.view[k].index != p.view[i].dependency % U32_LIMIT
            else
              start <= d < start + |p.view| && p.view[i].dependency >= 0 &&
              p.view[d - start].index == p.view[i].dependency % U32_LIMIT &&
              forall k :: 0 <= k < d - start ==> p.view[k].index != p.view[i].dependency % U32_LIMIT
  {
    hide MergedFrom;
    PlaneIsBlock(before, p, after);
    if p.view[i].dependency >= 0 { FirstIsFirst(p.view, p.view[i].dependency % U32_LIMIT, |p.view|); }
    var merged, start := Merged(before + [p] + after), |Merged(before)|;
    assert merged[start + i] == merged[start..start + |p.view|][i];
  }

  lemma PlaneIsBlock(before: seq<Plane>, p: Plane, after: seq<Plane>)
    requires Present(p)
    ensures |Merged(before)| + |p.view| <= |Merged(before + [p] + after)|
    ensures Merged(before + [p] + after)[|Merged(before)|..|Merged(before)| + |p.view|] == Block(|Merged(before)|, p.view)
  {
    var start := |Merged(before)|;
    assert before + [p] + after == before + ([p] + after);
    MergedAppend(0, before, [p] + after);
    assert ([p] + after)[0] == p && ([p] + after)[1..] == after;
    assert MergedFrom(start, [p] + after) == Block(start, p.view) + MergedFrom(start + |p.view|, after);
  }

  /** A merge that reports RESOLVED lost no edge of any plane. */
  lemma ResolvedLosesNothing(before: seq<Plane>, p: Plane, after: seq<Plane>, i: nat)
    requires MergedState(before + [p] + after) == "RESOLVED"
    requires Present(p) && i < |p.view| && |Merged(before + [p] + after)| < U32_LIMIT
    ensures |Merged(before)| + i < |Merged(before + [p] + after)|
    ensures p.view[i].dependency >= 0 <==> Merged(before + [p] + after)[|Merged(before)| + i].dependency >= 0
    ensures forall j, k :: 0 <= j < k < |p.view| ==> p.view[j].index != p.view[k].index
  {
    hide MergedFrom;
    EdgesStayInTheirPlane(before, p, after, i);
    assert (before + [p] + after)[|before|] == p;
    assert !PartialPlane(p);
    if p.view[i].dependency >= 0 { FirstIsFirst(p.view, p.view[i].dependency % U32_LIMIT, |p.view|); }
    assert p.view[i].dependency >= 0 ==> First(p.view, p.view[i].dependency % U32_LIMIT, |p.view|).Some?;
  }

  function Shift(b: nat, e: Entry): Entry
    requires e.index + b < U32_LIMIT
  {
    e.(index := e.index + b, dependency := if e.dependency < 0 then e.dependency else e.dependency + b)
  }

  /** Merging further to the right only shifts numbers. */
  lemma {:induction false} MergedShifts(b: nat, base: nat, ps: seq<Plane>, i: nat)
    requires i < |MergedFrom(base, ps)| && b + base + |MergedFrom(base, ps)| < U32_LIMIT
    ensures |MergedFrom(b + base, ps)| == |MergedFrom(base, ps)|
    ensures MergedFrom(base, ps)[i].index + b < U32_LIMIT
    ensures MergedFrom(b + base, ps)[i] == Shift(b, MergedFrom(base, ps)[i])
    decreases |ps|
  {
    hide Block, Shift;
    MergedLength(base, b + base, ps);
    if Present(ps[0]) {
      var n := |ps[0].view|;
      if i < n {
        BlockShifts(b, base, ps[0].view, i);
      } else {
        MergedShifts(b, base + n, ps[1..], i - n);
        assert b + (base + n) == b + base + n;
      }
    } else {
      MergedShifts(b, base, ps[1..], i);
    }
  }

  lemma BlockShifts(b: nat, base: nat, view: seq<Entry>, i: nat)
    requires i < |view| && b + base + |view| < U32_LIMIT
    ensures Block(base, view)[i].index + b < U32_LIMIT
    ensures Block(b + base, view)[i] == Shift(b, Block(base, view)[i])
  {
  }

  lemma {:induction false} MergedLength(a: nat, b: nat, ps: seq<Plane>)
    ensures |MergedFrom(a, ps)| == |MergedFrom(b, ps)|
    decreases |ps|
  {
    if ps != [] {
      if Present(ps[0]) {
        MergedLength(a + |ps[0].view|, b + |ps[0].view|, ps[1..]);
      } else {
        MergedLength(a, b, ps[1..]);
      }
    }
  }

  /** The local indexes of a merged list are its positions. */
  lemma {:induction false} FirstOfNumbered(m: seq<Entry>, d: nat, n: nat)
    requires d < n <= |m| < U32_LIMIT && forall k :: 0 <= k < |m| ==> m[k].index == k
    ensures First(m, d, n) == Some(d)
  {
    if d < n - 1 { FirstOfNumbered(m, d, n - 1); } else { FirstIsFirst(m, d, d); }
  }

  /** Using a merged list as a plane at `base` gives what merging its planes there gives. */
  lemma BlockOfMerged(base: nat, ps: seq<Plane>)
    requires base + |Merged(ps)| < U32_LIMIT
    ensures Block(base, Merged(ps)) == MergedFrom(base, ps)
  {
    hide MergedFrom;
    var m := Merged(ps);
    MergedLength(0, base, ps);
    forall k | 0 <= k < |m| ensures m[k].index == k { MergedIsNumbered(0, ps, k); }
    forall i | 0 <= i < |m| ensures Block(base, m)[i] == MergedFrom(base, ps)[i] {
      MergedShifts(base, 0, ps, i);
      MergedIsNumbered(0, ps, i);
      NumberedRemap(base, m, m[i].dependency);
    }
  }

  lemma NumberedRemap(base: nat, m: seq<Entry>, d: int)
    requires base + |m| < U32_LIMIT && -1 <= d < |m| && forall k :: 0 <= k < |m| ==> m[k].index == k
    ensures Remap(base, m, d) == if d < 0 then -1 else base + d
  {
    if d >= 0 { FirstOfNumbered(m, d, |m|); }
  }

  ghost function AsPlane(ps: seq<Plane>): Plane { Plane(MergedState(ps), SomeLimited(ps), Merged(ps)) }

  ghost function AsPlanes(groups: seq<seq<Plane>>): (r: seq<Plane>)
    ensures |r| == |groups|
  {
    seq(|groups|, i requires 0 <= i < |groups| => AsPlane(groups[i]))
  }

  ghost function Flatten(groups: seq<seq<Plane>>): seq<Plane> {
    if groups == [] then [] else groups[0] + Flatten(groups[1..])
  }

  /** The first group comes first in the flat merge, */
  lemma FlatMergeSplits(base: nat, groups: seq<seq<Plane>>)
    requires groups != []
    ensures |MergedFrom(base, groups[0])| == |Merged(groups[0])|
    ensures MergedFrom(base, Flatten(groups)) ==
            MergedFrom(base, groups[0]) + MergedFrom(base + |Merged(groups[0])|, Flatten(groups[1..]))
  {
    hide MergedFrom;
    MergedLength(0, base, groups[0]);
    MergedAppend(base, groups[0], Flatten(groups[1..]));
  }

  /** and in the merge of the merged groups. */
  lemma NestedMergeSplits(base: nat, groups: seq<seq<Plane>>)
    requires groups != [] && base + |Merged(groups[0])| < U32_LIMIT
    ensures MergedFrom(base, AsPlanes(groups)) ==
            MergedFrom(base, groups[0]) + MergedFrom(base + |Merged(groups[0])|, AsPlanes(groups[1..]))
  {
    var ps := AsPlanes(groups);
    assert ps[0] == AsPlane(groups[0]) && ps[1..] == AsPlanes(groups[1..]);
    MergedFirst(base, ps);
    GroupAsPlane(groups[0]);
    hide MergedFrom, Block, AsPlane, AsPlanes, Present;
    BlockOfMerged(base, groups[0]);
    MergedLength(0, base, groups[0]);
  }

  lemma MergedFirst(base: nat, ps: seq<Plane>)
    requires ps != []
    ensures MergedFrom(base, ps) ==
      if Present(ps[0]) then Block(base, ps[0].view) + MergedFrom(base + |ps[0].view|, ps[1..]) else MergedFrom(base, ps[1..])
  {
  }

  /** Merging already merged groups gives the same facts, indexes and dependencies as one flat merge. */
  lemma {:induction false} MergeFlattens(base: nat, groups: seq<seq<Plane>>)
    requires base + |MergedFrom(base, Flatten(groups))| < U32_LIMIT
    ensures MergedFrom(base, AsPlanes(groups)) == MergedFrom(base, Flatten(groups))
    decreases |groups|
  {
    if groups != [] {
      hide MergedFrom, Flatten, AsPlanes;
      FlatMergeSplits(base, groups);
      MergeFlattens(base + |Merged(groups[0])|, groups[1..]);
      NestedMergeSplits(base, groups);
    }
  }

  lemma GroupAsPlane(g: seq<Plane>)
    ensures AsPlane(g).view == Merged(g) && (Present(AsPlane(g)) || Merged(g) == [])
  {
    hide MergedFrom;
  }

  /** The counters a reader sees; every fact is in exactly one of the first three. */
  datatype Tally = Tally(high: nat, review: nat, informational: nat, anomaly: nat, unresolved: nat)

  function CountFact(t: Tally, d: FactData): Tally {
    var byPriority := if d.priority == "HIGH" then t.(high := t.high + 1)
                      else if d.priority == "REVIEW" then t.(review := t.review + 1)
                      else t.(informational := t.informational + 1);
    var byAnomaly := if d.anomalyClass != "" && d.anomalyClass != "NONE" then byPriority.(anomaly := t.anomaly + 1) else byPriority;
    if d.evidenceState == "UNRESOLVED_RUNTIME_SEMANTICS" then byAnomaly.(unresolved := t.unresolved + 1) else byAnomaly
  }

  ghost function TallyOf(es: seq<Entry>): Tally {
    if es == [] then Tally(0, 0, 0, 0, 0) else CountFact(TallyOf(es[..|es| - 1]), es[|es| - 1].data)
  }

  lemma {:induction false} TallyCountsEveryFact(es: seq<Entry>)
    ensures TallyOf(es).high + TallyOf(es).review + TallyOf(es).informational == |es|
  {
    if es != [] { TallyCountsEveryFact(es[..|es| - 1]); }
  }

  datatype Info = Info(state: string, limited: bool, tally: Tally, facts: FactList)

  /** The merged index that a local index leads to after the first n facts. */
  function Destination(start: nat, view: seq<Entry>, x: u32, n: nat): Option<u32>
    requires n <= |view|
  {
    match First(view, x, n)
    case Some(k) => Some(Wrap32(start + k))
    case None => None
  }

  /** The map sends every local index of the first n facts to its destination. */
  ghost predicate RemapOk(remap: map<u32, u32>, start: nat, view: seq<Entry>, n: nat)
    requires n <= |view|
  {
    forall x: u32 :: Destination(start, view, x, n) == if x in remap then Some(remap[x]) else None
  }

  lemma RemapGrows(remap: map<u32, u32>, start: nat, view: seq<Entry>, n: nat)
    requires n < |view| && RemapOk(remap, start, view, n)
    ensures view[n].index in remap <==> First(view, view[n].index, n).Some?
    ensures RemapOk(if view[n].index in remap then remap else remap[view[n].index := Wrap32(start + n)], start, view, n + 1)
  {
    hide First, Wrap32;
    var next := if view[n].index in remap then remap else remap[view[n].index := Wrap32(start + n)];
    assert view[n].index in remap <==> Destination(start, view, view[n].index, n).Some?;
    hide Destination;
    forall x: u32 ensures Destination(start, view, x, n + 1) == if x in next then Some(next[x]) else None {
      DestinationStep(start, view, x, n);
    }
  }

  lemma DestinationStep(start: nat, view: seq<Entry>, x: u32, n: nat)
    requires n < |view|
    ensures Destination(start, view, x, n + 1) ==
            if Destination(start, view, x, n).Some? then Destination(start, view, x, n)
            else if view[n].index == x then Some(Wrap32(start + n)) else None
  {
  }

  lemma RemapMeaning(remap: map<u32, u32>, start: nat, view: seq<Entry>, d: nat)
    requires RemapOk(remap, start, view, |view|)
    ensures Remap(start, view, d) == if d % U32_LIMIT in remap then remap[d % U32_LIMIT] else -1
    ensures d % U32_LIMIT in remap <==> First(view, d % U32_LIMIT, |view|).Some?
  {
    assert Destination(start, view, d % U32_LIMIT, |view|).Some? <==> First(view, d % U32_LIMIT, |view|).Some?;
  }

  ghost predicate LostBelow(view: seq<Entry>, n: nat)
    requires n <= |view|
  {
    exists k :: 0 <= k < n && view[k].dependency >= 0 && First(view, view[k].dependency % U32_LIMIT, |view|).None?
  }

  lemma LostGrows(view: seq<Entry>, n: nat)
    requires n < |view|
    ensures LostBelow(view, n + 1) <==>
              LostBelow(view, n) || (view[n].dependency >= 0 && First(view, view[n].dependency % U32_LIMIT, |view|).None?)
  {
  }

  lemma TallyGrows(before: seq<Entry>, block: seq<Entry>, i: nat)
    requires i < |block|
    ensures TallyOf(before + block[..i + 1]) == CountFact(TallyOf(before + block[..i]), block[i].data)
  {
    assert (before + block[..i + 1])[..|before| + i] == before + block[..i];
  }

  /** Duplicate local indexes, lost edges, and the dependencies in merged coordinates, for one plane. */
  method RemapPlane(facts: FactList, base: u32, ghost start: nat, t0: Tally, ghost before: seq<Entry>)
    returns (dependencies: seq<int>, duplicate: bool, lost: bool, t: Tally)
    requires facts.Valid() && base == start % U32_LIMIT && t0 == TallyOf(before)
    ensures |dependencies| == |facts.contents|
    ensures forall i :: 0 <= i < |dependencies| ==> dependencies[i] == Remap(start, facts.contents, facts.contents[i].dependency)
    ensures duplicate <==> DuplicateIndex(facts.contents)
    ensures lost <==> LostEdge(facts.contents)
    ensures t == TallyOf(before + Block(start, facts.contents))
  {
    hide DuplicateIndex, RemapOk, CountFact, First, Destination, TallyOf, Block, Remap, LostEdge, LostBelow;
    var n := facts.Size();
    ghost var view := facts.contents;
    var remap;
    remap, duplicate := BuildRemap(facts, base, start);
    dependencies, lost, t := [], false, t0;
    ghost var block := Block(start, view);
    RemapStart(start, view, before);
    for i := 0 to n
      invariant |dependencies| == i
      invariant forall k :: 0 <= k < i ==> dependencies[k] == Remap(start, view, view[k].dependency)
      invariant lost <==> LostBelow(view, i)
      invariant t == TallyOf(before + block[..i])
    {
      var fact := facts.RefAt(i);
      var local := facts.DependencyAt(i);
      var dependency: int := -1;
      if local >= 0 {
        RemapMeaning(remap, start, view, local);
        var key: u32 := local % U32_LIMIT;
        if key in remap { dependency := remap[key]; } else { lost := true; }
      } else {
        NoDependency(start, view, local);
      }
      dependencies := dependencies + [dependency];
      LostGrows(view, i);
      TallyGrows(before, block, i);
      BlockData(start, view, i);
      t := CountFact(t, fact.data);
    }
    RemapEnd(start, view);
  }

  lemma RemapStart(start: nat, view: seq<Entry>, before: seq<Entry>)
    ensures !LostBelow(view, 0) && before + Block(start, view)[..0] == before
  {
  }

  lemma RemapEnd(start: nat, view: seq<Entry>)
    ensures LostBelow(view, |view|) <==> LostEdge(view)
    ensures Block(start, view)[..|view|] == Block(start, view)
  {
  }

  lemma NoDependency(start: nat, view: seq<Entry>, d: int)
    requires d < 0
    ensures Remap(start, view, d) == -1
  {
  }

  lemma BlockData(start: nat, view: seq<Entry>, i: nat)
    requires i < |view|
    ensures Block(start, view)[i].data == view[i].data
  {
  }

  /** The map from local to merged indexes; the first fact with an index wins. */
  method BuildRemap(facts: FactList, base: u32, ghost start: nat) returns (remap: map<u32, u32>, duplicate: bool)
    requires facts.Valid() && base == start % U32_LIMIT
    ensures RemapOk(remap, start, facts.contents, |facts.contents|)
    ensures duplicate <==> DuplicateIndex(facts.contents)
  {
    hide DuplicateIndex, RemapOk, First, Wrap32;
    var n := facts.Size();
    ghost var view := facts.contents;
    remap, duplicate := map[], false;
    RemapStarts(start, view);
    for i := 0 to n
      invariant RemapOk(remap, start, view, i)
      invariant duplicate <==> DuplicateIndex(view[..i])
    {
      var index := facts.IndexAt(i);
      var ni: u32 := (base + i % U32_LIMIT) % U32_LIMIT;
      NumberWraps(start, i);
      DuplicateGrows(view, i);
      RemapGrows(remap, start, view, i);
      if index in remap { duplicate := true; } else { remap := remap[index := ni]; }
    }
    assert view[..n] == view;
  }

  lemma RemapStarts(start: nat, view: seq<Entry>)
    ensures RemapOk(map[], start, view, 0) && !DuplicateIndex(view[..0])
  {
  }

  lemma NumberWraps(start: nat, i: nat)
    ensures (start % U32_LIMIT + i % U32_LIMIT) % U32_LIMIT == Wrap32(start + i)
  {
  }

  lemma DuplicateGrows(view: seq<Entry>, i: nat)
    requires i < |view|
    ensures DuplicateIndex(view[..i + 1]) <==> DuplicateIndex(view[..i]) || First(view, view[i].index, i).Some?
  {
    if DuplicateIndex(view[..i]) {
      var j, k :| 0 <= j < k < i && view[..i][j].index == view[..i][k].index;
      assert view[..i + 1][j].index == view[..i + 1][k].index;
    }
    FirstIsFirst(view, view[i].index, i);
    if First(view, view[i].index, i).Some? {
      var j := First(view, view[i].index, i).value;
      assert view[..i + 1][j].index == view[..i + 1][i].index;
    }
    if DuplicateIndex(view[..i + 1]) {
      var j, k :| 0 <= j < k < i + 1 && view[..i + 1][j].index == view[..i + 1][k].index;
      if k < i { assert view[..i][j].index == view[..i][k].index; }
    }
  }

  ghost function ListsOf(planes: seq<Option<Info>>): set<FactList> {
    set i | 0 <= i < |planes| && planes[i].Some? :: planes[i].value.facts
  }

  ghost function PlanesOf(planes: seq<Option<Info>>): (r: seq<Plane>)
    reads ListsOf(planes)
    ensures |r| == |planes|
  {
    seq(|planes|, i requires 0 <= i < |planes| reads ListsOf(planes) =>
      if planes[i].None? then Plane("NOT_PRESENT", false, [])
      else Plane(planes[i].value.state, planes[i].value.limited, planes[i].value.facts.contents))
  }

  datatype Flags = Flags(partial: bool, failed: bool, unsupported: bool, limited: bool)

  ghost predicate FlagsOf(f: Flags, ps: seq<Plane>) {
    f.partial == SomePartial(ps) && f.failed == HasState(ps, "FAILED") &&
    f.unsupported == HasState(ps, "UNSUPPORTED") && f.limited == SomeLimited(ps)
  }

  lemma FlagsGrow(ps: seq<Plane>, p: Plane)
    ensures SomePartial(ps + [p]) <==> SomePartial(ps) || PartialPlane(p)
    ensures SomeLimited(ps + [p]) <==> SomeLimited(ps) || (Present(p) && p.limited)
    ensures forall s :: HasState(ps + [p], s) <==> HasState(ps, s) || p.state == s
  {
    var qs := ps + [p];
    assert qs[|ps|] == p && forall i :: 0 <= i < |ps| ==> qs[i] == ps[i];
    hide PartialPlane;
    if SomePartial(ps) { var i :| 0 <= i < |ps| && PartialPlane(ps[i]); assert PartialPlane(qs[i]); }
    if PartialPlane(p) { assert PartialPlane(qs[|ps|]); }
    if SomeLimited(ps) { var i :| 0 <= i < |ps| && Present(ps[i]) && ps[i].limited; assert Present(qs[i]) && qs[i].limited; }
    if Present(p) && p.limited { assert Present(qs[|ps|]) && qs[|ps|].limited; }
    forall s ensures HasState(qs, s) <==> HasState(ps, s) || p.state == s {
      if HasState(ps, s) { var i :| 0 <= i < |ps| && ps[i].state == s; assert qs[i].state == s; }
      if p.state == s { assert qs[|ps|].state == s; }
    }
  }

  /** The body of the merge loop for one present plane. */
  method MergePlane(facts: FactList, info: Info, flags0: Flags, tally0: Tally, ghost ps: seq<Plane>)
    returns (flags: Flags, tally: Tally)
    requires facts.Valid() && (facts.sharedView || facts.contents == []) && info.facts.Valid() && info.facts != facts
    requires info.state != "NOT_PRESENT" && FlagsOf(flags0, ps)
    requires facts.contents == Merged(ps) && tally0 == TallyOf(Merged(ps))
    modifies facts
    ensures facts.Valid() && facts.sharedView
    ensures var all := ps + [Plane(info.state, info.limited, old(info.facts.contents))];
            facts.contents == Merged(all) && tally == TallyOf(Merged(all)) && FlagsOf(flags, all)
  {
    hide Merged, FlagsOf, TallyOf, Block, PartialPlane;
    ghost var p := Plane(info.state, info.limited, info.facts.contents);
    var size := facts.Size();
    var dependencies, duplicate, lost;
    dependencies, duplicate, lost, tally := RemapPlane(info.facts, size % U32_LIMIT, size, tally0, facts.contents);
    flags := NextFlags(flags0, info.state, duplicate || lost, info.limited);
    PresentFlags(flags0, ps, p, duplicate || lost);
    MergedOne(ps, p);
    BlockIsRenumbered(info.facts.contents, dependencies, size);
    var ok := facts.AppendSharedView(info.facts, dependencies);
  }

  lemma PresentFlags(f: Flags, ps: seq<Plane>, p: Plane, broken: bool)
    requires FlagsOf(f, ps) && Present(p) && broken == (DuplicateIndex(p.view) || LostEdge(p.view))
    ensures FlagsOf(NextFlags(f, p.state, broken, p.limited), ps + [p])
  {
    FlagsGrow(ps, p);
  }

  lemma AbsentFlags(f: Flags, ps: seq<Plane>, p: Plane)
    requires FlagsOf(f, ps) && !Present(p)
    ensures FlagsOf(f, ps + [p])
  {
    FlagsGrow(ps, p);
  }

  /** The merge. It builds a fresh list; no plane is changed. */
  method MergeImplicitExecution(planes: seq<Option<Info>>) returns (out: Info)
    requires forall i :: 0 <= i < |planes| && planes[i].Some? ==> planes[i].value.facts.Valid()
    ensures fresh(out.facts) && out.facts.Valid()
    ensures out.facts.contents == Merged(PlanesOf(planes))
    ensures out.state == MergedState(PlanesOf(planes)) && out.limited == SomeLimited(PlanesOf(planes))
    ensures out.tally == TallyOf(Merged(PlanesOf(planes)))
    ensures out.limited <==>
            exists i :: 0 <= i < |planes| && planes[i].Some? && planes[i].value.state != "NOT_PRESENT" && planes[i].value.limited
  {
    ghost var ps := PlanesOf(planes);
    var facts := new FactList();
    NothingMerged();
    hide Merged, FlagsOf, TallyOf, PartialPlane, MergedState, SomeLimited, StateOf, FactList.Valid;
    var flags, tally := Flags(false, false, false, false), Tally(0, 0, 0, 0, 0);
    assert ps[..0] == [];
    for k := 0 to |planes|
      invariant fresh(facts) && facts.Valid() && (facts.sharedView || facts.contents == [])
      invariant PlanesOf(planes) == ps
      invariant forall i :: 0 <= i < |planes| && planes[i].Some? ==> planes[i].value.facts.Valid() && planes[i].value.facts != facts
      invariant facts.contents == Merged(ps[..k]) && tally == TallyOf(Merged(ps[..k]))
      invariant FlagsOf(flags, ps[..k])
    {
      assert ps[..k + 1] == ps[..k] + [ps[k]];
      if planes[k].Some? && planes[k].value.state != "NOT_PRESENT" {
        var info := planes[k].value;
        flags, tally := MergePlane(facts, info, flags, tally, ps[..k]);
      } else {
        MergedOne(ps[..k], ps[k]);
        AbsentFlags(flags, ps[..k], ps[k]);
      }
    }
    assert ps[..|planes|] == ps;
    var size := facts.Size();
    FinalState(flags, ps);
    assert PlanesOf(planes) == ps;
    LimitedPlanes(planes, ps);
    out := Info(StateOf(flags, size != 0), flags.limited, tally, facts);
  }

  lemma LimitedPlanes(planes: seq<Option<Info>>, ps: seq<Plane>)
    requires |ps| == |planes|
    requires forall i :: 0 <= i < |planes| ==>
      if planes[i].None? then ps[i].state == "NOT_PRESENT"
      else ps[i].state == planes[i].value.state && ps[i].limited == planes[i].value.limited
    ensures SomeLimited(ps) <==>
            exists i :: 0 <= i < |planes| && planes[i].Some? && planes[i].value.state != "NOT_PRESENT" && planes[i].value.limited
  {
    if SomeLimited(ps) {
      var i :| 0 <= i < |ps| && Present(ps[i]) && ps[i].limited;
      assert planes[i].Some?;
    }
  }

  function StateOf(f: Flags, any: bool): string {
    if any then (if f.partial || f.failed || f.unsupported || f.limited then "PARTIAL" else "RESOLVED")
    else if f.failed then "FAILED"
    else if f.partial then "PARTIAL"
    else if f.unsupported then "UNSUPPORTED"
    else "NOT_PRESENT"
  }

  lemma FinalState(f: Flags, ps: seq<Plane>)
    requires FlagsOf(f, ps)
    ensures StateOf(f, |Merged(ps)| != 0) == MergedState(ps) && f.limited == SomeLimited(ps)
  {
  }

  lemma NothingMerged()
    ensures Merged([]) == [] && TallyOf([]) == Tally(0, 0, 0, 0, 0) && FlagsOf(Flags(false, false, false, false), [])
  {
  }

  function NextFlags(f: Flags, state: string, broken: bool, limited: bool): Flags {
    var odd := state != "RESOLVED" && state != "PARTIAL" && state != "FAILED" && state != "UNSUPPORTED" && state != "";
    Flags(f.partial || state == "PARTIAL" || odd || broken, f.failed || state == "FAILED",
          f.unsupported || state == "UNSUPPORTED", f.limited || limited)
  }

  lemma MergedOne(ps: seq<Plane>, p: Plane)
    ensures Merged(ps + [p]) == Merged(ps) + (if Present(p) then Block(|Merged(ps)|, p.view) else [])
  {
    MergedAppend(0, ps, [p]);
    assert [p][1..] == [];
  }

  lemma BlockIsRenumbered(view: seq<Entry>, dependencies: seq<int>, start: nat)
    requires |dependencies| == |view|
    requires forall i :: 0 <= i < |view| ==> dependencies[i] == Remap(start, view, view[i].dependency)
    ensures Renumbered(view, dependencies, start) == Block(start, view)
  {
  }
}
