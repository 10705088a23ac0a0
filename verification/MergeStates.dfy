/** When merging merged groups keeps the state and the limit flag of one flat merge (src/core/implicit_exec.cpp:26-61). */
module MergeStates {
  import opened Common
  import opened FactLists
  import opened ImplicitMerge

  /** Some plane is partial, failed or unsupported. */
  ghost predicate Spoiled(ps: seq<Plane>) { SomePartial(ps) || HasState(ps, "FAILED") || HasState(ps, "UNSUPPORTED") }

  /** A merged list as a plane has neither repeated indexes nor lost edges. */
  lemma MergedPlaneIsSound(ps: seq<Plane>)
    requires |Merged(ps)| < U32_LIMIT
    ensures !DuplicateIndex(Merged(ps)) && !LostEdge(Merged(ps))
    ensures PartialPlane(AsPlane(ps)) <==> MergedState(ps) == "PARTIAL"
  {
    hide MergedFrom;
    var m := Merged(ps);
    forall k | 0 <= k < |m| ensures m[k].index == k && -1 <= m[k].dependency < |m| { MergedIsNumbered(0, ps, k); }
    forall i | 0 <= i < |m| && m[i].dependency >= 0 ensures First(m, m[i].dependency % U32_LIMIT, |m|).Some? {
      FirstOfNumbered(m, m[i].dependency, |m|);
    }
  }

  lemma SplitFlags(ps: seq<Plane>, qs: seq<Plane>)
    ensures SomePartial(ps + qs) <==> SomePartial(ps) || SomePartial(qs)
    ensures SomeLimited(ps + qs) <==> SomeLimited(ps) || SomeLimited(qs)
    ensures forall s :: HasState(ps + qs, s) <==> HasState(ps, s) || HasState(qs, s)
  {
    hide PartialPlane, Present;
    var all := ps + qs;
    assert forall i :: 0 <= i < |ps| ==> all[i] == ps[i];
    assert forall i :: 0 <= i < |qs| ==> all[|ps| + i] == qs[i];
    if SomePartial(qs) { var i :| 0 <= i < |qs| && PartialPlane(qs[i]); assert PartialPlane(all[|ps| + i]); }
    if SomeLimited(qs) {
      var i :| 0 <= i < |qs| && Present(qs[i]) && qs[i].limited;
      assert Present(all[|ps| + i]) && all[|ps| + i].limited;
    }
    forall s | HasState(qs, s) ensures HasState(all, s) {
      var i :| 0 <= i < |qs| && qs[i].state == s;
      assert all[|ps| + i].state == s;
    }
  }

  lemma SplitFacts(ps: seq<Plane>, qs: seq<Plane>)
    ensures |Merged(ps + qs)| == |Merged(ps)| + |Merged(qs)|
  {
    MergedAppend(0, ps, qs);
    MergedLength(0, |Merged(ps)|, qs);
  }

  // What the flat merge and the nested one see of the groups.

  ghost predicate SomeFacts(groups: seq<seq<Plane>>) { exists i :: 0 <= i < |groups| && Merged(groups[i]) != [] }

  ghost predicate SomeGroupState(groups: seq<seq<Plane>>, state: string) { exists i :: 0 <= i < |groups| && HasState(groups[i], state) }

  ghost predicate SomeGroupPartial(groups: seq<seq<Plane>>) { exists i :: 0 <= i < |groups| && SomePartial(groups[i]) }

  ghost predicate SomeGroupLimited(groups: seq<seq<Plane>>) { exists i :: 0 <= i < |groups| && SomeLimited(groups[i]) }

  lemma {:induction false} FlatView(groups: seq<seq<Plane>>)
    ensures SomeFacts(groups) <==> Merged(Flatten(groups)) != []
    ensures SomeGroupPartial(groups) <==> SomePartial(Flatten(groups))
    ensures SomeGroupLimited(groups) <==> SomeLimited(Flatten(groups))
    ensures forall s :: SomeGroupState(groups, s) <==> HasState(Flatten(groups), s)
    ensures forall i :: 0 <= i < |groups| ==> |Merged(groups[i])| <= |Merged(Flatten(groups))|
  {
    hide Merged, SomePartial, SomeLimited, HasState;
    if groups == [] {
      NothingFlat();
    } else {
      var g, rest := groups[0], groups[1..];
      FlatView(rest);
      SplitFlags(g, Flatten(rest));
      SplitFacts(g, Flatten(rest));
      assert forall i :: 0 <= i < |rest| ==> rest[i] == groups[i + 1];
      assert forall i :: 1 <= i < |groups| ==> groups[i] == rest[i - 1];
    }
  }

  lemma NothingFlat()
    ensures Merged([]) == [] && !SomePartial([]) && !SomeLimited([]) && forall s :: !HasState([], s)
  {
  }

  /** Some group with facts was cut short. */
  ghost predicate LimitedFacts(groups: seq<seq<Plane>>) {
    exists i :: 0 <= i < |groups| && Merged(groups[i]) != [] && SomeLimited(groups[i])
  }

  /** Some group that leaves a trace was cut short. */
  ghost predicate LimitedTrace(groups: seq<seq<Plane>>) {
    exists i :: 0 <= i < |groups| && MergedState(groups[i]) != "NOT_PRESENT" && SomeLimited(groups[i])
  }

  lemma NestedView(groups: seq<seq<Plane>>)
    requires |Merged(Flatten(groups))| < U32_LIMIT
    ensures Merged(AsPlanes(groups)) != [] <==> SomeFacts(groups)
    ensures SomePartial(AsPlanes(groups)) <==> exists i :: 0 <= i < |groups| && MergedState(groups[i]) == "PARTIAL"
    ensures SomeLimited(AsPlanes(groups)) <==> LimitedTrace(groups)
    ensures forall s :: HasState(AsPlanes(groups), s) <==> exists i :: 0 <= i < |groups| && MergedState(groups[i]) == s
  {
    hide MergedState, SomeLimited, MergedFrom, PartialPlane, Flatten, SomePartial, HasState, LimitedTrace, SomeFacts;
    FlatView(groups);
    MergeFlattens(0, groups);
    var ps := AsPlanes(groups);
    forall i | 0 <= i < |groups| ensures ps[i] == AsPlane(groups[i]) && (PartialPlane(ps[i]) <==> MergedState(groups[i]) == "PARTIAL") {
      MergedPlaneIsSound(groups[i]);
    }
    PlaneFlags(groups, ps);
  }

  lemma PlaneFlags(groups: seq<seq<Plane>>, ps: seq<Plane>)
    requires |ps| == |groups| && forall i :: 0 <= i < |groups| ==>
      ps[i] == AsPlane(groups[i]) && (PartialPlane(ps[i]) <==> MergedState(groups[i]) == "PARTIAL")
    ensures SomePartial(ps) <==> exists i :: 0 <= i < |groups| && MergedState(groups[i]) == "PARTIAL"
    ensures SomeLimited(ps) <==> LimitedTrace(groups)
    ensures forall s :: HasState(ps, s) <==> exists i :: 0 <= i < |groups| && MergedState(groups[i]) == s
  {
    hide MergedState, PartialPlane, Merged;
    assert forall i :: 0 <= i < |groups| ==> ps[i].state == MergedState(groups[i]) && ps[i].limited == SomeLimited(groups[i]);
  }

  /** The states agree exactly when a cut-short group is not the only flaw and without facts: either there is no fact, or
      some plane is partial, failed or unsupported, or nothing was cut short, or a group with facts was. */
  lemma StateFlattensExactlyWhen(groups: seq<seq<Plane>>)
    requires |Merged(Flatten(groups))| < U32_LIMIT
    ensures MergedState(AsPlanes(groups)) == MergedState(Flatten(groups)) <==>
            Merged(Flatten(groups)) == [] || Spoiled(Flatten(groups)) || !SomeLimited(Flatten(groups)) || LimitedFacts(groups)
  {
    hide Flatten, SomePartial, HasState, SomeLimited, Merged, AsPlanes;
    FlatView(groups);
    NestedView(groups);
  }

  /** The limit flags agree exactly when nothing was cut short or a group that leaves a trace was. */
  lemma LimitFlattensExactlyWhen(groups: seq<seq<Plane>>)
    requires |Merged(Flatten(groups))| < U32_LIMIT
    ensures SomeLimited(AsPlanes(groups)) == SomeLimited(Flatten(groups)) <==> !SomeLimited(Flatten(groups)) || LimitedTrace(groups)
  {
    hide Flatten, SomeLimited, Merged, AsPlanes, MergedState;
    FlatView(groups);
    NestedView(groups);
  }

  /** A cut-short group without facts is forgotten: the nested merge is resolved, the flat one partial. */
  lemma CutShortGroupIsForgotten(e: Entry)
    requires e.dependency < 0
    ensures var groups := [[Plane("RESOLVED", true, [])], [Plane("RESOLVED", false, [e])]];
            MergedState(Flatten(groups)) == "PARTIAL" && MergedState(AsPlanes(groups)) == "RESOLVED" &&
            SomeLimited(Flatten(groups)) && !SomeLimited(AsPlanes(groups))
  {
    hide MergedState, SomeLimited, AsPlanes, Flatten;
    var empty, one := Plane("RESOLVED", true, []), Plane("RESOLVED", false, [e]);
    FlattenTwo([empty], [one]);
    FlatIsPartial(empty, one);
    NestedIsResolved(empty, one);
  }

  lemma FlatIsPartial(empty: Plane, one: Plane)
    requires empty == Plane("RESOLVED", true, [])
    requires one.state == "RESOLVED" && !one.limited && |one.view| == 1 && one.view[0].dependency < 0
    ensures |Merged([empty] + [one])| == 1 && MergedState([empty] + [one]) == "PARTIAL" && SomeLimited([empty] + [one])
  {
    hide Merged, SomePartial, SomeLimited, HasState, PartialPlane;
    ResolvedPlane(empty);
    ResolvedPlane(one);
    SplitFacts([empty], [one]);
    SplitFlags([empty], [one]);
  }

  lemma NestedIsResolved(empty: Plane, one: Plane)
    requires empty == Plane("RESOLVED", true, [])
    requires one.state == "RESOLVED" && !one.limited && |one.view| == 1 && one.view[0].dependency < 0
    ensures MergedState(AsPlanes([[empty], [one]])) == "RESOLVED" && !SomeLimited(AsPlanes([[empty], [one]]))
  {
    var groups := [[empty], [one]];
    assert MergedState(groups[0]) == "NOT_PRESENT" by { hide Merged, PartialPlane; ResolvedPlane(empty); }
    assert MergedState(groups[1]) == "RESOLVED" && Merged(groups[1]) != [] && !SomeLimited(groups[1]) by {
      hide Merged, SomePartial, SomeLimited, HasState;
      ResolvedPlane(one);
    }
    assert |Merged(Flatten(groups))| < U32_LIMIT by { FlatIsPartial(empty, one); FlattenTwo([empty], [one]); }
    TwoGroups(groups);
  }

  /** A group that leaves no trace beside a resolved one. */
  lemma TwoGroups(groups: seq<seq<Plane>>)
    requires |groups| == 2 && MergedState(groups[0]) == "NOT_PRESENT" && MergedState(groups[1]) == "RESOLVED"
    requires Merged(groups[1]) != [] && !SomeLimited(groups[1]) && |Merged(Flatten(groups))| < U32_LIMIT
    ensures MergedState(AsPlanes(groups)) == "RESOLVED" && !SomeLimited(AsPlanes(groups))
  {
    NestedView(groups);
    assert SomeFacts(groups);
    hide Merged, SomePartial, SomeLimited, HasState, AsPlanes, Flatten;
    ResolvedState(AsPlanes(groups)) by { hide MergedState; }
  }

  lemma ResolvedState(ps: seq<Plane>)
    requires Merged(ps) != [] && !SomePartial(ps) && !HasState(ps, "FAILED") && !HasState(ps, "UNSUPPORTED") && !SomeLimited(ps)
    ensures MergedState(ps) == "RESOLVED"
  {
  }

  lemma FlattenTwo(a: seq<Plane>, b: seq<Plane>)
    ensures Flatten([a, b]) == a + b
  {
    assert [a, b][1..] == [b] && [b][1..] == [];
    assert Flatten([b]) == b + [];
  }

  /** A resolved plane with at most one fact, which depends on nothing. */
  lemma ResolvedPlane(p: Plane)
    requires p.state == "RESOLVED" && |p.view| <= 1 && forall i :: 0 <= i < |p.view| ==> p.view[i].dependency < 0
    ensures |Merged([p])| == |p.view| && !SomePartial([p]) && !HasState([p], "FAILED") && !HasState([p], "UNSUPPORTED")
    ensures SomeLimited([p]) <==> p.limited
  {
    var ps := [p];
    assert ps[1..] == [] && ps[0] == p && Present(ps[0]);
    assert !PartialPlane(p);
    MergedOne([], p);
    assert [] + [p] == ps && Merged([]) == [];
  }
}
