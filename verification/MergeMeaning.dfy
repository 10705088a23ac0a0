/** What the state, the limit flag and the counters of a merge say of its planes, field by field
    (src/core/implicit_exec.cpp:27-61). */
module MergeMeaning {
  import opened Common
  import opened FactLists
  import opened ImplicitMerge

  predicate HasFacts(ps: seq<Plane>) { exists i :: 0 <= i < |ps| && ps[i].state != "NOT_PRESENT" && ps[i].view != [] }

  ghost predicate DistinctIndexes(p: Plane) {
    forall j, k :: 0 <= j < k < |p.view| ==> p.view[j].index != p.view[k].index
  }

  /** Every dependency of the plane names the index of one of its facts. */
  ghost predicate EdgesLead(p: Plane) {
    forall i :: 0 <= i < |p.view| && p.view[i].dependency >= 0 ==>
      exists k :: 0 <= k < |p.view| && p.view[k].index == p.view[i].dependency % 0x1_0000_0000
  }

  ghost predicate Whole(p: Plane) {
    p.state in {"RESOLVED", ""} && !p.limited && DistinctIndexes(p) && EdgesLead(p)
  }

  predicate SomeState(ps: seq<Plane>, states: set<string>) { exists i :: 0 <= i < |ps| && ps[i].state in states }

  /** A state of a plane that is none of the five the merge knows, and not empty. */
  predicate Odd(p: Plane) { p.state !in {"NOT_PRESENT", "RESOLVED", "PARTIAL", "FAILED", "UNSUPPORTED", ""} }

  lemma PartialIsNotWhole(p: Plane)
    requires p.state != "NOT_PRESENT"
    ensures Whole(p) <==> !PartialPlane(p) && !p.limited && p.state != "FAILED" && p.state != "UNSUPPORTED"
    ensures p.view == [] ==> (PartialPlane(p) <==> p.state == "PARTIAL" || Odd(p))
  {
    forall i | 0 <= i < |p.view| && p.view[i].dependency >= 0
      ensures First(p.view, p.view[i].dependency % U32_LIMIT, |p.view|).None? <==>
              !exists k :: 0 <= k < |p.view| && p.view[k].index == p.view[i].dependency % 0x1_0000_0000
    {
      FirstIsFirst(p.view, p.view[i].dependency % U32_LIMIT, |p.view|);
    }
  }

  lemma {:induction false} MergedHasFacts(base: nat, ps: seq<Plane>)
    ensures MergedFrom(base, ps) != [] <==> HasFacts(ps)
    decreases |ps|
  {
    if ps != [] {
      var rest := ps[1..];
      MergedHasFacts(if Present(ps[0]) then base + |ps[0].view| else base, rest);
      assert forall i :: 0 <= i < |rest| ==> rest[i] == ps[i + 1];
    }
  }

  /** With facts, the merge is resolved exactly when every plane is whole, and partial otherwise. */
  lemma ResolvedExactlyWhenWhole(ps: seq<Plane>)
    requires HasFacts(ps)
    ensures MergedState(ps) == "RESOLVED" <==>
            forall i :: 0 <= i < |ps| && ps[i].state != "NOT_PRESENT" ==> Whole(ps[i])
    ensures MergedState(ps) == "RESOLVED" || MergedState(ps) == "PARTIAL"
  {
    hide PartialPlane, Whole, MergedFrom;
    MergedHasFacts(0, ps);
    forall i | 0 <= i < |ps| && ps[i].state != "NOT_PRESENT"
      ensures Whole(ps[i]) <==> !PartialPlane(ps[i]) && !ps[i].limited && ps[i].state != "FAILED" && ps[i].state != "UNSUPPORTED"
    {
      PartialIsNotWhole(ps[i]);
    }
    AbsentIsNotPartial(ps);
  }

  lemma AbsentIsNotPartial(ps: seq<Plane>)
    ensures forall i :: 0 <= i < |ps| && PartialPlane(ps[i]) ==> ps[i].state != "NOT_PRESENT"
  {
  }

  /** Without facts, a failed plane outweighs a partial one, and that an unsupported one; a plane that was cut short
      leaves no trace. */
  lemma FailedOutweighsPartial(ps: seq<Plane>)
    requires !HasFacts(ps)
    ensures MergedState(ps) ==
      if SomeState(ps, {"FAILED"}) then "FAILED"
      else if SomeState(ps, {"PARTIAL"}) || (exists i :: 0 <= i < |ps| && Odd(ps[i])) then "PARTIAL"
      else if SomeState(ps, {"UNSUPPORTED"}) then "UNSUPPORTED"
      else "NOT_PRESENT"
  {
    hide PartialPlane, MergedFrom, Odd;
    MergedHasFacts(0, ps);
    AbsentIsNotPartial(ps);
    forall i | 0 <= i < |ps| ensures PartialPlane(ps[i]) <==> ps[i].state == "PARTIAL" || Odd(ps[i]) {
      if ps[i].state != "NOT_PRESENT" {
        PartialIsNotWhole(ps[i]);
      } else {
        AbsentIsNotOdd(ps[i]);
      }
    }
  }

  lemma AbsentIsNotOdd(p: Plane)
    requires p.state == "NOT_PRESENT"
    ensures !Odd(p)
  {
  }

  // The counters.

  ghost function Where(es: seq<Entry>, holds: FactData -> bool): set<nat> {
    set i: nat | i < |es| && holds(es[i].data)
  }

  lemma WhereGrows(es: seq<Entry>, holds: FactData -> bool)
    requires es != []
    ensures var last := |es| - 1;
            |Where(es, holds)| == |Where(es[..last], holds)| + if holds(es[last].data) then 1 else 0
  {
    var last := |es| - 1;
    assert Where(es, holds) == Where(es[..last], holds) + if holds(es[last].data) then {last} else {};
  }

  /** Each counter is the number of facts it names. */
  lemma {:induction false} TallyIsCount(es: seq<Entry>)
    ensures var t := TallyOf(es);
            t.high == |Where(es, (d: FactData) => d.priority == "HIGH")| &&
            t.review == |Where(es, (d: FactData) => d.priority == "REVIEW")| &&
            t.informational == |Where(es, (d: FactData) => d.priority !in {"HIGH", "REVIEW"})| &&
            t.anomaly == |Where(es, (d: FactData) => d.anomalyClass !in {"", "NONE"})| &&
            t.unresolved == |Where(es, (d: FactData) => d.evidenceState == "UNRESOLVED_RUNTIME_SEMANTICS")|
  {
    if es != [] {
      hide Where;
      TallyIsCount(es[..|es| - 1]);
      WhereGrows(es, (d: FactData) => d.priority == "HIGH");
      WhereGrows(es, (d: FactData) => d.priority == "REVIEW");
      WhereGrows(es, (d: FactData) => d.priority !in {"HIGH", "REVIEW"});
      WhereGrows(es, (d: FactData) => d.anomalyClass !in {"", "NONE"});
      WhereGrows(es, (d: FactData) => d.evidenceState == "UNRESOLVED_RUNTIME_SEMANTICS");
    }
  }
}
