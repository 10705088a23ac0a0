/** The prioritised runtime scheduler of a directory run (src/main.cpp:2180-2200). */
module RuntimeSchedule {
  import opened Common

  datatype Tier = Tier1 | Tier2 | Tier3

  /** What the loop reads of a candidate: its tier, whether a static report exists, whether a runtime step was planned. */
  datatype Candidate = Candidate(tier: Tier, reported: bool, planned: bool)

  datatype Outcome =
    | NoStaticReport | NotExecutable | SkippedPriority | SkippedTargetLimit | SkippedRuntimeBudget
    | Ran(timeoutMs: u32)

  datatype Policy = Policy(runAll: bool, maxTargets: u32, totalBudgetMs: u64, timeoutMs: u32)

  /** The checks that do not depend on what ran before. */
  predicate Eligible(p: Policy, c: Candidate) { c.reported && c.planned && (p.runAll || c.tier != Tier3) }

  ghost function Granted(os: seq<Outcome>): nat {
    if os == [] then 0 else Granted(os[..|os| - 1]) + (if os[|os| - 1].Ran? then os[|os| - 1].timeoutMs else 0)
  }

  ghost function Runs(os: seq<Outcome>): nat {
    if os == [] then 0 else Runs(os[..|os| - 1]) + (if os[|os| - 1].Ran? then 1 else 0)
  }

  /** Outcome i of a schedule, in terms of everything decided before it. */
  ghost predicate Decided(p: Policy, c: Candidate, before: seq<Outcome>, o: Outcome) {
    var open := (p.runAll || Runs(before) < p.maxTargets) && Granted(before) < p.totalBudgetMs;
    (o.Ran? <==> Eligible(p, c) && open) &&
    (o.Ran? ==> o.timeoutMs == Min(p.timeoutMs, p.totalBudgetMs - Granted(before))) &&
    (o.NoStaticReport? <==> !c.reported) &&
    (o.NotExecutable? <==> c.reported && !c.planned) &&
    (o.SkippedPriority? <==> c.reported && c.planned && !Eligible(p, c)) &&
    (o.SkippedTargetLimit? <==> Eligible(p, c) && !p.runAll && Runs(before) >= p.maxTargets)
  }

  ghost predicate Schedule(p: Policy, cs: seq<Candidate>, os: seq<Outcome>) {
    |os| <= |cs| && forall i :: 0 <= i < |os| ==> Decided(p, cs[i], os[..i], os[i])
  }

  method ExecuteDirectoryRuntime(p: Policy, cs: seq<Candidate>) returns (os: seq<Outcome>)
    ensures |os| == |cs| && Schedule(p, cs, os)
    ensures Granted(os) <= p.totalBudgetMs
  {
    var used: u64, targets: nat := 0, 0;
    os := [];
    for i := 0 to |cs|
      invariant |os| == i && Schedule(p, cs, os)
      invariant used == Granted(os) <= p.totalBudgetMs && targets == Runs(os)
    {
      var c, o := cs[i], NoStaticReport;
      if !c.reported {
        o := NoStaticReport;
      } else if !c.planned {
        o := NotExecutable;
      } else if !p.runAll && c.tier == Tier3 {
        o := SkippedPriority;
      } else if !p.runAll && targets >= p.maxTargets {
        o := SkippedTargetLimit;
      } else if used >= p.totalBudgetMs {
        o := SkippedRuntimeBudget;
      } else {
        var timeout := Min(p.timeoutMs, Min(p.totalBudgetMs - used, U32_LIMIT - 1));
        o := Ran(timeout);
        used := Min(p.totalBudgetMs, SatAdd(used, timeout));
        targets := targets + 1;
      }
      assert Decided(p, c, os, o);
      ScheduleGrows(p, cs, os, o);
      os := os + [o];
    }
  }

  lemma ScheduleGrows(p: Policy, cs: seq<Candidate>, os: seq<Outcome>, o: Outcome)
    requires Schedule(p, cs, os) && |os| < |cs| && Decided(p, cs[|os|], os, o)
    ensures Schedule(p, cs, os + [o])
    ensures Granted(os + [o]) == Granted(os) + (if o.Ran? then o.timeoutMs else 0)
    ensures Runs(os + [o]) == Runs(os) + (if o.Ran? then 1 else 0)
  {
    assert (os + [o])[..|os|] == os;
    assert forall i :: 0 <= i < |os| ==> (os + [o])[..i] == os[..i];
  }

  /** Runs and granted time only grow along the schedule. */
  lemma {:induction false} Grows(os: seq<Outcome>, i: nat, j: nat)
    requires i <= j <= |os|
    ensures Runs(os[..i]) <= Runs(os[..j]) && Granted(os[..i]) <= Granted(os[..j])
    decreases j - i
  {
    if i < j {
      Grows(os, i, j - 1);
      assert os[..j][..j - 1] == os[..j - 1];
    }
  }

  /** No priority inversion: if a candidate ran, every eligible candidate before it ran as well. */
  lemma NoPriorityInversion(p: Policy, cs: seq<Candidate>, os: seq<Outcome>, i: nat, j: nat)
    requires Schedule(p, cs, os) && i < j < |os|
    requires os[j].Ran? && Eligible(p, cs[i])
    ensures os[i].Ran?
  {
    Grows(os, i, j);
  }

  /** Without run_all at most `maxTargets` candidates run, and none of them is in tier 3. */
  lemma {:induction false} ConservativePolicy(p: Policy, cs: seq<Candidate>, os: seq<Outcome>)
    requires Schedule(p, cs, os) && !p.runAll
    ensures Runs(os) <= p.maxTargets
    ensures forall i :: 0 <= i < |os| && os[i].Ran? ==> cs[i].tier != Tier3
  {
    if os != [] {
      var n := |os| - 1;
      assert forall i :: 0 <= i < n ==> os[..n][..i] == os[..i];
      ConservativePolicy(p, cs, os[..n]);
    }
  }

  /** An eligible candidate is only passed over once the target limit or the time budget is used up, for good. */
  lemma PassedOverForGood(p: Policy, cs: seq<Candidate>, os: seq<Outcome>, i: nat, j: nat)
    requires Schedule(p, cs, os) && i <= j < |os|
    requires Eligible(p, cs[i]) && !os[i].Ran?
    ensures !os[j].Ran?
    ensures (!p.runAll && Runs(os[..i]) >= p.maxTargets) || Granted(os[..i]) >= p.totalBudgetMs
  {
    Grows(os, i, j);
  }
}
