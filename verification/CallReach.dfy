/** The bounded breadth-first search over direct calls (src/core/gdextension.cpp:243-266). Instruction decoding is
    a parameter: `targets` gives the direct call and jump targets of a function in program order. */
module CallReach {
  import opened Common

  const MAX_FUNCTIONS: int := 1024
  const MAX_DEPTH: int := 8

  /** One entry of the exception table. */
  datatype RuntimeFunction = RuntimeFunction(begin: u32, end: u32)

  datatype Image = Image(functions: seq<RuntimeFunction>, targets: u32 -> seq<u32>)

  ghost predicate Sorted(fs: seq<RuntimeFunction>) {
    forall i, j :: 0 <= i <= j < |fs| ==> fs[i].begin <= fs[j].begin
  }

  /** The entry before the upper bound of rva, if it covers rva. */
  method FunctionFor(fs: seq<RuntimeFunction>, rva: u32) returns (r: Option<u32>)
    requires Sorted(fs)
    ensures r == Covering(fs, rva)
  {
    var lo, hi := 0, |fs|;
    while lo < hi
      invariant 0 <= lo <= hi <= |fs|
      invariant forall i :: 0 <= i < lo ==> fs[i].begin <= rva
      invariant forall i :: hi <= i < |fs| ==> fs[i].begin > rva
    {
      var mid := (lo + hi) / 2;
      if rva < fs[mid].begin { hi := mid; } else { lo := mid + 1; }
    }
    CoveringAt(fs, rva, lo);
    if lo == 0 { return None; }
    return if rva < fs[lo - 1].end then Some(fs[lo - 1].begin) else None;
  }

  /** The begin of the last entry that starts at or before rva, if that entry covers rva. */
  ghost function Covering(fs: seq<RuntimeFunction>, rva: u32): Option<u32> {
    if fs == [] then None
    else
      var last := fs[|fs| - 1];
      if last.begin > rva then Covering(fs[..|fs| - 1], rva)
      else if rva < last.end then Some(last.begin) else None
  }

  lemma {:induction false} CoveringAt(fs: seq<RuntimeFunction>, rva: u32, n: nat)
    requires n <= |fs| && (n > 0 ==> fs[n - 1].begin <= rva) && forall i :: n <= i < |fs| ==> fs[i].begin > rva
    ensures Covering(fs, rva) == if n > 0 && rva < fs[n - 1].end then Some(fs[n - 1].begin) else None
    decreases |fs|
  {
    if n < |fs| { CoveringAt(fs[..|fs| - 1], rva, n); }
  }

  /** y calls x directly: a target of y lies in the function x, and x is another function. */
  ghost predicate Calls(image: Image, y: u32, x: u32) {
    Covering(image.functions, y).Some? && x != y && CalledIn(image, image.targets(y), x)
  }

  ghost predicate CalledIn(image: Image, targets: seq<u32>, x: u32) {
    exists k :: 0 <= k < |targets| && Covering(image.functions, targets[k]) == Some(x)
  }

  /** x is reached from the root by at most n calls. */
  ghost predicate Within(image: Image, root: u32, x: u32, n: nat)
    decreases n
  {
    if n == 0 then x == root
    else Within(image, root, x, n - 1) || exists y: u32 :: Within(image, root, y, n - 1) && Calls(image, y, x)
  }

  lemma {:induction false} WithinMore(image: Image, root: u32, x: u32, m: nat, n: nat)
    requires m <= n && Within(image, root, x, m)
    ensures Within(image, root, x, n)
    decreases n - m
  {
    if m < n { WithinMore(image, root, x, m + 1, n); }
  }

  datatype Task = Task(begin: u32, depth: nat)

  /** The queue is breadth first: depths never decrease and span two levels. */
  ghost predicate Fifo(q: seq<Task>) {
    (forall i, j :: 0 <= i <= j < |q| ==> q[i].depth <= q[j].depth) &&
    forall i :: 0 <= i < |q| ==> q[i].depth <= q[0].depth + 1
  }

  /** `level` records for every visited function the depth at which it was visited. */
  ghost predicate Sound(image: Image, root: u32, q: seq<Task>, level: map<u32, nat>) {
    (forall i :: 0 <= i < |q| ==> q[i].depth <= MAX_DEPTH && Within(image, root, q[i].begin, q[i].depth)) &&
    (forall x :: x in level ==> level[x] <= MAX_DEPTH && Within(image, root, x, level[x]))
  }

  /** Visited functions were visited no later than anything still queued. */
  ghost predicate Ordered(q: seq<Task>, level: map<u32, nat>) {
    forall x, i :: x in level && 0 <= i < |q| ==> level[x] <= q[i].depth
  }

  ghost predicate Pending(q: seq<Task>, level: map<u32, nat>, x: u32, depth: nat) {
    (x in level && level[x] <= depth) || Task(x, depth) in q
  }

  /** Everything called from a visited function above the depth limit is visited or queued in time. */
  ghost predicate Complete(image: Image, root: u32, q: seq<Task>, level: map<u32, nat>) {
    Pending(q, level, root, 0) &&
    forall y: u32, x: u32 :: y in level && level[y] < MAX_DEPTH && Calls(image, y, x) ==> Pending(q, level, x, level[y] + 1)
  }

  /** The inner loop: queue the covering function of every target, one level deeper. */
  method Successors(image: Image, begin: u32, depth: nat) returns (found: seq<Task>)
    requires Sorted(image.functions) && Covering(image.functions, begin).Some? && depth <= MAX_DEPTH
    ensures depth == MAX_DEPTH ==> found == []
    ensures depth < MAX_DEPTH ==> forall x: u32 :: Calls(image, begin, x) <==> Task(x, depth + 1) in found
    ensures forall t :: t in found ==> t.depth == depth + 1
  {
    found := [];
    var targets := image.targets(begin);
    for i := 0 to |targets|
      invariant depth == MAX_DEPTH ==> found == []
      invariant depth < MAX_DEPTH ==>
                  forall x: u32 :: x != begin && CalledIn(image, targets[..i], x) <==> Task(x, depth + 1) in found
      invariant forall t :: t in found ==> t.depth == depth + 1
    {
      var f := FunctionFor(image.functions, targets[i]);
      CalledGrows(image, targets, i);
      if f.Some? && f.value != begin && depth < MAX_DEPTH {
        found := found + [Task(f.value, depth + 1)];
      }
    }
    assert targets[..|targets|] == targets;
  }

  lemma CalledGrows(image: Image, targets: seq<u32>, i: nat)
    requires i < |targets|
    ensures forall x: u32 :: CalledIn(image, targets[..i + 1], x) <==>
                        CalledIn(image, targets[..i], x) || Covering(image.functions, targets[i]) == Some(x)
  {
    forall x: u32 ensures CalledIn(image, targets[..i + 1], x) <==>
                     CalledIn(image, targets[..i], x) || Covering(image.functions, targets[i]) == Some(x)
    {
      if Covering(image.functions, targets[i]) == Some(x) {
        assert Covering(image.functions, targets[..i + 1][i]) == Some(x);
      }
      if CalledIn(image, targets[..i], x) {
        var k :| 0 <= k < i && Covering(image.functions, targets[..i][k]) == Some(x);
        assert Covering(image.functions, targets[..i + 1][k]) == Some(x);
      }
      if CalledIn(image, targets[..i + 1], x) {
        var k :| 0 <= k <= i && Covering(image.functions, targets[..i + 1][k]) == Some(x);
        if k < i { assert Covering(image.functions, targets[..i][k]) == Some(x); }
      }
    }
  }

  /** A function that is seen for the first time. */
  method Visit(image: Image, ghost root: u32, q: seq<Task>, ghost level: map<u32, nat>)
    returns (next: seq<Task>, ghost after: map<u32, nat>)
    requires Sorted(image.functions) && q != [] && q[0].begin !in level
    requires Fifo(q) && Sound(image, root, q, level) && Ordered(q, level) && Complete(image, root, q, level)
    ensures Fifo(next) && Sound(image, root, next, after) && Ordered(next, after) && Complete(image, root, next, after)
    ensures after == level[q[0].begin := q[0].depth]
  {
    assert q[0].depth <= MAX_DEPTH;
    hide Fifo, Sound, Ordered, Complete, Covering;
    var t := q[0];
    var f := FunctionFor(image.functions, t.begin);
    var found: seq<Task> := [];
    if f.Some? { found := Successors(image, t.begin, t.depth); }
    VisitNew(image, root, q, level, found);
    next, after := q[1..] + found, level[t.begin := t.depth];
  }

  /** The search. Below the cap it returns exactly the functions within eight calls of the entry's function. */
  method ReachableFunctions(image: Image, entry: u32) returns (seen: set<u32>)
    requires Sorted(image.functions)
    ensures Covering(image.functions, entry).None? ==> seen == {}
    ensures var root := Covering(image.functions, entry);
            root.Some? ==> forall x :: x in seen ==> Within(image, root.value, x, 8)
    ensures var root := Covering(image.functions, entry);
            root.Some? && |seen| < 1024 ==> forall x: u32 :: Within(image, root.value, x, 8) ==> x in seen
    ensures |seen| <= 1024
  {
    seen := {};
    var start := FunctionFor(image.functions, entry);
    if start.None? { return; }
    var root := start.value;
    var q := [Task(root, 0)];
    ghost var level: map<u32, nat> := map[];
    while q != [] && |seen| < MAX_FUNCTIONS
      invariant level.Keys == seen && |seen| <= MAX_FUNCTIONS
      invariant Fifo(q) && Sound(image, root, q, level) && Ordered(q, level) && Complete(image, root, q, level)
      decreases MAX_FUNCTIONS - |seen|, |q|
    {
      hide Fifo, Sound, Ordered, Complete, Covering, Within;
      if q[0].begin !in seen {
        seen := seen + {q[0].begin};
        q, level := Visit(image, root, q, level);
      } else {
        VisitOld(image, root, q, level);
        q := q[1..];
      }
    }
    if q == [] {
      forall x: u32 | Within(image, root, x, MAX_DEPTH) ensures x in seen { AllVisited(image, root, level, x, MAX_DEPTH); }
    }
    forall x | x in seen ensures Within(image, root, x, MAX_DEPTH) { WithinMore(image, root, x, level[x], MAX_DEPTH); }
  }

  lemma VisitOld(image: Image, root: u32, q: seq<Task>, level: map<u32, nat>)
    requires q != [] && q[0].begin in level
    requires Fifo(q) && Sound(image, root, q, level) && Ordered(q, level) && Complete(image, root, q, level)
    ensures Fifo(q[1..]) && Sound(image, root, q[1..], level) && Ordered(q[1..], level) && Complete(image, root, q[1..], level)
  {
    forall x: u32, d: nat | Pending(q, level, x, d) ensures Pending(q[1..], level, x, d) {
      if Task(x, d) in q && Task(x, d) !in q[1..] { assert q[0] == Task(x, d); }
    }
  }

  lemma VisitNew(image: Image, root: u32, q: seq<Task>, level: map<u32, nat>, found: seq<Task>)
    requires q != [] && q[0].begin !in level
    requires Fifo(q) && Sound(image, root, q, level) && Ordered(q, level) && Complete(image, root, q, level)
    requires forall t :: t in found ==> t.depth == q[0].depth + 1 <= MAX_DEPTH && Calls(image, q[0].begin, t.begin)
    requires q[0].depth < MAX_DEPTH ==> forall x: u32 :: Calls(image, q[0].begin, x) ==> Task(x, q[0].depth + 1) in found
    ensures var next, after := q[1..] + found, level[q[0].begin := q[0].depth];
            Fifo(next) && Sound(image, root, next, after) && Ordered(next, after) && Complete(image, root, next, after)
  {
    var next, after := q[1..] + found, level[q[0].begin := q[0].depth];
    assert Fifo(next) && Ordered(next, after) by { OrderAfterVisit(q, level, found); }
    assert Sound(image, root, next, after) by { SoundAfterVisit(image, root, q, level, found); }
    assert Complete(image, root, next, after) by { CompleteAfterVisit(image, root, q, level, found); }
  }

  lemma OrderAfterVisit(q: seq<Task>, level: map<u32, nat>, found: seq<Task>)
    requires q != [] && q[0].begin !in level && Fifo(q) && Ordered(q, level)
    requires forall t :: t in found ==> t.depth == q[0].depth + 1
    ensures Fifo(q[1..] + found) && Ordered(q[1..] + found, level[q[0].begin := q[0].depth])
  {
    assert forall i :: 0 <= i < |found| ==> found[i] in found;
  }

  lemma SoundAfterVisit(image: Image, root: u32, q: seq<Task>, level: map<u32, nat>, found: seq<Task>)
    requires q != [] && Sound(image, root, q, level)
    requires forall t :: t in found ==> t.depth == q[0].depth + 1 <= MAX_DEPTH && Calls(image, q[0].begin, t.begin)
    ensures Sound(image, root, q[1..] + found, level[q[0].begin := q[0].depth])
  {
    hide Calls;
    assert forall i :: 0 <= i < |found| ==> found[i] in found;
    forall t | t in found ensures Within(image, root, t.begin, t.depth) {
      assert Within(image, root, q[0].begin, q[0].depth) && Calls(image, q[0].begin, t.begin);
    }
  }

  lemma CompleteAfterVisit(image: Image, root: u32, q: seq<Task>, level: map<u32, nat>, found: seq<Task>)
    requires q != [] && q[0].begin !in level && Complete(image, root, q, level)
    requires q[0].depth < MAX_DEPTH ==> forall x: u32 :: Calls(image, q[0].begin, x) ==> Task(x, q[0].depth + 1) in found
    ensures Complete(image, root, q[1..] + found, level[q[0].begin := q[0].depth])
  {
    hide Calls;
    var next, after := q[1..] + found, level[q[0].begin := q[0].depth];
    forall x: u32, d: nat | Pending(q, level, x, d) ensures Pending(next, after, x, d) {
      if Task(x, d) in q && Task(x, d) !in q[1..] { assert q[0] == Task(x, d); }
    }
  }

  lemma {:induction false} AllVisited(image: Image, root: u32, level: map<u32, nat>, x: u32, n: nat)
    requires Complete(image, root, [], level) && n <= MAX_DEPTH && Within(image, root, x, n)
    ensures x in level && level[x] <= n
    decreases n
  {
    if n == 0 {
      assert Pending([], level, root, 0);
    } else if Within(image, root, x, n - 1) {
      AllVisited(image, root, level, x, n - 1);
    } else {
      var y: u32 :| Within(image, root, y, n - 1) && Calls(image, y, x);
      AllVisited(image, root, level, y, n - 1);
      assert Pending([], level, x, level[y] + 1);
    }
  }
}
