/** The final choice of reports: greedy in ranking order, and why that is the best feasible choice
    (include/prts/directory_report_spool.hpp:167-185). */
module ReportSelection {
  import opened Common
  import opened ReportRank

  /** Bytes of the records whose index is in s. */
  ghost function SetBytes(rs: seq<Record>, s: set<nat>): nat {
    if rs == [] then 0
    else SetBytes(rs[..|rs| - 1], s) + (if |rs| - 1 in s then rs[|rs| - 1].fullBytes else 0)
  }

  lemma {:induction false} SetBytesAdd(rs: seq<Record>, s: set<nat>, i: nat)
    requires i !in s
    ensures SetBytes(rs, s + {i}) == SetBytes(rs, s) + (if i < |rs| then rs[i].fullBytes else 0)
    decreases |rs|
  {
    if rs != [] { SetBytesAdd(rs[..|rs| - 1], s, i); }
  }

  lemma {:induction false} SetBytesMonotone(rs: seq<Record>, s: set<nat>, t: set<nat>)
    requires s <= t
    ensures SetBytes(rs, s) <= SetBytes(rs, t)
  {
    if rs != [] { SetBytesMonotone(rs[..|rs| - 1], s, t); }
  }

  lemma {:induction false} SetBytesOfSelected(rs: seq<Record>, s: set<nat>)
    requires forall i :: 0 <= i < |rs| ==> (rs[i].selected <==> i in s)
    ensures SetBytes(rs, s) == Sum(rs, Selected)
  {
    if rs != [] { SetBytesOfSelected(rs[..|rs| - 1], s); }
  }

  lemma {:induction false} SetBytesSameSizes(a: seq<Record>, b: seq<Record>, s: set<nat>)
    requires |a| == |b| && forall i :: 0 <= i < |a| ==> a[i].fullBytes == b[i].fullBytes
    ensures SetBytes(a, s) == SetBytes(b, s)
  {
    if a != [] { SetBytesSameSizes(a[..|a| - 1], b[..|b| - 1], s); }
  }

  ghost function Cached(rs: seq<Record>): set<nat> { set i: nat | i < |rs| && rs[i].payload.Some? }

  ghost function Chosen(rs: seq<Record>): set<nat> { set i: nat | i < |rs| && rs[i].selected }

  ghost predicate DistinctKeys(rs: seq<Record>) {
    forall i, j :: 0 <= i < j < |rs| ==> rs[i].key != rs[j].key
  }

  /** s could be rendered inline: cached reports that fit the budget together. */
  ghost predicate Feasible(rs: seq<Record>, s: set<nat>) {
    s <= Cached(rs) && SetBytes(rs, s) <= INLINE_BYTES
  }

  /** b is the best-ranked report on which the two choices differ, and only s has it. */
  ghost predicate WinsAt(rs: seq<Record>, s: set<nat>, t: set<nat>, b: nat)
    requires s <= Cached(rs) && t <= Cached(rs)
  {
    b in s && b !in t && forall x :: x in (s - t) + (t - s) && x != b ==> Better(rs[b], rs[x])
  }

  /** s beats every other feasible choice on the best-ranked report on which they differ. */
  ghost predicate LexGreatest(rs: seq<Record>, s: set<nat>) {
    Feasible(rs, s) && forall t :: Feasible(rs, t) && t != s ==> exists b: nat :: WinsAt(rs, s, t, b)
  }

  /** A lexicographically greatest choice is unique, so it depends on nothing but sizes, ranks and the cache. */
  lemma LexGreatestUnique(rs: seq<Record>, s: set<nat>, t: set<nat>)
    requires LexGreatest(rs, s) && LexGreatest(rs, t)
    ensures s == t
  {
    if s != t {
      var a: nat :| WinsAt(rs, s, t, a);
      var b: nat :| WinsAt(rs, t, s, b);
      assert a in (t - s) + (s - t) && b in (s - t) + (t - s);
      BetterIsStrictOrder(rs[a], rs[b], rs[a]);
    }
  }

  /** The selected reports that come before report j. */
  ghost function ChosenAhead(rs: seq<Record>, j: nat): set<nat>
    requires j < |rs|
  {
    set i: nat | i < |rs| && rs[i].selected && Ahead(rs[i], rs[j])
  }

  /** A cached report is selected exactly when it fits into the 16 MiB beside the selected reports before it. */
  ghost predicate ChosenByRoom(rs: seq<Record>) {
    forall j :: 0 <= j < |rs| && rs[j].payload.Some? ==>
      (rs[j].selected <==> SetBytes(rs, ChosenAhead(rs, j)) + rs[j].fullBytes <= 0x100_0000)
  }

  /** In the greatest choice every report that is left out lacks room behind better ones. */
  lemma GreatestIsByRoom(rs: seq<Record>)
    requires LexGreatest(rs, Chosen(rs))
    ensures ChosenByRoom(rs)
  {
    var s := Chosen(rs);
    forall j | 0 <= j < |rs| && rs[j].payload.Some?
      ensures rs[j].selected <==> SetBytes(rs, ChosenAhead(rs, j)) + rs[j].fullBytes <= 0x100_0000
    {
      var t := ChosenAhead(rs, j) + {j};
      BetterIsAhead(rs[j], rs[j]);
      BetterIsStrictOrder(rs[j], rs[j], rs[j]);
      SetBytesAdd(rs, ChosenAhead(rs, j), j);
      assert forall i :: i in ChosenAhead(rs, j) ==> i in s;
      if rs[j].selected {
        SetBytesMonotone(rs, t, s);
      } else if SetBytes(rs, t) <= INLINE_BYTES {
        assert Feasible(rs, t) && j in t && j !in s;
        var b: nat :| WinsAt(rs, s, t, b);
        assert j in t - s;
        BetterIsAhead(rs[b], rs[j]);
      }
    }
  }

  /** Two records that only differ in their online selection state. */
  ghost predicate SameButSelection(a: seq<Record>, b: seq<Record>) {
    |a| == |b| && forall i :: 0 <= i < |a| ==>
      b[i] == a[i].(selected := b[i].selected, reason := b[i].reason)
  }

  lemma LexGreatestSame(a: seq<Record>, b: seq<Record>, s: set<nat>)
    requires SameButSelection(a, b) && LexGreatest(a, s)
    ensures LexGreatest(b, s)
  {
    assert Cached(a) == Cached(b);
    SetBytesSameSizes(a, b, s);
    forall t | Feasible(b, t) && t != s ensures exists w: nat :: WinsAt(b, s, t, w) {
      SetBytesSameSizes(a, b, t);
      assert Feasible(a, t);
      var w: nat :| WinsAt(a, s, t, w);
      assert WinsAt(b, s, t, w);
    }
  }

  /** The final choice does not depend on what was selected or deferred while reports were being added. */
  lemma ChoiceIgnoresOnlineState(a: seq<Record>, b: seq<Record>)
    requires SameButSelection(a, b)
    requires LexGreatest(a, Chosen(a)) && LexGreatest(b, Chosen(b))
    ensures Chosen(a) == Chosen(b)
  {
    LexGreatestSame(a, b, Chosen(a));
    LexGreatestUnique(b, Chosen(a), Chosen(b));
  }

  ghost predicate SortedOrder(rs: seq<Record>, order: seq<nat>) {
    (forall k :: 0 <= k < |order| ==> order[k] < |rs|) &&
    (forall j, k :: 0 <= j < k < |order| ==> order[j] != order[k] && !Better(rs[order[k]], rs[order[j]]))
  }

  lemma InsertFirst(rs: seq<Record>, i: nat, order: seq<nat>)
    requires i < |rs| && i !in order && SortedOrder(rs, order)
    requires order != [] && Better(rs[i], rs[order[0]])
    ensures SortedOrder(rs, [i] + order)
  {
    BetterIsStrictOrder(rs[i], rs[order[0]], rs[i]);
    forall k | 0 <= k < |order| ensures !Better(rs[order[k]], rs[i]) {
      if k > 0 { NotBetterTransitive(rs[order[k]], rs[order[0]], rs[i]); }
    }
  }

  lemma InsertBehind(rs: seq<Record>, i: nat, order: seq<nat>, rest: seq<nat>)
    requires i < |rs| && i !in order && SortedOrder(rs, order)
    requires order != [] && !Better(rs[i], rs[order[0]])
    requires SortedOrder(rs, rest) && forall x :: x in rest <==> x == i || x in order[1..]
    ensures SortedOrder(rs, [order[0]] + rest)
  {
    forall k | 0 <= k < |rest| ensures rest[k] != order[0] && !Better(rs[rest[k]], rs[order[0]]) {
      assert rest[k] in rest;
    }
  }

  /** Insert one index into a sorted order; stands for the standard library sort. */
  function Insert(rs: seq<Record>, i: nat, order: seq<nat>): (r: seq<nat>)
    requires i < |rs| && i !in order && SortedOrder(rs, order)
    ensures SortedOrder(rs, r)
    ensures forall x :: x in r <==> x == i || x in order
  {
    if order == [] then [i]
    else if Better(rs[i], rs[order[0]]) then
      InsertFirst(rs, i, order);
      [i] + order
    else
      assert order == [order[0]] + order[1..];
      var rest := Insert(rs, i, order[1..]);
      InsertBehind(rs, i, order, rest);
      [order[0]] + rest
  }

  /** The cached records in ranking order. */
  function Ranked(rs: seq<Record>, n: nat): (r: seq<nat>)
    requires n <= |rs|
    ensures SortedOrder(rs, r)
    ensures forall x: nat :: x in r <==> x < n && rs[x].payload.Some?
  {
    if n == 0 then []
    else if rs[n - 1].payload.Some? then Insert(rs, n - 1, Ranked(rs, n - 1))
    else Ranked(rs, n - 1)
  }

  /** What the greedy pass has chosen after the first k ranked records. */
  ghost function Greedy(rs: seq<Record>, order: seq<nat>, k: nat): set<nat>
    requires k <= |order| && forall j :: 0 <= j < |order| ==> order[j] < |rs|
  {
    if k == 0 then {}
    else
      var before := Greedy(rs, order, k - 1);
      if rs[order[k - 1]].fullBytes <= INLINE_BYTES - SetBytes(rs, before) then before + {order[k - 1]} else before
  }

  lemma {:induction false} SetBytesNone(rs: seq<Record>)
    ensures SetBytes(rs, {}) == 0
  {
    if rs != [] { SetBytesNone(rs[..|rs| - 1]); }
  }

  lemma {:induction false} GreedyBasics(rs: seq<Record>, order: seq<nat>, k: nat)
    requires SortedOrder(rs, order) && k <= |order|
    ensures forall x :: x in Greedy(rs, order, k) ==> x in order[..k]
    ensures SetBytes(rs, Greedy(rs, order, k)) <= INLINE_BYTES
  {
    if k == 0 {
      SetBytesNone(rs);
    } else {
      GreedyBasics(rs, order, k - 1);
      assert order[..k] == order[..k - 1] + [order[k - 1]];
      SetBytesAdd(rs, Greedy(rs, order, k - 1), order[k - 1]);
    }
  }

  /** Later steps of the pass never revisit an earlier record. */
  lemma {:induction false} GreedyIsFinal(rs: seq<Record>, order: seq<nat>, k: nat, n: nat)
    requires SortedOrder(rs, order) && k <= n <= |order|
    ensures Greedy(rs, order, k) <= Greedy(rs, order, n)
    ensures forall j :: 0 <= j < k && order[j] in Greedy(rs, order, n) ==> order[j] in Greedy(rs, order, k)
    decreases n - k
  {
    if k < n {
      GreedyIsFinal(rs, order, k, n - 1);
    }
  }

  /** The first ranked position on which two choices differ. */
  ghost function FirstDifference(order: seq<nat>, s: set<nat>, t: set<nat>, k: nat): (r: nat)
    requires k <= |order| && forall j :: 0 <= j < k ==> (order[j] in s <==> order[j] in t)
    ensures r <= |order| && forall j :: 0 <= j < r ==> (order[j] in s <==> order[j] in t)
    ensures r < |order| ==> (order[r] in s) != (order[r] in t)
    decreases |order| - k
  {
    if k == |order| || (order[k] in s) != (order[k] in t) then k else FirstDifference(order, s, t, k + 1)
  }

  /** At the first difference the greedy choice has the record and the other feasible choice does not. */
  lemma GreedyWinsFirstDifference(rs: seq<Record>, order: seq<nat>, t: set<nat>)
    requires SortedOrder(rs, order) && SetBytes(rs, t) <= INLINE_BYTES
    ensures var s := Greedy(rs, order, |order|);
            var k := FirstDifference(order, s, t, 0);
            k < |order| ==> order[k] in s && order[k] !in t
  {
    var s := Greedy(rs, order, |order|);
    var k := FirstDifference(order, s, t, 0);
    if k < |order| && order[k] in t {
      GreedyBasics(rs, order, k);
      GreedyIsFinal(rs, order, k, |order|);
      GreedyIsFinal(rs, order, k + 1, |order|);
      var before := Greedy(rs, order, k);
      assert forall x :: x in before ==> exists j :: 0 <= j < k && order[j] == x;
      assert before <= s && before <= t;
      assert order[k] !in before;
      SetBytesAdd(rs, before, order[k]);
      SetBytesMonotone(rs, before + {order[k]}, t);
    }
  }

  lemma SomeDifference(rs: seq<Record>, order: seq<nat>, s: set<nat>, t: set<nat>)
    requires forall x :: x in order <==> x in Cached(rs)
    requires s <= Cached(rs) && t <= Cached(rs)
    ensures FirstDifference(order, s, t, 0) == |order| ==> s == t
  {
    var k := FirstDifference(order, s, t, 0);
    forall x | k == |order| && x in Cached(rs) ensures x in s <==> x in t {
      var j :| 0 <= j < |order| && order[j] == x;
    }
  }

  /** With distinct path keys, the greedy choice is lexicographically greatest. */
  lemma GreedyIsLexGreatest(rs: seq<Record>, order: seq<nat>)
    requires DistinctKeys(rs) && SortedOrder(rs, order)
    requires forall x :: x in order <==> x in Cached(rs)
    ensures LexGreatest(rs, Greedy(rs, order, |order|))
  {
    var s := Greedy(rs, order, |order|);
    GreedyBasics(rs, order, |order|);
    forall t | Feasible(rs, t) && t != s ensures exists b: nat :: WinsAt(rs, s, t, b) {
      GreedyWinsFirstDifference(rs, order, t);
      var k := FirstDifference(order, s, t, 0);
      SomeDifference(rs, order, s, t);
      forall x | x in (s - t) + (t - s) && x != order[k] ensures Better(rs[order[k]], rs[x]) {
        assert x in Cached(rs);
        var j :| 0 <= j < |order| && order[j] == x;
        assert j > k;
        BetterIsStrictOrder(rs[order[k]], rs[x], rs[x]);
        assert rs[order[k]].key != rs[x].key;
      }
      assert WinsAt(rs, s, t, order[k]);
    }
  }
}
