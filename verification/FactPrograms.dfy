/** Any sequence of operations on many fact lists behaves as if every list were a value of its own. */
module FactPrograms {
  import opened FactLists

  /** What a program can do with its lists; numbers name the live lists in order of creation. */
  datatype Op =
    | Create
    | CopyOf(source: nat)
    | Drop(target: nat)
    | Assign(target: nat, source: nat)
    | Push(target: nat, fact: Fact)
    | AppendView(target: nat, source: nat, dependencies: seq<int>)

  /** A list together with the mark whether it is a view, which decides what may be appended to it. */
  datatype Value = Value(entries: seq<Entry>, view: bool)

  /** The meaning of an operation on plain values. Operations on missing lists, and a list appended to itself,
      are not programs of the original and do nothing. */
  ghost function Apply(values: seq<Value>, op: Op): seq<Value> {
    match op
    case Create => values + [Value([], false)]
    case CopyOf(s) => if s < |values| then values + [values[s]] else values
    case Drop(t) => if t < |values| then values[..t] + values[t + 1..] else values
    case Assign(t, s) => if t < |values| && s < |values| then values[t := values[s]] else values
    case Push(t, fact) => if t < |values| then values[t := Value(values[t].entries + [EntryOf(fact)], false)] else values
    case AppendView(t, s, dependencies) =>
      if t < |values| && s < |values| && t != s && |dependencies| == |values[s].entries| &&
         (values[t].view || values[t].entries == []) then
        values[t := Value(values[t].entries + Renumbered(values[s].entries, dependencies, |values[t].entries|), true)]
      else values
  }

  ghost function Interpret(ops: seq<Op>): seq<Value> {
    if ops == [] then [] else Apply(Interpret(ops[..|ops| - 1]), ops[|ops| - 1])
  }

  ghost function AllStores(lists: set<FactList>): set<Storage>
    reads lists
  {
    set l, s | l in lists && s in l.stores :: s
  }

  /** The pool holds the live lists, each showing its own value. */
  ghost predicate Represents(program: Program, pool: seq<FactList>, values: seq<Value>)
    reads program, program.lists, AllStores(program.lists)
  {
    program.Valid() && |pool| == |values| &&
    program.lists == PoolSet(pool) && AllDifferent(pool) &&
    forall i :: 0 <= i < |pool| ==> pool[i].contents == values[i].entries && pool[i].sharedView == values[i].view
  }

  /** A new list joins the pool. */
  method Register(program: Program, pool: seq<FactList>, l: FactList, ghost values: seq<Value>) returns (next: seq<FactList>)
    requires Represents(program, pool, values) && l.Valid() && l !in program.lists
    modifies program
    ensures next == pool + [l] && program.lists == old(program.lists) + {l}
    ensures Represents(program, next, values + [Value(l.contents, l.sharedView)])
  {
    program.lists := program.lists + {l};
    next := pool + [l];
    assert forall m :: m in program.lists ==> m.Valid();
    assert program.lists == PoolSet(next) by {
      assert next[|pool|] == l;
      assert forall i :: 0 <= i < |pool| ==> next[i] == pool[i];
    }
  }

  /** A list goes out of scope: its references disappear, so others may become sole owners. */
  method DropOp(program: Program, pool: seq<FactList>, t: nat, ghost values: seq<Value>) returns (next: seq<FactList>)
    requires Represents(program, pool, values) && t < |pool|
    modifies program
    ensures Represents(program, next, values[..t] + values[t + 1..])
    ensures program.lists <= old(program.lists)
  {
    next := pool[..t] + pool[t + 1..];
    WithoutOne(pool, t);
    program.lists := program.lists - {pool[t]};
  }

  ghost function PoolSet(pool: seq<FactList>): set<FactList> { set i | 0 <= i < |pool| :: pool[i] }

  ghost predicate AllDifferent(pool: seq<FactList>) { forall i, j :: 0 <= i < j < |pool| ==> pool[i] != pool[j] }

  lemma WithoutOne(pool: seq<FactList>, t: nat)
    requires t < |pool| && AllDifferent(pool)
    ensures AllDifferent(pool[..t] + pool[t + 1..]) && PoolSet(pool[..t] + pool[t + 1..]) == PoolSet(pool) - {pool[t]}
  {
    var next := pool[..t] + pool[t + 1..];
    forall l | l in PoolSet(pool) - {pool[t]} ensures l in PoolSet(next) {
      var i :| 0 <= i < |pool| && pool[i] == l;
      assert next[if i < t then i else i - 1] == l;
    }
    assert forall i :: 0 <= i < |next| ==> next[i] == pool[if i < t then i else i + 1];
  }

  method AssignOp(program: Program, pool: seq<FactList>, t: nat, s: nat, ghost values: seq<Value>)
    requires Represents(program, pool, values) && t < |pool| && s < |pool|
    modifies pool[t]
    ensures Represents(program, pool, values[t := values[s]])
    ensures AllStores(program.lists) <= old(AllStores(program.lists))
  {
    assert pool[t] in program.lists && pool[s] in program.lists;
    pool[t].AssignFrom(pool[s]);
  }

  method PushOp(program: Program, pool: seq<FactList>, t: nat, fact: Fact, ghost values: seq<Value>)
    requires Represents(program, pool, values) && t < |pool|
    modifies pool[t], AllStores(program.lists)
    ensures Represents(program, pool, values[t := Value(values[t].entries + [EntryOf(fact)], false)])
    ensures fresh(AllStores(program.lists) - old(AllStores(program.lists)))
  {
    assert pool[t] in program.lists;
    assert forall i :: 0 <= i < |pool| ==> pool[i] in program.lists;
    pool[t].PushBack(program, fact);
  }

  lemma Appended(values: seq<Value>, t: nat, s: nat, dependencies: seq<int>)
    requires t < |values| && s < |values| && t != s
    ensures var after := Apply(values, AppendView(t, s, dependencies));
            |after| == |values| && (forall i :: 0 <= i < |values| && i != t ==> after[i] == values[i]) &&
            after[t] == if |dependencies| == |values[s].entries| && (values[t].view || values[t].entries == []) then
                          Value(values[t].entries + Renumbered(values[s].entries, dependencies, |values[t].entries|), true)
                        else values[t]
  {
    hide Renumbered;
  }

  method AppendOp(program: Program, pool: seq<FactList>, t: nat, s: nat, dependencies: seq<int>, ghost values: seq<Value>)
    requires Represents(program, pool, values) && t < |pool| && s < |pool| && t != s
    modifies pool[t]
    ensures Represents(program, pool, Apply(values, AppendView(t, s, dependencies)))
    ensures AllStores(program.lists) <= old(AllStores(program.lists))
  {
    hide Renumbered, Apply, FactList.Valid;
    PoolIsListed(program, pool, values);
    ghost var after := Apply(values, AppendView(t, s, dependencies));
    Appended(values, t, s, dependencies);
    assert pool[s] != pool[t];
    var ok := pool[t].AppendSharedView(pool[s], dependencies);
    assert pool[t].contents == after[t].entries && pool[t].sharedView == after[t].view;
    forall i | 0 <= i < |pool| && i != t
      ensures pool[i].contents == after[i].entries && pool[i].sharedView == after[i].view
    {
      assert pool[i] != pool[t];
    }
  }

  method CreateOp(program: Program, pool: seq<FactList>, ghost values: seq<Value>) returns (next: seq<FactList>)
    requires Represents(program, pool, values)
    modifies program
    ensures Represents(program, next, values + [Value([], false)])
    ensures fresh(program.lists - old(program.lists))
    ensures fresh(AllStores(program.lists) - old(AllStores(program.lists)))
  {
    var l := new FactList();
    next := Register(program, pool, l, values);
  }

  method CopyOp(program: Program, pool: seq<FactList>, s: nat, ghost values: seq<Value>) returns (next: seq<FactList>)
    requires Represents(program, pool, values) && s < |pool|
    modifies program
    ensures Represents(program, next, values + [values[s]])
    ensures fresh(program.lists - old(program.lists))
    ensures fresh(AllStores(program.lists) - old(AllStores(program.lists)))
  {
    assert pool[s] in program.lists;
    var l := new FactList.Copy(pool[s]);
    next := Register(program, pool, l, values);
  }

  lemma PoolIsListed(program: Program, pool: seq<FactList>, values: seq<Value>)
    requires Represents(program, pool, values)
    ensures |pool| == |values| && forall i :: 0 <= i < |pool| ==> pool[i] in program.lists
  {
  }

  method RunOp(program: Program, pool: seq<FactList>, op: Op, ghost values: seq<Value>) returns (next: seq<FactList>)
    requires Represents(program, pool, values)
    modifies program, program.lists, AllStores(program.lists)
    ensures Represents(program, next, Apply(values, op))
    ensures fresh(program.lists - old(program.lists))
    ensures fresh(AllStores(program.lists) - old(AllStores(program.lists)))
  {
    hide Represents;
    next := pool;
    PoolIsListed(program, pool, values);
    if op.Create? {
      next := CreateOp(program, pool, values);
    } else if op.CopyOf? && op.source < |pool| {
      next := CopyOp(program, pool, op.source, values);
    } else if op.Drop? && op.target < |pool| {
      next := DropOp(program, pool, op.target, values);
    } else if op.Assign? && op.target < |pool| && op.source < |pool| {
      AssignOp(program, pool, op.target, op.source, values);
    } else if op.Push? && op.target < |pool| {
      PushOp(program, pool, op.target, op.fact, values);
    } else if op.AppendView? && op.target < |pool| && op.source < |pool| && op.target != op.source {
      AppendOp(program, pool, op.target, op.source, op.dependencies, values);
    }
  }

  /** Snapshot isolation: after any sequence of operations every list shows exactly the value it would have if
      nothing were shared. Writing to one list never changes another. */
  method Run(ops: seq<Op>) returns (pool: seq<FactList>)
    ensures |pool| == |Interpret(ops)|
    ensures forall i :: 0 <= i < |pool| ==> pool[i].Valid() && pool[i].contents == Interpret(ops)[i].entries
  {
    var program := new Program();
    pool := [];
    for i := 0 to |ops|
      invariant fresh(program) && fresh(program.lists)
      invariant fresh(AllStores(program.lists))
      invariant Represents(program, pool, Interpret(ops[..i]))
    {
      assert ops[..i + 1][..i] == ops[..i];
      pool := RunOp(program, pool, ops[i], Interpret(ops[..i]));
    }
    assert ops[..|ops|] == ops;
  }
}
