/** The copy-on-write fact list (include/prts/implicit_exec.hpp:44-178). Several lists may share the storage of
    their facts; a list writes in place only when nobody else refers to its storage. */
module FactLists {
  import opened Common

  /** The fields of a fact that the list never interprets. */
  datatype FactData = FactData(priority: string, anomalyClass: string, evidenceState: string, rest: seq<string>)

  datatype Fact = Fact(index: u32, dependsOn: int, data: FactData)

  /** What a reader of a list sees at one position. */
  datatype Entry = Entry(data: FactData, index: u32, dependency: int)

  function EntryOf(f: Fact): Entry { Entry(f.data, f.index, f.dependsOn) }

  function Entries(items: seq<Fact>): (r: seq<Entry>)
    ensures |r| == |items|
  {
    seq(|items|, i requires 0 <= i < |items| => EntryOf(items[i]))
  }

  class Storage {
    var items: seq<Fact>

    constructor (items: seq<Fact>)
      ensures this.items == items
    {
      this.items := items;
    }
  }

  datatype Segment = Segment(storage: Storage, storageOffset: nat, count: nat, viewOffset: nat)

  /** The segments tile the positions below n without gaps. */
  ghost predicate Tiles(segments: seq<Segment>, n: nat) {
    if segments == [] then n == 0
    else
      var last := segments[|segments| - 1];
      last.viewOffset + last.count == n && Tiles(segments[..|segments| - 1], last.viewOffset)
  }

  predicate Covers(s: Segment, i: nat) { i >= s.viewOffset && i - s.viewOffset < s.count }

  lemma {:induction false} SomeSegmentCovers(segments: seq<Segment>, n: nat, i: nat) returns (k: nat)
    requires Tiles(segments, n) && i < n
    ensures k < |segments| && Covers(segments[k], i)
  {
    k := |segments| - 1;
    if i < segments[k].viewOffset {
      k := SomeSegmentCovers(segments[..k], segments[k].viewOffset, i);
    }
  }

  /** The live lists. Reference counts are what the standard promises of them: a storage is uniquely owned
      exactly when no other live list refers to it. */
  class Program {
    var lists: set<FactList>

    constructor ()
      ensures lists == {}
    {
      lists := {};
    }

    ghost predicate Valid()
      reads this, lists, set l, s | l in lists && s in l.stores :: s
    {
      forall l :: l in lists ==> l.Valid()
    }

    /** use_count() == 1 for the storage that l owns. */
    predicate SoleOwner(l: FactList, s: Storage)
      reads this, lists
    {
      forall m :: m in lists && m != l ==> !m.RefersTo(s)
    }
  }

  class FactList {
    var owned: Storage?
    var segments: seq<Segment>
    var viewDependencies: seq<int>
    var sharedView: bool
    /** The abstract value, and the storages it is read from. */
    ghost var contents: seq<Entry>
    ghost var stores: set<Storage>

    ghost predicate Valid() reads this, stores {
      if sharedView then owned == null && ViewOk(segments, viewDependencies, contents, stores)
      else
        segments == [] && viewDependencies == [] && stores == (if owned == null then {} else {owned}) &&
        contents == if owned == null then [] else Entries(owned.items)
    }

    predicate RefersTo(s: Storage) reads this {
      owned == s || exists k :: 0 <= k < |segments| && segments[k].storage == s
    }

    constructor ()
      ensures Valid() && contents == [] && stores == {} && !sharedView
    {
      owned, segments, viewDependencies, sharedView := null, [], [], false;
      contents, stores := [], {};
    }

    /** Copying a list copies its references, not its facts. */
    constructor Copy(source: FactList)
      requires source.Valid()
      ensures Valid() && contents == source.contents && stores == source.stores && sharedView == source.sharedView
    {
      owned, segments, viewDependencies, sharedView := source.owned, source.segments, source.viewDependencies, source.sharedView;
      contents, stores := source.contents, source.stores;
    }

    /** Copy assignment. */
    method AssignFrom(source: FactList)
      requires source.Valid()
      modifies this
      ensures Valid() && contents == old(source.contents) && stores == old(source.stores) && sharedView == old(source.sharedView)
    {
      owned, segments, viewDependencies, sharedView := source.owned, source.segments, source.viewDependencies, source.sharedView;
      contents, stores := source.contents, source.stores;
    }

    method Size() returns (n: nat)
      requires Valid()
      ensures n == |contents|
    {
      if sharedView { return |viewDependencies|; }
      return if owned == null then 0 else |owned.items|;
    }

    /** The fact at a position; in a view its own index and dependency are those of the plane it came from. */
    method RefAt(i: nat) returns (f: Fact)
      requires Valid() && i < |contents|
      ensures f.data == contents[i].data
      ensures !sharedView ==> EntryOf(f) == contents[i]
    {
      if !sharedView { return owned.items[i]; }
      var k := 0;
      ghost var found := SomeSegmentCovers(segments, |viewDependencies|, i);
      while !Covers(segments[k], i)
        invariant k <= found
        decreases found - k
      {
        k := k + 1;
      }
      return segments[k].storage.items[segments[k].storageOffset + (i - segments[k].viewOffset)];
    }

    method IndexAt(i: nat) returns (n: u32)
      requires Valid() && i < |contents|
      ensures n == contents[i].index
    {
      if sharedView { return i % U32_LIMIT; }
      var f := RefAt(i);
      return f.index;
    }

    method DependencyAt(i: nat) returns (d: int)
      requires Valid() && i < |contents|
      ensures d == contents[i].dependency
    {
      if sharedView { return viewDependencies[i]; }
      var f := RefAt(i);
      return f.dependsOn;
    }

    /** Copy every fact out of a shared view, with the view's indexes and dependencies. */
    method Materialize() returns (items: seq<Fact>)
      requires Valid() && sharedView
      ensures Entries(items) == contents
    {
      items := [];
      var n := Size();
      for i := 0 to n
        invariant |items| == i
        invariant forall k :: 0 <= k < i ==> EntryOf(items[k]) == contents[k]
      {
        var fact := RefAt(i);
        var index := IndexAt(i);
        var dependency := DependencyAt(i);
        items := items + [fact.(index := index, dependsOn := dependency)];
      }
    }

    /** The list has storage that no other live list shows anything of. */
    ghost predicate Unshared(program: Program) reads this, program, program.lists {
      !sharedView && owned != null && forall m :: m in program.lists && m != this ==> owned !in m.stores
    }

    /** Give the list a storage of its own, unless it is the only one that refers to the storage it has. */
    method EnsureOwnedForWrite(program: Program)
      requires program.Valid() && this in program.lists
      modifies this
      ensures Valid() && !sharedView && owned != null && contents == old(contents)
      ensures fresh(owned) || (owned == old(owned) && forall m :: m in program.lists && m != this ==> owned !in m.stores)
      ensures owned == old(owned) <==> old(Unshared(program))
    {
      if sharedView {
        var items := Materialize();
        owned := new Storage(items);
        segments, viewDependencies, sharedView := [], [], false;
      } else if owned == null {
        owned := new Storage([]);
      } else if !program.SoleOwner(this, owned) {
        owned := new Storage(owned.items);
      }
      stores := {owned};
    }

    /** Append one fact. No other live list changes its value, whoever shares storage with this one. */
    method PushBack(program: Program, fact: Fact)
      requires program.Valid() && this in program.lists
      modifies this, if owned == null then {} else {owned}
      ensures program.Valid() && contents == old(contents) + [EntryOf(fact)] && !sharedView
      ensures fresh(stores - old(stores))
      ensures forall m :: m in program.lists && m != this ==> 
                m.contents == old(m.contents) && m.stores == old(m.stores) && m.sharedView == old(m.sharedView)
    {
      hide Unshared;
      EnsureOwnedForWrite(program);
      assert forall m :: m in program.lists && m != this ==> owned !in m.stores;
      owned.items := owned.items + [fact];
      contents := contents + [EntryOf(fact)];
      assert Valid();
    }

    /** Append a view of another list's facts; refused with false where the code throws. */
    method AppendSharedView(source: FactList, dependencies: seq<int>) returns (ok: bool)
      requires Valid() && source.Valid() && source != this
      modifies this
      ensures Valid() && (ok ==> stores <= old(stores) + source.stores) && (!ok ==> stores == old(stores))
      ensures ok <==> |dependencies| == |source.contents| && (old(sharedView) || old(contents) == [])
      ensures contents == if ok then old(contents) + Renumbered(source.contents, dependencies, |old(contents)|) else old(contents)
      ensures sharedView == (old(sharedView) || ok)
    {
      hide SegmentShows, Tiles, ViewOk, Valid;
      var n := source.Size();
      if |dependencies| != n { return false; }
      var mine := Size();
      if !sharedView && mine != 0 { return false; }
      ghost var after := contents + Renumbered(source.contents, dependencies, |contents|);
      BeginView(this, after);
      var joined := JoinSegments(segments, |viewDependencies|, source, after);
      ExtendedViewOk(this, source, dependencies, joined);
      BecomeView(joined, viewDependencies + dependencies, after);
      return true;
    }

    method BecomeView(segments: seq<Segment>, dependencies: seq<int>, ghost contents: seq<Entry>)
      requires ViewOk(segments, dependencies, contents, SegmentStores(segments))
      modifies this
      ensures Valid() && sharedView && this.contents == contents && stores == SegmentStores(segments)
    {
      sharedView, owned, this.segments, viewDependencies := true, null, segments, dependencies;
      this.contents, stores := contents, SegmentStores(segments);
    }
  }

  ghost function SegmentStores(segments: seq<Segment>): set<Storage> {
    set k | 0 <= k < |segments| :: segments[k].storage
  }

  /** The list is a view, or empty and about to become one. */
  lemma BeginView(l: FactList, after: seq<Entry>)
    requires l.Valid() && (l.sharedView || l.contents == []) && l.contents <= after
    ensures |l.viewDependencies| == |l.contents| && Tiles(l.segments, |l.contents|)
    ensures forall k :: 0 <= k < |l.segments| ==> SegmentShows(l.segments[k], after) && l.segments[k].storage in l.stores
  {
    ShowsMore(l.segments, l.contents, after);
  }

  lemma ExtendedViewOk(l: FactList, source: FactList, dependencies: seq<int>, joined: seq<Segment>)
    requires l.Valid() && (l.sharedView || l.contents == []) && source.Valid() && |dependencies| == |source.contents|
    requires l.segments <= joined && forall k :: |l.segments| <= k < |joined| ==> joined[k].storage in source.stores
    requires Tiles(joined, |l.contents| + |source.contents|)
    requires forall k :: 0 <= k < |joined| ==>
               SegmentShows(joined[k], l.contents + Renumbered(source.contents, dependencies, |l.contents|))
    ensures ViewOk(joined, l.viewDependencies + dependencies,
                   l.contents + Renumbered(source.contents, dependencies, |l.contents|), SegmentStores(joined))
    ensures SegmentStores(joined) <= l.stores + source.stores
  {
    hide Tiles, SegmentShows;
    forall s | s in SegmentStores(joined) ensures s in l.stores + source.stores {
      var k :| 0 <= k < |joined| && joined[k].storage == s;
      if k < |l.segments| { assert l.segments[k].storage in l.stores; }
    }
  }

  /** A tiled view of facts stored elsewhere, numbered by position. */
  ghost predicate ViewOk(segments: seq<Segment>, dependencies: seq<int>, contents: seq<Entry>, stores: set<Storage>)
    reads stores
  {
    stores == SegmentStores(segments) &&
    Tiles(segments, |dependencies|) && |contents| == |dependencies| &&
    (forall i :: 0 <= i < |contents| ==> contents[i].index == i % U32_LIMIT && contents[i].dependency == dependencies[i]) &&
    forall k :: 0 <= k < |segments| ==> segments[k].storage in stores && SegmentShows(segments[k], contents)
  }

  /** The segments of a view extended by all facts of another list. */
  method JoinSegments(mine: seq<Segment>, at: nat, source: FactList, ghost contents: seq<Entry>) returns (segments: seq<Segment>)
    requires source.Valid() && Tiles(mine, at) && at + |source.contents| == |contents|
    requires forall i :: 0 <= i < |source.contents| ==> contents[at + i].data == source.contents[i].data
    requires forall k :: 0 <= k < |mine| ==> SegmentShows(mine[k], contents)
    ensures Tiles(segments, |contents|)
    ensures forall k :: 0 <= k < |segments| ==> SegmentShows(segments[k], contents)
    ensures mine <= segments && forall k :: |mine| <= k < |segments| ==> segments[k].storage in source.stores
  {
    segments := mine;
    if source.sharedView {
      segments := AppendSegments(mine, at, source, contents);
    } else if source.owned != null && |source.owned.items| != 0 {
      segments := mine + [Segment(source.owned, 0, |source.owned.items|, at)];
      assert segments[..|mine|] == mine;
      MovedShows(Segment(source.owned, 0, |source.owned.items|, 0), segments[|mine|], source.contents, contents, at);
    }
  }

  /** The loop over the segments of a shared source. */
  method AppendSegments(mine: seq<Segment>, at: nat, source: FactList, ghost contents: seq<Entry>) returns (segments: seq<Segment>)
    requires source.Valid() && source.sharedView && Tiles(mine, at) && at + |source.contents| == |contents|
    requires forall i :: 0 <= i < |source.contents| ==> contents[at + i].data == source.contents[i].data
    requires forall k :: 0 <= k < |mine| ==> SegmentShows(mine[k], contents)
    ensures Tiles(segments, |contents|)
    ensures forall k :: 0 <= k < |segments| ==> SegmentShows(segments[k], contents)
    ensures mine <= segments && forall k :: |mine| <= k < |segments| ==> segments[k].storage in source.stores
  {
    segments := mine;
    var viewOffset: nat := at;
    TilesStart(source.segments, |source.contents|);
    for k := 0 to |source.segments|
      invariant Tiles(segments, viewOffset) && viewOffset == at + ViewStart(source.segments, |source.contents|, k)
      invariant forall j :: 0 <= j < |segments| ==> SegmentShows(segments[j], contents)
      invariant mine <= segments && forall j :: |mine| <= j < |segments| ==> segments[j].storage in source.stores
    {
      var s := source.segments[k];
      TilesAt(source.segments, |source.contents|, k);
      var moved := Segment(s.storage, s.storageOffset, s.count, viewOffset);
      MovedShows(s, moved, source.contents, contents, at);
      assert (segments + [moved])[..|segments|] == segments;
      segments := segments + [moved];
      viewOffset := viewOffset + s.count;
    }
  }

  /** Where segment k begins in the view. */
  ghost function ViewStart(segments: seq<Segment>, n: nat, k: nat): nat {
    if k < |segments| then segments[k].viewOffset else n
  }

  lemma {:induction false} TilesAt(segments: seq<Segment>, n: nat, k: nat)
    requires Tiles(segments, n) && k < |segments|
    ensures segments[k].viewOffset + segments[k].count == ViewStart(segments, n, k + 1)
    ensures k == 0 ==> segments[k].viewOffset == 0
    decreases |segments|
  {
    var last := segments[|segments| - 1];
    if k < |segments| - 1 {
      TilesAt(segments[..|segments| - 1], last.viewOffset, k);
    } else if k == 0 {
      assert segments[..0] == [];
    }
  }

  lemma TilesStart(segments: seq<Segment>, n: nat)
    requires Tiles(segments, n)
    ensures ViewStart(segments, n, 0) == 0
  {
    if segments != [] { TilesAt(segments, n, 0); }
  }

  lemma MovedShows(s: Segment, moved: Segment, source: seq<Entry>, contents: seq<Entry>, at: nat)
    requires SegmentShows(s, source) && moved == s.(viewOffset := at + s.viewOffset)
    requires at + |source| <= |contents| && forall i :: 0 <= i < |source| ==> contents[at + i].data == source[i].data
    ensures SegmentShows(moved, contents)
  {
    forall i | moved.viewOffset <= i < moved.viewOffset + moved.count
      ensures contents[i].data == moved.storage.items[moved.storageOffset + (i - moved.viewOffset)].data
    {
      assert contents[at + (i - at)].data == source[i - at].data;
    }
  }

  lemma ShowsMore(segments: seq<Segment>, before: seq<Entry>, after: seq<Entry>)
    requires before <= after
    ensures forall k :: 0 <= k < |segments| && SegmentShows(segments[k], before) ==> SegmentShows(segments[k], after)
  {
  }

  /** The view shows, at the positions of the segment, the data of its part of the storage. */
  ghost predicate SegmentShows(s: Segment, contents: seq<Entry>)
    reads s.storage
  {
    s.storageOffset + s.count <= |s.storage.items| && s.viewOffset + s.count <= |contents| &&
    forall i :: s.viewOffset <= i < s.viewOffset + s.count ==>
      contents[i].data == s.storage.items[s.storageOffset + (i - s.viewOffset)].data
  }

  /** Entries appended at position `at` get their position as index and the given dependencies. */
  ghost function Renumbered(es: seq<Entry>, dependencies: seq<int>, at: nat): (r: seq<Entry>)
    requires |es| == |dependencies|
    ensures |r| == |es|
  {
    seq(|es|, i requires 0 <= i < |es| => Entry(es[i].data, (at + i) % U32_LIMIT, dependencies[i]))
  }
}
