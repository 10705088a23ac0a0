/** The two byte searchers (src/core/search.cpp, include/prts/byte_search.hpp) against one naive search. */
module ByteSearch {
  import opened Common

  /** ASCII case folding of one byte. */
  function Fold(c: u8): u8 { if 65 <= c <= 90 then c + 32 else c }

  /** c and d are the two cases of one ASCII letter. */
  predicate OtherCase(c: u8, d: u8) { ('A' as int <= c <= 'Z' as int && d == c + 32) || ('a' as int <= c <= 'z' as int && c == d + 32) }

  /** Folding tells apart everything but the two cases of a letter. */
  lemma FoldedEqual(c: u8, d: u8)
    ensures Fold(c) == Fold(d) <==> c == d || OtherCase(c, d)
  {
  }

  function Key(ignoreCase: bool, c: u8): u8 { if ignoreCase then Fold(c) else c }

  /** The bytes searched for: the needle itself, or the needle with a zero after every byte. */
  function Pattern(needle: seq<u8>, utf16: bool): seq<u8> {
    if needle == [] then []
    else (if utf16 then [needle[0], 0] else [needle[0]]) + Pattern(needle[1..], utf16)
  }

  ghost predicate MatchAt(p: seq<u8>, ignoreCase: bool, d: seq<u8>, i: int) {
    0 <= i && i + |p| <= |d| && forall j :: 0 <= j < |p| ==> Key(ignoreCase, d[i + j]) == Key(ignoreCase, p[j])
  }

  /** Naive search: try every position in turn. */
  ghost function Naive(p: seq<u8>, ignoreCase: bool, d: seq<u8>, from: nat): Option<nat>
    decreases |d| + 1 - from
  {
    if from + |p| > |d| then None
    else if MatchAt(p, ignoreCase, d, from) then Some(from)
    else Naive(p, ignoreCase, d, from + 1)
  }

  /** Naive search finds the least match at or after `from`, and fails exactly when there is none. */
  lemma {:induction false} NaiveIsLeast(p: seq<u8>, ignoreCase: bool, d: seq<u8>, from: nat)
    ensures match Naive(p, ignoreCase, d, from)
            case Some(i) => from <= i && MatchAt(p, ignoreCase, d, i) &&
                            forall k :: from <= k < i ==> !MatchAt(p, ignoreCase, d, k)
            case None => forall k :: from <= k ==> !MatchAt(p, ignoreCase, d, k)
    decreases |d| + 1 - from
  {
    if from + |p| <= |d| && !MatchAt(p, ignoreCase, d, from) {
      NaiveIsLeast(p, ignoreCase, d, from + 1);
    }
  }

  lemma {:induction false} NaiveSkips(p: seq<u8>, ignoreCase: bool, d: seq<u8>, from: nat, until: nat)
    requires from <= until
    requires forall k :: from <= k < until ==> !MatchAt(p, ignoreCase, d, k)
    ensures Naive(p, ignoreCase, d, from) == Naive(p, ignoreCase, d, until)
    decreases until - from
  {
    if from < until {
      NaiveSkips(p, ignoreCase, d, from + 1, until);
    }
  }

  /** What a match of the interleaved pattern means: the needle's bytes at even offsets, zeros between. */
  lemma {:induction false} InterleavedPattern(needle: seq<u8>)
    ensures |Pattern(needle, true)| == 2 * |needle| && Pattern(needle, false) == needle
    ensures forall j :: 0 <= j < |needle| ==>
              Pattern(needle, true)[2 * j] == needle[j] && Pattern(needle, true)[2 * j + 1] == 0
  {
    if needle != [] {
      InterleavedPattern(needle[1..]);
      forall j | 0 <= j < |needle|
        ensures Pattern(needle, true)[2 * j] == needle[j] && Pattern(needle, true)[2 * j + 1] == 0
      {
        if j > 0 {
          assert needle[j] == needle[1..][j - 1];
          assert Pattern(needle, true)[2 * j] == Pattern(needle[1..], true)[2 * (j - 1)];
          assert Pattern(needle, true)[2 * j + 1] == Pattern(needle[1..], true)[2 * (j - 1) + 1];
        }
      }
    }
  }

  /** `memchr`: the first position in [from, until) holding c. */
  method MemChr(d: seq<u8>, c: u8, from: nat, until: nat) returns (r: Option<nat>)
    requires from <= until <= |d|
    ensures r.None? ==> forall k :: from <= k < until ==> d[k] != c
    ensures r.Some? ==> from <= r.value < until && d[r.value] == c && forall k :: from <= k < r.value ==> d[k] != c
  {
    var i := from;
    while i < until
      invariant from <= i <= until
      invariant forall k :: from <= k < i ==> d[k] != c
    {
      if d[i] == c { return Some(i); }
      i := i + 1;
    }
    return None;
  }

  /** A match, letter by letter: equal bytes, or ignoring case the two cases of one letter. */
  lemma MatchIsByLetter(p: seq<u8>, ignoreCase: bool, d: seq<u8>, i: nat)
    requires i + |p| <= |d|
    ensures MatchAt(p, ignoreCase, d, i) <==>
              forall j :: 0 <= j < |p| ==> d[i + j] == p[j] || (ignoreCase && OtherCase(d[i + j], p[j]))
  {
    hide Fold, OtherCase;
    forall j | 0 <= j < |p|
      ensures Key(ignoreCase, d[i + j]) == Key(ignoreCase, p[j]) <==> d[i + j] == p[j] || (ignoreCase && OtherCase(d[i + j], p[j]))
    {
      FoldedEqual(d[i + j], p[j]);
    }
  }

  /** The loop of the constructor that copies the needle, interleaving zeros for UTF-16LE. */
  method BuildPattern(needle: seq<u8>, utf16: bool) returns (bytes: seq<u8>)
    ensures bytes == Pattern(needle, utf16)
  {
    bytes := [];
    for i := 0 to |needle|
      invariant bytes + Pattern(needle[i..], utf16) == Pattern(needle, utf16)
    {
      assert needle[i..][0] == needle[i] && needle[i..][1..] == needle[i + 1..];
      ghost var before := bytes;
      bytes := bytes + [needle[i]];
      if utf16 { bytes := bytes + [0]; }
      assert bytes + Pattern(needle[i + 1..], utf16) == before + Pattern(needle[i..], utf16);
    }
  }

  /** No shift jumps over one of the first n positions where its byte lines up with the pattern. */
  ghost predicate SafeShifts(p: seq<u8>, ignoreCase: bool, table: seq<nat>, n: int)
    requires |table| == 256 && n <= |p|
  {
    forall c: u8 :: 1 <= table[c] <= Max(1, |p|) &&
      forall j :: 0 <= j < n && |p| - table[c] <= j ==> Key(ignoreCase, p[j]) != c
  }

  /** The loop of the constructor that fills the shift table; later positions overwrite earlier ones. */
  method BuildSkip(p: seq<u8>, ignoreCase: bool) returns (table: array<nat>)
    ensures fresh(table) && table.Length == 256 && SafeShifts(p, ignoreCase, table[..], |p| - 1)
  {
    var m := |p|;
    table := new nat[256](_ => Max(1, m));
    var i := 0;
    while i + 1 < m
      invariant i == 0 || 0 < i < m
      invariant SafeShifts(p, ignoreCase, table[..], i)
    {
      table[Key(ignoreCase, p[i])] := m - 1 - i;
      i := i + 1;
    }
  }

  /** A prepared needle with its Horspool shift table. */
  class FastPattern {
    const ignoreCase: bool
    const pattern: seq<u8>
    const skip: array<nat>

    /** The shift for a byte never jumps over a position where that byte lines up with the pattern. */
    ghost predicate Valid() reads this, skip {
      skip.Length == 256 && SafeShifts(pattern, ignoreCase, skip[..], |pattern| - 1)
    }

    constructor (needle: seq<u8>, ignoreCase: bool, utf16: bool)
      ensures Valid() && fresh(skip)
      ensures this.ignoreCase == ignoreCase && pattern == Pattern(needle, utf16)
    {
      var bytes := BuildPattern(needle, utf16);
      var table := BuildSkip(bytes, ignoreCase);
      this.ignoreCase, pattern, skip := ignoreCase, bytes, table;
    }

    /** Horspool search from `from`; it refines naive search. An empty pattern is never found. */
    method Find(d: seq<u8>, from: nat) returns (r: Option<nat>)
      requires Valid()
      ensures r == if pattern == [] then None else Naive(pattern, ignoreCase, d, from)
    {
      var m := |pattern|;
      if m == 0 || from > |d| || m > |d| - from { return None; }
      if m == 1 && !ignoreCase {
        var q := MemChr(d, pattern[0], from, |d|);
        assert forall k :: from <= k < |d| ==> (MatchAt(pattern, ignoreCase, d, k) <==> d[k] == pattern[0]);
        NaiveSkips(pattern, ignoreCase, d, from, if q.Some? then q.value else |d|);
        return q;
      }
      var i := from;
      while i + m <= |d|
        invariant from <= i
        invariant Naive(pattern, ignoreCase, d, from) == Naive(pattern, ignoreCase, d, i)
        decreases |d| + m - i
      {
        var j := m;
        while j > 0 && Key(ignoreCase, d[i + j - 1]) == Key(ignoreCase, pattern[j - 1])
          invariant 0 <= j <= m
          invariant forall k :: j <= k < m ==> Key(ignoreCase, d[i + k]) == Key(ignoreCase, pattern[k])
        {
          j := j - 1;
        }
        if j == 0 { return Some(i); }
        assert !MatchAt(pattern, ignoreCase, d, i);
        var last: u8 := Key(ignoreCase, d[i + m - 1]);
        NoMatchSkipped(d, i);
        NaiveSkips(pattern, ignoreCase, d, i, i + skip[last]);
        i := i + skip[last];
      }
      return None;
    }

    /** A shift jumps over positions without a match only. */
    lemma NoMatchSkipped(d: seq<u8>, i: nat)
      requires Valid() && pattern != [] && i + |pattern| <= |d|
      ensures var shift := skip[Key(ignoreCase, d[i + |pattern| - 1])];
              shift >= 1 && forall k :: i < k < i + shift ==> !MatchAt(pattern, ignoreCase, d, k)
    {
      var last: u8 := Key(ignoreCase, d[i + |pattern| - 1]);
      forall k | i < k < i + skip[last] ensures !MatchAt(pattern, ignoreCase, d, k) {
        assert Key(ignoreCase, pattern[i + |pattern| - 1 - k]) != last;
      }
    }

    /** The hit loop of one file and one encoding: report a hit, then continue behind it. */
    method Hits(d: seq<u8>, minStep: nat) returns (hits: seq<nat>)
      requires Valid() && pattern != [] && minStep <= |pattern|
      ensures GreedyFrom(pattern, ignoreCase, d, 0, hits)
    {
      hits := [];
      var pos := 0;
      var hit := Find(d, pos);
      while hit.Some?
        invariant pos == Start(0, |pattern|, hits, |hits|)
        invariant ChainFrom(pattern, ignoreCase, d, 0, hits)
        invariant hit == Naive(pattern, ignoreCase, d, pos)
        decreases |d| + 1 - pos
      {
        NaiveIsLeast(pattern, ignoreCase, d, pos);
        ChainGrows(pattern, ignoreCase, d, 0, hits, hit.value);
        hits := hits + [hit.value];
        pos := hit.value + Max(minStep, |pattern|);
        hit := Find(d, pos);
      }
    }
  }

  /** Where the search for hit number k begins. */
  ghost function Start(from: nat, step: nat, hits: seq<nat>, k: nat): nat
    requires k <= |hits|
  {
    if k == 0 then from else hits[k - 1] + step
  }

  /** Each hit is the first match at or behind the end of the previous hit. */
  ghost predicate ChainFrom(p: seq<u8>, ignoreCase: bool, d: seq<u8>, from: nat, hits: seq<nat>) {
    forall k {:trigger Start(from, |p|, hits, k)} ::
      0 <= k < |hits| ==> Naive(p, ignoreCase, d, Start(from, |p|, hits, k)) == Some(hits[k])
  }

  lemma ChainGrows(p: seq<u8>, ignoreCase: bool, d: seq<u8>, from: nat, hits: seq<nat>, hit: nat)
    requires ChainFrom(p, ignoreCase, d, from, hits)
    requires Naive(p, ignoreCase, d, Start(from, |p|, hits, |hits|)) == Some(hit)
    ensures ChainFrom(p, ignoreCase, d, from, hits + [hit])
    ensures Start(from, |p|, hits + [hit], |hits| + 1) == hit + |p|
  {
    assert forall k :: 0 <= k <= |hits| ==> Start(from, |p|, hits + [hit], k) == Start(from, |p|, hits, k);
  }

  /** The hits are a chain that ends where no further match exists. */
  ghost predicate GreedyFrom(p: seq<u8>, ignoreCase: bool, d: seq<u8>, from: nat, hits: seq<nat>) {
    ChainFrom(p, ignoreCase, d, from, hits) && Naive(p, ignoreCase, d, Start(from, |p|, hits, |hits|)) == None
  }

  lemma GreedyTail(p: seq<u8>, ignoreCase: bool, d: seq<u8>, from: nat, hits: seq<nat>)
    requires hits != [] && GreedyFrom(p, ignoreCase, d, from, hits)
    ensures GreedyFrom(p, ignoreCase, d, hits[0] + |p|, hits[1..])
    ensures from <= hits[0] && MatchAt(p, ignoreCase, d, hits[0])
    ensures forall k :: from <= k < hits[0] ==> !MatchAt(p, ignoreCase, d, k)
  {
    NaiveIsLeast(p, ignoreCase, d, from);
    assert Naive(p, ignoreCase, d, Start(from, |p|, hits, 0)) == Some(hits[0]);
    var rest := hits[1..];
    assert Start(hits[0] + |p|, |p|, rest, |rest|) == Start(from, |p|, hits, |hits|);
    forall k | 0 <= k < |rest| ensures Naive(p, ignoreCase, d, Start(hits[0] + |p|, |p|, rest, k)) == Some(rest[k]) {
      assert Start(hits[0] + |p|, |p|, rest, k) == Start(from, |p|, hits, k + 1);
    }
  }

  ghost function Elements(s: seq<nat>): set<nat> { set x | x in s }

  /** Matches starting at or after `from`, no two of which share a byte. */
  ghost predicate NonOverlapping(p: seq<u8>, ignoreCase: bool, d: seq<u8>, from: nat, s: set<nat>) {
    (forall x :: x in s ==> from <= x && MatchAt(p, ignoreCase, d, x)) &&
    forall x, y :: x in s && y in s && x < y ==> x + |p| <= y
  }

  /** The reported hits never overlap. */
  lemma {:induction false} HitsDoNotOverlap(p: seq<u8>, ignoreCase: bool, d: seq<u8>, from: nat, hits: seq<nat>)
    requires p != [] && GreedyFrom(p, ignoreCase, d, from, hits)
    ensures NonOverlapping(p, ignoreCase, d, from, Elements(hits))
    ensures |Elements(hits)| == |hits|
    decreases |hits|
  {
    if hits != [] {
      GreedyTail(p, ignoreCase, d, from, hits);
      HitsDoNotOverlap(p, ignoreCase, d, hits[0] + |p|, hits[1..]);
      AddEarliest(p, ignoreCase, d, from, hits[0], hits[1..]);
      assert [hits[0]] + hits[1..] == hits;
    }
  }

  lemma AddEarliest(p: seq<u8>, ignoreCase: bool, d: seq<u8>, from: nat, hit: nat, rest: seq<nat>)
    requires p != [] && from <= hit && MatchAt(p, ignoreCase, d, hit)
    requires NonOverlapping(p, ignoreCase, d, hit + |p|, Elements(rest)) && |Elements(rest)| == |rest|
    ensures NonOverlapping(p, ignoreCase, d, from, Elements([hit] + rest))
    ensures |Elements([hit] + rest)| == |rest| + 1
  {
    assert Elements([hit] + rest) == {hit} + Elements(rest);
    assert hit !in Elements(rest);
  }

  /** No set of non-overlapping matches is larger than the set of reported hits. */
  lemma {:induction false} HitsAreMaximal(p: seq<u8>, ignoreCase: bool, d: seq<u8>, from: nat, hits: seq<nat>, s: set<nat>)
    requires p != [] && GreedyFrom(p, ignoreCase, d, from, hits)
    requires NonOverlapping(p, ignoreCase, d, from, s)
    ensures |s| <= |hits|
    decreases |hits|
  {
    if hits == [] {
      NaiveIsLeast(p, ignoreCase, d, from);
      assert s == {};
    } else {
      GreedyTail(p, ignoreCase, d, from, hits);
      hide GreedyFrom, MatchAt, NonOverlapping;
      var far := OneBefore(p, ignoreCase, d, from, hits[0], s);
      HitsAreMaximal(p, ignoreCase, d, hits[0] + |p|, hits[1..], far);
    }
  }

  /** At most one of the matches starts before the end of the first one. */
  lemma OneBefore(p: seq<u8>, ignoreCase: bool, d: seq<u8>, from: nat, first: nat, s: set<nat>) returns (far: set<nat>)
    requires p != [] && NonOverlapping(p, ignoreCase, d, from, s)
    requires forall k :: from <= k < first ==> !MatchAt(p, ignoreCase, d, k)
    ensures NonOverlapping(p, ignoreCase, d, first + |p|, far) && |s| <= 1 + |far|
  {
    hide MatchAt;
    var near := set x | x in s && x < first + |p|;
    far := s - near;
    assert forall x :: x in near ==> first <= x;
    AtMostOne(near);
    assert s == near + far;
  }

  lemma AtMostOne(s: set<nat>)
    requires forall x, y :: x in s && y in s ==> x == y
    ensures |s| <= 1
  {
    if s != {} {
      var x :| x in s;
      assert s == {x};
    }
  }

  lemma SliceIsMatch(p: seq<u8>, d: seq<u8>, i: nat)
    requires p != [] && i + |p| <= |d| && d[i] == p[0]
    ensures MatchAt(p, false, d, i) <==> d[i..i + |p|] == p
    ensures |p| == 1 ==> d[i..i + |p|] == p
  {
    var window := d[i..i + |p|];
    assert forall j :: 0 <= j < |p| ==> window[j] == d[i + j];
    if MatchAt(p, false, d, i) {
      assert forall j :: 0 <= j < |p| ==> Key(false, d[i + j]) == window[j] && Key(false, p[j]) == p[j];
    }
  }

  /** `find_exact`: jump to each occurrence of the first byte and compare the whole needle there. */
  method FindExact(d: seq<u8>, needle: seq<u8>, from: nat) returns (r: Option<nat>)
    ensures needle == [] ==> r == if from <= |d| then Some(from) else None
    ensures needle != [] ==> r == Naive(needle, false, d, from)
  {
    if needle == [] { return if from <= |d| then Some(from) else None; }
    if from > |d| || |needle| > |d| - from { return None; }
    var cur, last := from, |d| - |needle|;
    while cur <= last
      invariant from <= cur <= last + 1
      invariant Naive(needle, false, d, from) == Naive(needle, false, d, cur)
      decreases last + 1 - cur
    {
      var hit := MemChr(d, needle[0], cur, last + 1);
      var stop := if hit.Some? then hit.value else last + 1;
      forall k | cur <= k < stop ensures !MatchAt(needle, false, d, k) {
        assert d[k + 0] != needle[0];
      }
      NaiveSkips(needle, false, d, cur, stop);
      if hit.None? { return None; }
      SliceIsMatch(needle, d, hit.value);
      if |needle| == 1 || d[hit.value..hit.value + |needle|] == needle { return hit; }
      cur := hit.value + 1;
    }
    return None;
  }

  /** Without folding or interleaving the two searchers agree on every haystack, needle and start. */
  method SearchersAgree(d: seq<u8>, needle: seq<u8>, from: nat) returns (fast: Option<nat>, exact: Option<nat>)
    requires needle != []
    ensures fast == exact
  {
    InterleavedPattern(needle);
    var p := new FastPattern(needle, false, false);
    fast := p.Find(d, from);
    exact := FindExact(d, needle, from);
  }

  /** Both hit loops of one file: the plain encoding and the zero-interleaved one. */
  method SearchFile(d: seq<u8>, needle: seq<u8>, ignoreCase: bool) returns (ascii: seq<nat>, wide: seq<nat>, matches: nat)
    ensures needle == [] ==> ascii == [] && wide == []
    ensures needle != [] ==> GreedyFrom(needle, ignoreCase, d, 0, ascii)
    ensures needle != [] ==> GreedyFrom(Pattern(needle, true), ignoreCase, d, 0, wide)
    ensures matches == |ascii| + |wide|
  {
    if needle == [] { return [], [], 0; }
    InterleavedPattern(needle);
    var plain := new FastPattern(needle, ignoreCase, false);
    var interleaved := new FastPattern(needle, ignoreCase, true);
    ascii := plain.Hits(d, 1);
    wide := interleaved.Hits(d, 2);
    matches := |ascii| + |wide|;
  }
}
