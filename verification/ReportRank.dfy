/** Ranking of cached directory reports and the byte sums over them
    (include/prts/directory_report_spool.hpp:21-32, 74-78). */
module ReportRank {
  import opened Common

  const INLINE_BYTES: int := 16 * 1024 * 1024
  const PER_REPORT_BYTES: int := 8 * 1024 * 1024
  const HARD_BYTES: int := INLINE_BYTES + PER_REPORT_BYTES

  datatype Reason = NotDeferred | PerReportByteBudget | InlineReportBudget | SpoolCacheBudget

  /** One report. `payload` is the number in the payload's file name, None once the file is gone. */
  datatype Record = Record(key: seq<u8>, payload: Option<nat>, fullBytes: u64, priority: int, selected: bool, reason: Reason)

  /** Byte-wise lexicographic order of path keys. */
  predicate KeyLess(a: seq<u8>, b: seq<u8>) {
    if b == [] then false
    else if a == [] then true
    else a[0] < b[0] || (a[0] == b[0] && KeyLess(a[1..], b[1..]))
  }

  lemma {:induction false} KeyLessTransitive(a: seq<u8>, b: seq<u8>, c: seq<u8>)
    requires KeyLess(a, b) && KeyLess(b, c)
    ensures KeyLess(a, c)
    decreases |a|
  {
    if a != [] && a[0] == b[0] && b[0] == c[0] {
      KeyLessTransitive(a[1..], b[1..], c[1..]);
    }
  }

  lemma {:induction false} KeyLessTotal(a: seq<u8>, b: seq<u8>)
    ensures !(KeyLess(a, b) && KeyLess(b, a))
    ensures a == b <==> !KeyLess(a, b) && !KeyLess(b, a)
    decreases |a|
  {
    if a != [] && b != [] {
      KeyLessTotal(a[1..], b[1..]);
      assert a == [a[0]] + a[1..] && b == [b[0]] + b[1..];
    }
  }

  /** Higher priority first, then the smaller report, then the smaller key. */
  predicate Better(a: Record, b: Record) {
    if a.priority != b.priority then a.priority > b.priority
    else if a.fullBytes != b.fullBytes then a.fullBytes < b.fullBytes
    else KeyLess(a.key, b.key)
  }

  /** The ranking is a strict total order on records with different keys. */
  lemma BetterIsStrictOrder(a: Record, b: Record, c: Record)
    ensures !Better(a, a)
    ensures Better(a, b) ==> !Better(b, a)
    ensures Better(a, b) && Better(b, c) ==> Better(a, c)
    ensures a.key != b.key ==> Better(a, b) || Better(b, a)
  {
    KeyLessTotal(a.key, a.key);
    KeyLessTotal(a.key, b.key);
    if KeyLess(a.key, b.key) && KeyLess(b.key, c.key) {
      KeyLessTransitive(a.key, b.key, c.key);
    }
  }

  /** a comes before b in byte order: a proper prefix, or the smaller byte at the first difference. */
  ghost predicate KeyAhead(a: seq<u8>, b: seq<u8>) {
    a < b || exists k :: 0 <= k < |a| && k < |b| && a[..k] == b[..k] && a[k] < b[k]
  }

  /** a comes before b: more priority, then fewer bytes, then the key. */
  ghost predicate Ahead(a: Record, b: Record) {
    a.priority > b.priority ||
    (a.priority == b.priority && a.fullBytes < b.fullBytes) ||
    (a.priority == b.priority && a.fullBytes == b.fullBytes && KeyAhead(a.key, b.key))
  }

  lemma {:induction false} KeyLessIsAhead(a: seq<u8>, b: seq<u8>)
    ensures KeyLess(a, b) <==> KeyAhead(a, b)
    decreases |a|
  {
    if a != [] && b != [] && a[0] == b[0] {
      KeyLessIsAhead(a[1..], b[1..]);
      if k :| 0 <= k < |a| && k < |b| && a[..k] == b[..k] && a[k] < b[k] {
        assert a[1..][..k - 1] == a[..k][1..] && b[1..][..k - 1] == b[..k][1..];
      }
      if k :| 0 <= k < |a[1..]| && k < |b[1..]| && a[1..][..k] == b[1..][..k] && a[1..][k] < b[1..][k] {
        assert a[..k + 1] == [a[0]] + a[1..][..k] && b[..k + 1] == [b[0]] + b[1..][..k];
      }
    } else if a != [] && b != [] {
      if a[0] < b[0] { assert a[..0] == b[..0]; }
      if k :| 0 <= k < |a| && k < |b| && a[..k] == b[..k] && a[k] < b[k] && k > 0 {
        assert a[..k][0] == b[..k][0];
      }
    }
  }

  /** The ranking of the code, on the fields. */
  lemma BetterIsAhead(a: Record, b: Record)
    ensures Better(a, b) <==> Ahead(a, b)
  {
    KeyLessIsAhead(a.key, b.key);
  }

  /** Being ranked no better is transitive as well, which is what a sort or a scan for the worst needs. */
  lemma NotBetterTransitive(a: Record, b: Record, c: Record)
    requires !Better(a, b) && !Better(b, c)
    ensures !Better(a, c)
  {
    if Better(a, c) {
      if a.key == b.key || b.key == c.key {
        KeyLessTotal(a.key, b.key);
        KeyLessTotal(b.key, c.key);
      } else {
        BetterIsStrictOrder(a, b, c);
        BetterIsStrictOrder(b, c, a);
        BetterIsStrictOrder(b, a, c);
        BetterIsStrictOrder(c, b, a);
        BetterIsStrictOrder(a, c, b);
      }
    }
  }

  datatype Kind = Selected | Resident | All

  predicate In(r: Record, kind: Kind) {
    match kind
    case Selected => r.selected
    case Resident => r.payload.Some?
    case All => true
  }

  /** Bytes of the records of one kind. */
  function Sum(rs: seq<Record>, kind: Kind): nat {
    if rs == [] then 0
    else Sum(rs[..|rs| - 1], kind) + (if In(rs[|rs| - 1], kind) then rs[|rs| - 1].fullBytes else 0)
  }

  function Weight(r: Record, kind: Kind): nat { if In(r, kind) then r.fullBytes else 0 }

  lemma SumAppend(rs: seq<Record>, r: Record, kind: Kind)
    ensures Sum(rs + [r], kind) == Sum(rs, kind) + Weight(r, kind)
  {
    assert (rs + [r])[..|rs|] == rs;
  }

  lemma {:induction false} SumUpdate(rs: seq<Record>, i: nat, r: Record, kind: Kind)
    requires i < |rs|
    ensures Sum(rs[i := r], kind) == Sum(rs, kind) - Weight(rs[i], kind) + Weight(r, kind)
    ensures Weight(rs[i], kind) <= Sum(rs, kind)
    decreases |rs|
  {
    var n := |rs| - 1;
    if i == n {
      assert rs[i := r][..n] == rs[..n];
    } else {
      assert rs[i := r][..n] == rs[..n][i := r];
      SumUpdate(rs[..n], i, r, kind);
    }
  }

  /** If every resident record is selected then the selected bytes are all the resident bytes. */
  lemma {:induction false} SumBounds(rs: seq<Record>)
    requires forall i :: 0 <= i < |rs| ==> (rs[i].payload.Some? ==> rs[i].selected)
    ensures Sum(rs, Resident) <= Sum(rs, Selected)
  {
    if rs != [] {
      SumBounds(rs[..|rs| - 1]);
    }
  }

  lemma {:induction false} NothingSelected(rs: seq<Record>)
    requires forall i :: 0 <= i < |rs| ==> !rs[i].selected
    ensures Sum(rs, Selected) == 0
  {
    if rs != [] {
      NothingSelected(rs[..|rs| - 1]);
    }
  }

  lemma {:induction false} SumSame(a: seq<Record>, b: seq<Record>, kind: Kind)
    requires |a| == |b| && forall i :: 0 <= i < |a| ==> Weight(a[i], kind) == Weight(b[i], kind)
    ensures Sum(a, kind) == Sum(b, kind)
  {
    if a != [] {
      SumSame(a[..|a| - 1], b[..|b| - 1], kind);
    }
  }
}
