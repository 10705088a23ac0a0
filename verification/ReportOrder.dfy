/** The end of a directory run: the records are sorted for the report and audited again (src/main.cpp:2303-2310). */
module ReportOrder {
  import opened Common
  import opened ReportRank
  import opened ReportSelection
  import opened ReportSpool

  /** The place of a report in the plan; unknown reports come last. */
  function RankOf(rank: map<seq<u8>, u64>, r: Record): u64 { if r.key in rank then rank[r.key] else U64_MAX }

  ghost predicate SortedByRank(rank: map<seq<u8>, u64>, rs: seq<Record>) {
    forall i, j :: 0 <= i < j < |rs| ==> RankOf(rank, rs[i]) <= RankOf(rank, rs[j])
  }

  /** Stable insertion: behind the records of the same rank. */
  function InsertByRank(rank: map<seq<u8>, u64>, rs: seq<Record>, r: Record): seq<Record> {
    if rs == [] || RankOf(rank, rs[|rs| - 1]) <= RankOf(rank, r) then rs + [r]
    else InsertByRank(rank, rs[..|rs| - 1], r) + [rs[|rs| - 1]]
  }

  function SortByRank(rank: map<seq<u8>, u64>, rs: seq<Record>): seq<Record> {
    if rs == [] then [] else InsertByRank(rank, SortByRank(rank, rs[..|rs| - 1]), rs[|rs| - 1])
  }

  lemma {:induction false} InsertKeepsAll(rank: map<seq<u8>, u64>, rs: seq<Record>, r: Record)
    ensures multiset(InsertByRank(rank, rs, r)) == multiset(rs) + multiset{r}
  {
    hide RankOf;
    if rs != [] && RankOf(rank, rs[|rs| - 1]) > RankOf(rank, r) {
      InsertKeepsAll(rank, rs[..|rs| - 1], r);
      assert rs == rs[..|rs| - 1] + [rs[|rs| - 1]];
    }
  }

  lemma {:induction false} InsertSorts(rank: map<seq<u8>, u64>, rs: seq<Record>, r: Record)
    requires SortedByRank(rank, rs)
    ensures SortedByRank(rank, InsertByRank(rank, rs, r))
  {
    hide RankOf;
    if rs != [] && RankOf(rank, rs[|rs| - 1]) > RankOf(rank, r) {
      var shorter, last := rs[..|rs| - 1], rs[|rs| - 1];
      InsertSorts(rank, shorter, r);
      InsertBelow(rank, shorter, r, last);
    }
  }

  lemma {:induction false} InsertBelow(rank: map<seq<u8>, u64>, rs: seq<Record>, r: Record, bound: Record)
    requires RankOf(rank, r) <= RankOf(rank, bound)
    requires forall i :: 0 <= i < |rs| ==> RankOf(rank, rs[i]) <= RankOf(rank, bound)
    ensures var inner := InsertByRank(rank, rs, r);
            forall i :: 0 <= i < |inner| ==> RankOf(rank, inner[i]) <= RankOf(rank, bound)
  {
    hide RankOf;
    if rs != [] && RankOf(rank, rs[|rs| - 1]) > RankOf(rank, r) {
      var shorter := rs[..|rs| - 1];
      assert forall i :: 0 <= i < |shorter| ==> shorter[i] == rs[i];
      InsertBelow(rank, shorter, r, bound);
      assert InsertByRank(rank, rs, r) == InsertByRank(rank, shorter, r) + [rs[|rs| - 1]];
    } else {
      assert InsertByRank(rank, rs, r) == rs + [r];
    }
  }

  lemma {:induction false} SortSorts(rank: map<seq<u8>, u64>, rs: seq<Record>)
    ensures SortedByRank(rank, SortByRank(rank, rs)) && multiset(SortByRank(rank, rs)) == multiset(rs)
  {
    if rs != [] {
      var shorter := rs[..|rs| - 1];
      SortSorts(rank, shorter);
      InsertSorts(rank, SortByRank(rank, shorter), rs[|rs| - 1]);
      InsertKeepsAll(rank, SortByRank(rank, shorter), rs[|rs| - 1]);
      assert rs == shorter + [rs[|rs| - 1]];
    }
  }

  /** Byte sums and the number of cached records do not depend on the order. */
  lemma {:induction false} SumsIgnoreOrder(a: seq<Record>, b: seq<Record>, kind: Kind)
    requires multiset(a) == multiset(b)
    ensures Sum(a, kind) == Sum(b, kind) && ResidentCount(a) == ResidentCount(b) && |a| == |b|
    decreases |a|
  {
    if a == [] {
      assert |multiset(b)| == 0;
    } else {
      var i := MatchLast(a, b);
      var n, rest := |a| - 1, b[..i] + b[i + 1..];
      SumsIgnoreOrder(a[..n], rest, kind);
      SumWithout(b, i, kind);
    }
  }

  /** The last record of one arrangement has a place in the other; without both the arrangements still agree. */
  lemma MatchLast(a: seq<Record>, b: seq<Record>) returns (i: nat)
    requires multiset(a) == multiset(b) && a != []
    ensures i < |b| && b[i] == a[|a| - 1] && multiset(a[..|a| - 1]) == multiset(b[..i] + b[i + 1..])
  {
    var n := |a| - 1;
    assert a[n] in multiset(b);
    i :| 0 <= i < |b| && b[i] == a[n];
    assert a == a[..n] + [a[n]] && b == b[..i] + [b[i]] + b[i + 1..];
    assert multiset(a) == multiset(a[..n]) + multiset{a[n]};
    assert multiset(b) == multiset(b[..i]) + multiset{b[i]} + multiset(b[i + 1..]);
    var rest := multiset(b[..i]) + multiset(b[i + 1..]);
    assert multiset(b[..i] + b[i + 1..]) == rest;
    assert multiset(b) == rest + multiset{b[i]};
    CancelOne(multiset(a[..n]), rest, a[n]);
  }

  lemma CancelOne(a: multiset<Record>, b: multiset<Record>, x: Record)
    requires a + multiset{x} == b + multiset{x}
    ensures a == b
  {
    assert a == (a + multiset{x}) - multiset{x};
    assert b == (b + multiset{x}) - multiset{x};
  }

  lemma {:induction false} SumWithout(rs: seq<Record>, i: nat, kind: Kind)
    requires i < |rs|
    ensures Sum(rs, kind) == Sum(rs[..i] + rs[i + 1..], kind) + Weight(rs[i], kind)
    ensures ResidentCount(rs) == ResidentCount(rs[..i] + rs[i + 1..]) + (if rs[i].payload.Some? then 1 else 0)
    decreases |rs|
  {
    var n := |rs| - 1;
    if i == n {
      assert rs[..i] + rs[i + 1..] == rs[..n];
    } else {
      SumWithout(rs[..n], i, kind);
      var rest := rs[..i] + rs[i + 1..];
      assert rest[..|rest| - 1] == rs[..n][..i] + rs[..n][i + 1..] && rest[|rest| - 1] == rs[n];
    }
  }

  /** What the audit demands of the records and the directory. */
  lemma AuditIgnoresOrder(spool: DirectoryReportSpool, sorted: seq<Record>)
    requires multiset(sorted) == multiset(spool.records) && spool.Audit()
    ensures forall k :: 0 <= k < |sorted| ==> RecordAudit(sorted[k], spool.disk.files)
    ensures |spool.disk.files| == ResidentCount(sorted)
    ensures Sum(sorted, Resident) == Sum(spool.records, Resident) && Sum(sorted, Selected) == Sum(spool.records, Selected)
  {
    hide Sum, ResidentCount, RecordAudit;
    SumsIgnoreOrder(sorted, spool.records, Resident);
    SumsIgnoreOrder(sorted, spool.records, Selected);
    forall k | 0 <= k < |sorted| ensures RecordAudit(sorted[k], spool.disk.files) {
      assert sorted[k] in multiset(spool.records);
      var i :| 0 <= i < |spool.records| && spool.records[i] == sorted[k];
    }
  }

  /** A whole directory run with the sorted records that the report shows. On a faithful disk neither the count of
      records nor the second audit fails; the records are those of the final selection, in the order of the plan. */
  method ReportDirectory(spool: DirectoryReportSpool, jobs: seq<Job>, priorities: map<seq<u8>, int>, rank: map<seq<u8>, u64>)
    returns (ok: bool, ghost chosen: seq<Record>)
    requires spool.Valid() && spool.records == [] && !spool.broken && !spool.finalized && spool.disk.files == map[]
    requires forall i :: 0 <= i < |jobs| ==> jobs[i].key in priorities
    modifies spool, spool.disk
    ensures spool.disk.Faithful() ==> ok
    ensures ok ==> multiset(spool.records) == multiset(chosen) && SortedByRank(rank, spool.records) && spool.Audit()
    ensures ok ==> |chosen| == |jobs| && forall i :: 0 <= i < |jobs| ==> chosen[i].key == jobs[i].key
    ensures ok && DistinctKeys(chosen) ==> LexGreatest(chosen, Chosen(chosen)) && ChosenByRoom(chosen)
  {
    hide SortByRank, SortedByRank, LexGreatest, ChosenByRoom, DistinctKeys, RecordsOk, FilesOk, RecordAudit, Sum, ResidentCount, Chosen;
    ok := SpoolDirectory(spool, jobs, priorities);
    chosen := spool.records;
    if !ok { return; }
    SortSorts(rank, spool.records);
    SumsIgnoreOrder(SortByRank(rank, spool.records), spool.records, All);
    AuditIgnoresOrder(spool, SortByRank(rank, spool.records));
    spool.records := SortByRank(rank, spool.records);
    if |spool.records| != |jobs| { return false, chosen; }
    ok := spool.Validate();
  }
}
