/** The bounded report cache (include/prts/directory_report_spool.hpp). Only sizes are capped by the
    code, but payload bytes are kept here too, so that a cached report is known to be the whole report. */
module ReportSpool {
  import opened Common
  import opened ReportRank
  import opened ReportSelection

  /** The spool directory. `refused` says which operations the operating system fails. */
  class Disk {
    var files: map<nat, seq<u8>>
    var step: nat
    const refused: nat -> bool

    constructor (refused: nat -> bool)
      ensures files == map[] && this.refused == refused
    {
      files, step := map[], 0;
      this.refused := refused;
    }

    ghost predicate Faithful() { forall k :: !refused(k) }

    /** One fallible operation; a faithful disk never refuses. */
    method Try() returns (ok: bool)
      modifies this`step
      ensures Faithful() ==> ok
    {
      ok := !refused(step);
      step := step + 1;
    }

    method Truncate(p: nat) returns (ok: bool)
      modifies this
      ensures Faithful() ==> ok
      ensures files == if ok then old(files)[p := []] else old(files)
    {
      ok := Try();
      if ok { files := files[p := []]; }
    }

    method Append(p: nat, bytes: seq<u8>) returns (ok: bool)
      requires p in files
      modifies this
      ensures Faithful() ==> ok
      ensures files == if ok then old(files)[p := old(files)[p] + bytes] else old(files)
    {
      ok := Try();
      if ok { files := files[p := files[p] + bytes]; }
    }

    method Remove(p: nat) returns (ok: bool)
      modifies this
      ensures Faithful() && p in old(files) ==> ok
      ensures ok ==> p in old(files)
      ensures files == if ok then old(files) - {p} else old(files)
    {
      ok := Try();
      ok := ok && p in files;
      if ok { files := files - {p}; }
    }
  }

  /** Records keep their identity; only unselected cached payloads have been dropped. */
  ghost predicate Evicts(a: seq<Record>, b: seq<Record>) {
    |a| == |b| && forall i :: 0 <= i < |a| ==> b[i] == a[i] || (EvictedAt(a, b, i) && !a[i].selected)
  }

  ghost predicate EvictedAt(a: seq<Record>, b: seq<Record>, i: nat)
    requires i < |a| == |b|
  {
    a[i].payload.Some? && b[i] == Dropped(a[i])
  }

  /** No dropped payload comes before a payload that could also have been dropped. */
  ghost predicate EvictsWorstFirst(a: seq<Record>, b: seq<Record>)
    requires |a| == |b|
  {
    forall i, j :: 0 <= i < |a| && 0 <= j < |a| && EvictedAt(a, b, i) && b[j].payload.Some? && !b[j].selected ==>
      !Ahead(a[i], b[j])
  }

  /** Records keep their identity and payload; only selections have been withdrawn. */
  ghost predicate Defers(a: seq<Record>, b: seq<Record>) {
    |a| == |b| && forall i :: 0 <= i < |a| ==> b[i] == a[i] || DeferredAt(a, b, i)
  }

  ghost predicate DeferredAt(a: seq<Record>, b: seq<Record>, i: nat)
    requires i < |a| == |b|
  {
    a[i].selected && b[i] == a[i].(selected := false, reason := InlineReportBudget)
  }

  /** No withdrawn report comes before a report that is still selected. */
  ghost predicate DefersWorstFirst(a: seq<Record>, b: seq<Record>)
    requires |a| == |b|
  {
    forall i, j :: 0 <= i < |a| && 0 <= j < |a| && DeferredAt(a, b, i) && b[j].selected ==> !Ahead(a[i], b[j])
  }

  /** Accounting of the records alone. */
  ghost predicate RecordsOk(rs: seq<Record>, reports: seq<seq<u8>>) {
    |reports| == |rs| &&
    forall i :: 0 <= i < |rs| ==>
      (rs[i].selected ==> rs[i].payload.Some?) &&
      rs[i].fullBytes == Min(|reports[i]|, U64_MAX) &&
      (rs[i].payload.Some? ==> rs[i].payload.value == i && rs[i].fullBytes <= 0x80_0000)
  }

  /** The directory holds the complete rendering of every cached record and at most one more file,
      the one being staged. */
  ghost predicate FilesOk(rs: seq<Record>, reports: seq<seq<u8>>, files: map<nat, seq<u8>>)
    requires |reports| == |rs|
  {
    (forall i :: 0 <= i < |rs| ==> (i in files <==> rs[i].payload.Some?)) &&
    (forall i :: 0 <= i < |rs| && i in files ==> files[i] == reports[i]) &&
    (forall p :: p in files ==> p <= |rs|)
  }

  class DirectoryReportSpool {
    const disk: Disk
    var records: seq<Record>
    var selectedBytes: u64
    var peakBytes: u64
    var knownFullBytes: u64
    var residentBytes: u64
    var evictedCount: nat
    var reselectedCount: nat
    var finalized: bool
    var broken: bool
    /** The complete renderings handed to Add, by record. */
    ghost var reports: seq<seq<u8>>

    ghost predicate Valid() reads this, disk {
      |reports| == |records| && RecordsOk(records, reports) && FilesOk(records, reports, disk.files) &&
      selectedBytes == Sum(records, Selected) <= 0x100_0000 &&
      residentBytes == Sum(records, Resident) <= 0x180_0000 &&
      (!broken ==> knownFullBytes == Min(Sum(records, All), U64_MAX)) &&
      peakBytes <= 0x180_0000 &&
      StagedBytes() <= 0x80_0000 && residentBytes + StagedBytes() <= 0x180_0000
    }

    /** Size of the file behind the last record, if there is one. */
    ghost function StagedBytes(): nat reads this, disk {
      if |records| in disk.files then |disk.files[|records|]| else 0
    }

    constructor (disk: Disk)
      requires disk.files == map[]
      ensures Valid() && this.disk == disk && records == [] && !broken && !finalized
    {
      this.disk := disk;
      records, reports := [], [];
      selectedBytes, peakBytes, knownFullBytes, residentBytes := 0, 0, 0, 0;
      evictedCount, reselectedCount, finalized, broken := 0, 0, false, false;
    }

    predicate Ready() reads this { !broken }

    method RemovePayload(p: nat) returns (ok: bool)
      modifies this`broken, disk
      ensures disk.Faithful() && p in old(disk.files) ==> ok
      ensures disk.files == if ok then old(disk.files) - {p} else old(disk.files)
      ensures broken == (old(broken) || !ok)
    {
      ok := disk.Remove(p);
      if !ok { broken := true; }
    }

    /** The scan for the worst selected report. */
    method WorstSelected() returns (worst: Option<nat>)
      ensures worst.None? ==> forall i :: 0 <= i < |records| ==> !records[i].selected
      ensures worst.Some? ==> worst.value < |records| && records[worst.value].selected
      ensures worst.Some? ==> forall i :: 0 <= i < |records| && records[i].selected ==> !Better(records[worst.value], records[i])
    {
      worst := None;
      var i := 0;
      while i < |records|
        invariant i <= |records|
        invariant worst.None? ==> forall k :: 0 <= k < i ==> !records[k].selected
        invariant worst.Some? ==> worst.value < i && records[worst.value].selected
        invariant worst.Some? ==> forall k :: 0 <= k < i && records[k].selected ==> !Better(records[worst.value], records[k])
      {
        if records[i].selected && (worst.None? || Better(records[worst.value], records[i])) {
          ghost var before := worst;
          worst := Some(i);
          WorstReplaced(records, if before.Some? then before.value else i, i);
        }
        i := i + 1;
      }
    }

    /** The scan for the worst cached report that is not selected. */
    method WorstEvictable() returns (worst: Option<nat>)
      ensures worst.None? ==> forall i :: 0 <= i < |records| ==> !Evictable(records[i])
      ensures worst.Some? ==> worst.value < |records| && Evictable(records[worst.value])
      ensures worst.Some? ==> forall i :: 0 <= i < |records| && Evictable(records[i]) ==> !Better(records[worst.value], records[i])
    {
      worst := None;
      var i := 0;
      while i < |records|
        invariant i <= |records|
        invariant worst.None? ==> forall k :: 0 <= k < i ==> !Evictable(records[k])
        invariant worst.Some? ==> worst.value < i && Evictable(records[worst.value])
        invariant worst.Some? ==> forall k :: 0 <= k < i && Evictable(records[k]) ==> !Better(records[worst.value], records[k])
      {
        if Evictable(records[i]) && (worst.None? || Better(records[worst.value], records[i])) {
          ghost var before := worst;
          worst := Some(i);
          WorstReplaced(records, if before.Some? then before.value else i, i);
        }
        i := i + 1;
      }
    }

    method DeferRecord(i: nat)
      requires i < |records| && records[i].selected && selectedBytes == Sum(records, Selected)
      modifies this`records, this`selectedBytes
      ensures records == old(records)[i := old(records)[i].(selected := false, reason := InlineReportBudget)]
      ensures selectedBytes == Sum(records, Selected) == old(selectedBytes) - records[i].fullBytes
      ensures Sum(records, Resident) == old(Sum(records, Resident)) && Sum(records, All) == old(Sum(records, All))
      ensures SelectedCount(records) < old(SelectedCount(records))
    {
      var r := records[i].(selected := false, reason := InlineReportBudget);
      SumUpdate(records, i, r, Selected);
      SumUpdate(records, i, r, Resident);
      SumUpdate(records, i, r, All);
      SelectedCountDrops(records, i, r);
      selectedBytes := selectedBytes - r.fullBytes;
      records := records[i := r];
    }

    /** One eviction: delete the payload of record i, then forget it. */
    method DropPayload(i: nat) returns (ok: bool)
      requires Valid() && i < |records| && Evictable(records[i])
      modifies this`records, this`residentBytes, this`evictedCount, this`broken, disk
      ensures Valid()
      ensures disk.files == if ok then old(disk.files) - {i} else old(disk.files)
      ensures records == if ok then old(records)[i := Dropped(old(records)[i])] else old(records)
      ensures ok ==> broken == old(broken) && ResidentCount(records) < old(ResidentCount(records))
      ensures residentBytes == if ok then old(residentBytes) - records[i].fullBytes else old(residentBytes)
      ensures disk.Faithful() ==> ok
    {
      hide RecordsOk, FilesOk, Sum;
      var r := records[i].(payload := None, reason := SpoolCacheBudget);
      SumUpdate(records, i, r, Selected);
      SumUpdate(records, i, r, Resident);
      SumUpdate(records, i, r, All);
      ResidentCountDrops(records, i, r);
      DropKeepsFiles(records, reports, disk.files, i);
      ok := RemovePayload(records[i].payload.value);
      if ok {
        residentBytes := residentBytes - r.fullBytes;
        records := records[i := r];
        evictedCount := evictedCount + 1;
      }
    }

    /** Withdraw the worst selections until the selected reports fit the inline budget. */
    method EnforceInlineBudget() returns (ok: bool)
      requires selectedBytes == Sum(records, Selected)
      modifies this`records, this`selectedBytes
      ensures ok
      ensures selectedBytes == Sum(records, Selected) <= INLINE_BYTES
      ensures Sum(records, Resident) == old(Sum(records, Resident)) && Sum(records, All) == old(Sum(records, All))
      ensures Defers(old(records), records) && DefersWorstFirst(old(records), records)
      ensures old(selectedBytes) <= INLINE_BYTES ==> records == old(records)
      ensures records != old(records) ==>
                exists i :: 0 <= i < |records| && DeferredAt(old(records), records, i) &&
                            selectedBytes + records[i].fullBytes > INLINE_BYTES
    {
      ghost var last: nat := 0;
      while selectedBytes > INLINE_BYTES
        invariant selectedBytes == Sum(records, Selected)
        invariant Sum(records, Resident) == old(Sum(records, Resident)) && Sum(records, All) == old(Sum(records, All))
        invariant Defers(old(records), records) && DefersWorstFirst(old(records), records)
        invariant old(selectedBytes) <= INLINE_BYTES ==> records == old(records)
        invariant records != old(records) ==>
                    last < |records| && DeferredAt(old(records), records, last) &&
                    selectedBytes + records[last].fullBytes > INLINE_BYTES
        decreases SelectedCount(records)
      {
        var worst := WorstSelected();
        if worst.None? {
          NothingSelected(records);
          return false;
        }
        last := worst.value;
        DeferStep(old(records), records, last);
        DeferRecord(worst.value);
      }
      return true;
    }

    /** Make room for `next` more staged bytes by dropping the worst payloads that are not selected. */
    method ReserveStaging(written: u64, next: u64) returns (ok: bool)
      requires Valid() && written == StagedBytes() && |records| in disk.files
      modifies this`records, this`residentBytes, this`evictedCount, this`peakBytes, this`broken, disk
      ensures Valid() && |records| in disk.files
      ensures Evicts(old(records), records) && EvictsWorstFirst(old(records), records)
      ensures disk.files[|records|] == old(disk.files)[|old(records)|]
      ensures ok ==> residentBytes + written + next <= HARD_BYTES && broken == old(broken)
      ensures peakBytes == if ok then Max(old(peakBytes), residentBytes + written + next) else old(peakBytes)
      ensures records != old(records) ==>
                exists i :: 0 <= i < |records| && EvictedAt(old(records), records, i) &&
                            residentBytes + records[i].fullBytes + written + next > HARD_BYTES
      ensures written + next > PER_REPORT_BYTES ==> !ok
      ensures disk.Faithful() && written + next <= PER_REPORT_BYTES ==> ok
    {
      hide RecordsOk, FilesOk;
      var staging := SatAdd(written, next);
      if staging > PER_REPORT_BYTES { return false; }
      ghost var last: nat := 0;
      while residentBytes > HARD_BYTES - staging
        invariant Valid() && |records| in disk.files
        invariant Evicts(old(records), records) && EvictsWorstFirst(old(records), records)
        invariant disk.files[|records|] == old(disk.files)[|old(records)|]
        invariant broken == old(broken) && peakBytes == old(peakBytes)
        invariant records != old(records) ==>
                    last < |records| && EvictedAt(old(records), records, last) &&
                    residentBytes + records[last].fullBytes + staging > HARD_BYTES
        decreases ResidentCount(records)
      {
        var worst := WorstEvictable();
        if worst.None? {
          SumBounds(records);
          return false;
        }
        EvictStep(old(records), records, worst.value);
        var dropped := DropPayload(worst.value);
        if !dropped { return false; }
        last := worst.value;
      }
      peakBytes := Max(peakBytes, residentBytes + staging);
      return true;
    }

    /** Reserve room for `bytes` and append them to the staged file. */
    method Stage(written: u64, bytes: seq<u8>) returns (ok: bool)
      requires Valid() && |records| in disk.files
      requires written == StagedBytes() && written + |bytes| <= PER_REPORT_BYTES
      modifies this`records, this`residentBytes, this`evictedCount, this`peakBytes, this`broken, disk
      ensures Valid() && |records| in disk.files && |records| == |old(records)|
      ensures Evicts(old(records), records) && EvictsWorstFirst(old(records), records)
      ensures ok ==> disk.files[|records|] == old(disk.files)[|records|] + bytes && broken == old(broken)
      ensures !ok ==> disk.files[|records|] == old(disk.files)[|records|]
      ensures disk.Faithful() ==> ok
    {
      hide RecordsOk, FilesOk;
      ok := ReserveStaging(written, |bytes|);
      if ok {
        StagedFileIsFree(records, reports, disk.files, disk.files[|records|] + bytes);
        ok := disk.Append(|records|, bytes);
      }
    }

    /** Render one report into the spool. `chunks` are the writes the renderer makes, in order. */
    method Add(key: seq<u8>, priority: int, chunks: seq<seq<u8>>) returns (ok: bool, ghost kept: seq<Record>)
      requires Valid()
      modifies this, disk
      ensures Valid()
      ensures old(broken) || old(finalized) ==> !ok && records == old(records) && disk.files == old(disk.files)
      ensures disk.Faithful() && !old(broken) && !old(finalized) ==> ok
      ensures ok ==> !broken
      ensures finalized == old(finalized)
      ensures Evicts(old(records), kept) && EvictsWorstFirst(old(records), kept)
      ensures !ok ==> records == kept && reports == old(reports)
      ensures ok ==> reports == old(reports) + [Concat(chunks)] && |records| !in disk.files
      ensures ok ==> var added := NewRecord(key, priority, |old(records)|, |Concat(chunks)|);
                     Defers(kept + [added], records) && DefersWorstFirst(kept + [added], records)
    {
      hide RecordsOk, FilesOk;
      kept := records;
      if !Ready() || finalized { return false, kept; }
      var payload := |records|;
      StagedFileIsFree(records, reports, disk.files, []);
      var created := disk.Truncate(payload);
      if !created { return false, kept; }
      var buf := new CappedSpoolStreambuf(this);
      var good := true;
      for i := 0 to |chunks|
        invariant buf.Valid() && fresh(buf) && buf.spool == this
        invariant good ==> !buf.failed && !broken && buf.received == Concat(chunks[..i])
        invariant disk.Faithful() ==> good
        invariant Evicts(old(records), records) && EvictsWorstFirst(old(records), records)
        invariant unchanged(this`reports) && unchanged(this`finalized) && unchanged(this`knownFullBytes)
      {
        if good {
          ghost var before := records;
          var n := buf.Write(chunks[i]);
          EvictsCompose(old(records), before, records);
          good := n == |chunks[i]|;
          assert chunks[..i + 1][..i] == chunks[..i];
        }
      }
      assert chunks[..|chunks|] == chunks;
      kept := records;
      if !good || buf.failed { return false, kept; }
      var closed := disk.Try();
      if !closed { return false, kept; }
      ok := Commit(key, priority, buf.total, buf.written, buf.received, payload);
    }

    /** The accounting of Add once the whole report has been rendered. A report whose file cannot be removed is
        already counted as known, though it never gets a record. */
    method Commit(key: seq<u8>, priority: int, fullBytes: u64, stagedBytes: u64, ghost report: seq<u8>, payload: nat) returns (ok: bool)
      requires Valid() && !broken && payload == |records|
      requires payload in disk.files && disk.files[payload] == report[..Min(|report|, PER_REPORT_BYTES)]
      requires fullBytes == Min(|report|, U64_MAX) && stagedBytes == |disk.files[payload]|
      modifies this, disk
      ensures Valid()
      ensures disk.Faithful() ==> ok
      ensures ok <==> !broken
      ensures finalized == old(finalized) && knownFullBytes == SatAdd(old(knownFullBytes), fullBytes)
      ensures !ok ==> fullBytes > 0x80_0000 && records == old(records) && reports == old(reports)
      ensures ok ==> reports == old(reports) + [report] && |records| !in disk.files
      ensures ok ==> var added := NewRecord(key, priority, |old(records)|, |report|);
                     Defers(old(records) + [added], records) && DefersWorstFirst(old(records) + [added], records)
    {
      hide RecordsOk, FilesOk, Defers, DefersWorstFirst, DeferredAt, Sum;
      peakBytes := Max(peakBytes, SatAdd(residentBytes, stagedBytes));
      if peakBytes > HARD_BYTES { return false; }
      knownFullBytes := SatAdd(knownFullBytes, fullBytes);
      var rec := Record(key, Some(payload), fullBytes, priority, true, NotDeferred);
      StagedFileIsFree(records, reports, disk.files, []);
      if fullBytes > PER_REPORT_BYTES {
        ok := RemovePayload(payload);
        if !ok { return false; }
        rec := rec.(payload := None, selected := false, reason := PerReportByteBudget);
      }
      assert rec.payload.Some? ==> report[..|report|] == report;
      Register(rec, report);
      ok := EnforceInlineBudget();
      DefersKeepsOk(old(records) + [rec], records, reports, disk.files);
    }

    /** Append the record with its byte counts; the inline budget is enforced afterwards. */
    method Register(rec: Record, ghost report: seq<u8>)
      requires RecordsOk(records, reports) && FilesOk(records, reports, disk.files)
      requires selectedBytes == Sum(records, Selected) <= INLINE_BYTES
      requires residentBytes == Sum(records, Resident)
      requires rec.payload.Some? ==> residentBytes + rec.fullBytes <= HARD_BYTES
      requires residentBytes <= HARD_BYTES && knownFullBytes == SatAdd(Min(Sum(records, All), U64_MAX), rec.fullBytes)
      requires rec.fullBytes == Min(|report|, U64_MAX)
      requires rec.selected <==> rec.payload.Some?
      requires rec.payload.Some? ==> rec.payload.value == |records| && rec.fullBytes <= PER_REPORT_BYTES
      requires if rec.payload.Some? then |records| in disk.files && disk.files[|records|] == report else |records| !in disk.files
      modifies this`records, this`reports, this`residentBytes, this`selectedBytes
      ensures records == old(records) + [rec] && reports == old(reports) + [report]
      ensures RecordsOk(records, reports) && FilesOk(records, reports, disk.files)
      ensures |records| !in disk.files
      ensures selectedBytes == Sum(records, Selected)
      ensures residentBytes == Sum(records, Resident) <= HARD_BYTES
      ensures knownFullBytes == Min(Sum(records, All), U64_MAX)
    {
      hide RecordsOk, FilesOk, Sum;
      SumAppend(records, rec, Selected);
      SumAppend(records, rec, Resident);
      SumAppend(records, rec, All);
      AppendKeepsOk(records, rec, reports, report, disk.files);
      if rec.selected {
        residentBytes := residentBytes + rec.fullBytes;
        selectedBytes := SatAdd(selectedBytes, rec.fullBytes);
      }
      records, reports := records + [rec], reports + [report];
    }

    /** Final priorities, then the greedy pass over the cached reports in ranking order. */
    method FinalizeSelection(priorities: map<seq<u8>, int>) returns (ok: bool)
      requires Valid()
      modifies this`records, this`selectedBytes, this`reselectedCount, this`finalized, disk`step
      ensures Valid()
      ensures old(broken) || !AllPriced(old(records), priorities) ==>
                !ok && records == old(records) && selectedBytes == old(selectedBytes) && finalized == old(finalized)
      ensures !old(broken) && AllPriced(old(records), priorities) ==>
                finalized && SameButSelection(Priced(old(records), priorities), records) &&
                reselectedCount == |Chosen(records) - Chosen(old(records))| &&
                (forall i :: 0 <= i < |records| && records[i].payload.Some? ==> records[i] == Settled(records[i], records[i].selected)) &&
                (DistinctKeys(records) ==> LexGreatest(records, Chosen(records)) && ChosenByRoom(records))
      ensures !old(broken) && AllPriced(old(records), priorities) && disk.Faithful() && |records| !in disk.files ==> ok
      ensures ok ==> !broken && Audit()
    {
      hide RecordsOk, FilesOk, LexGreatest, Greedy, GreedilySettled, SetBytes, Sum, Chosen, Cached, SortedOrder, Priced,
           SameButSelection, DistinctKeys, ChosenByRoom;
      if !Ready() { return false; }
      var known := KnowsPriorities(priorities);
      if !known { return false; }
      Reselect(priorities);
      finalized := true;
      ok := Validate();
      if |records| !in disk.files { ValidPassesAudit(); }
    }

    /** The new priorities and the greedy choice among the cached reports. */
    method Reselect(priorities: map<seq<u8>, int>)
      requires Valid() && AllPriced(records, priorities)
      modifies this`records, this`selectedBytes, this`reselectedCount
      ensures Valid() && SameButSelection(Priced(old(records), priorities), records)
      ensures reselectedCount == |Chosen(records) - Chosen(old(records))|
      ensures forall i :: 0 <= i < |records| && records[i].payload.Some? ==> records[i] == Settled(records[i], records[i].selected)
      ensures DistinctKeys(records) ==> LexGreatest(records, Chosen(records)) && ChosenByRoom(records)
    {
      hide RecordsOk, FilesOk, LexGreatest, Greedy, GreedilySettled, SetBytes, Sum, Chosen, Cached, SortedOrder, Priced,
           SameButSelection, DistinctKeys, ChosenByRoom;
      ghost var start := records;
      Reprice(priorities);
      ghost var priced := records;
      PricedKeepsOk(start, priorities, reports, disk.files);
      RankedIsCached(records);
      var order := Ranked(records, |records|);
      SelectGreedily(order);
      SettledKeepsOk(priced, records, reports, disk.files, order);
      SettledIsGreedy(priced, records, reports, order);
      if DistinctKeys(records) { GreatestIsByRoom(records); }
    }

    method KnowsPriorities(priorities: map<seq<u8>, int>) returns (known: bool)
      ensures known == AllPriced(records, priorities)
    {
      for i := 0 to |records|
        invariant forall k :: 0 <= k < i ==> records[k].key in priorities
      {
        if records[i].key !in priorities { return false; }
      }
      return true;
    }

    method Reprice(priorities: map<seq<u8>, int>)
      requires AllPriced(records, priorities)
      modifies this`records
      ensures records == Priced(old(records), priorities)
    {
      var i := 0;
      while i < |records|
        invariant i <= |records| == |old(records)|
        invariant forall k :: 0 <= k < i ==> records[k] == Priced(old(records), priorities)[k]
        invariant forall k :: i <= k < |records| ==> records[k] == old(records)[k]
      {
        records := records[i := records[i].(priority := priorities[records[i].key])];
        i := i + 1;
      }
    }

    method SelectGreedily(order: seq<nat>)
      requires SortedOrder(records, order)
      modifies this`records, this`selectedBytes, this`reselectedCount
      ensures GreedilySettled(old(records), records, order)
      ensures selectedBytes == SetBytes(old(records), Greedy(old(records), order, |order|))
      ensures reselectedCount == |Greedy(old(records), order, |order|) - Chosen(old(records))|
    {
      hide Greedy, SetBytes, SettledUpTo, GreedilySettled, Chosen;
      selectedBytes, reselectedCount := 0, 0;
      ghost var start := records;
      GreedyStart(start, order);
      for k := 0 to |order|
        invariant SettledUpTo(start, records, order, k)
        invariant selectedBytes == SetBytes(start, Greedy(start, order, k))
        invariant reselectedCount == |Greedy(start, order, k) - Chosen(start)|
      {
        GreedyStep(start, order, k);
        SettledStep(start, records, order, k);
        var i := order[k];
        SettledKeepsSize(records[i]);
        var chosen := records[i].fullBytes <= INLINE_BYTES - selectedBytes;
        if chosen && !records[i].selected { reselectedCount := reselectedCount + 1; }
        records := records[i := if chosen then records[i].(selected := true, reason := NotDeferred)
                                else records[i].(selected := false, reason := InlineReportBudget)];
        if chosen { selectedBytes := selectedBytes + records[i].fullBytes; }
      }
      AllSettled(start, records, order);
    }

    /** One record against its file: it exists, has the recorded size and can be opened. */
    method AuditRecord(r: Record) returns (ok: bool)
      modifies disk`step
      ensures ok ==> RecordAudit(r, disk.files)
      ensures disk.Faithful() && RecordAudit(r, disk.files) ==> ok
    {
      if r.selected && r.payload.None? { return false; }
      if r.payload.None? { return true; }
      var regular := disk.Try();
      if !regular || r.payload.value !in disk.files { return false; }
      if |disk.files[r.payload.value]| != r.fullBytes { return false; }
      ok := disk.Try();
    }

    /** The final audit of the records, the counters and the directory itself. */
    method Validate() returns (ok: bool)
      modifies disk`step
      ensures ok ==> !broken && Audit()
      ensures disk.Faithful() && !broken && Audit() ==> ok
    {
      hide Sum, ResidentCount, RecordAudit, SatAdd;
      if !Ready() { return false; }
      AuditStarts(records);
      var onDisk: u64, inlineBytes: u64, resident: nat := 0, 0, 0;
      var i := 0;
      while i < |records|
        invariant i <= |records|
        invariant onDisk == Min(Sum(records[..i], Resident), U64_MAX)
        invariant inlineBytes == Sum(records[..i], Selected) % U64_LIMIT
        invariant resident == ResidentCount(records[..i])
        invariant forall k :: 0 <= k < i ==> RecordAudit(records[k], disk.files)
      {
        var r := records[i];
        AuditGoesOn(records, i);
        AuditAdds(Sum(records[..i], Resident), Sum(records[..i], Selected), r.fullBytes);
        var sound := AuditRecord(r);
        if !sound { return false; }
        if r.payload.Some? {
          resident := resident + 1;
          onDisk := SatAdd(onDisk, r.fullBytes);
          if r.selected { inlineBytes := (inlineBytes + r.fullBytes) % U64_LIMIT; }
        }
        i := i + 1;
      }
      assert records[..|records|] == records;
      var listed := disk.Try();
      if !listed { return false; }
      if |disk.files| != resident { return false; }
      return onDisk == residentBytes && inlineBytes == selectedBytes && inlineBytes <= INLINE_BYTES &&
             onDisk <= HARD_BYTES && peakBytes <= HARD_BYTES;
    }

    ghost predicate Audit() reads this, disk {
      (forall k :: 0 <= k < |records| ==> RecordAudit(records[k], disk.files)) &&
      |disk.files| == ResidentCount(records) &&
      residentBytes == Min(Sum(records, Resident), U64_MAX) <= HARD_BYTES &&
      selectedBytes == Sum(records, Selected) % U64_LIMIT <= INLINE_BYTES &&
      peakBytes <= HARD_BYTES
    }

    /** Nothing the audit looks for can happen in a valid spool, except a file left behind by a failed Add. */
    lemma ValidPassesAudit()
      requires Valid() && |records| !in disk.files
      ensures Audit()
    {
      forall k | 0 <= k < |records| ensures RecordAudit(records[k], disk.files) {
        assert records[k].payload.Some? ==> k in disk.files && disk.files[k] == reports[k];
      }
      assert disk.files.Keys == Cached(records);
      CachedCount(records);
    }
  }

  datatype Job = Job(key: seq<u8>, priority: int, chunks: seq<seq<u8>>)

  /** A whole directory run: every report is added, then the final selection is made. On a faithful disk no
      internal error is ever reported, whatever the reports, their order and the chunks they are written in. */
  method SpoolDirectory(spool: DirectoryReportSpool, jobs: seq<Job>, priorities: map<seq<u8>, int>) returns (ok: bool)
    requires spool.Valid() && spool.records == [] && !spool.broken && !spool.finalized && spool.disk.files == map[]
    requires forall i :: 0 <= i < |jobs| ==> jobs[i].key in priorities
    modifies spool, spool.disk
    ensures spool.Valid()
    ensures spool.disk.Faithful() ==> ok
    ensures ok ==> !spool.broken && spool.Audit()
    ensures ok ==> |spool.records| == |jobs| && forall i :: 0 <= i < |jobs| ==>
                spool.records[i].key == jobs[i].key && spool.reports[i] == Concat(jobs[i].chunks)
    ensures ok && DistinctKeys(spool.records) ==> LexGreatest(spool.records, Chosen(spool.records)) && ChosenByRoom(spool.records)
  {
    hide RecordsOk, FilesOk, Concat, LexGreatest, DistinctKeys, ChosenByRoom;
    for i := 0 to |jobs|
      invariant spool.Valid() && !spool.finalized && |spool.records| == i && !spool.broken
      invariant |spool.records| !in spool.disk.files
      invariant forall k :: 0 <= k < i ==>
                  spool.records[k].key == jobs[k].key && spool.reports[k] == Concat(jobs[k].chunks)
    {
      ghost var kept;
      ok, kept := spool.Add(jobs[i].key, jobs[i].priority, jobs[i].chunks);
      if !ok { return false; }
    }
    ok := spool.FinalizeSelection(priorities);
  }

  /** The stream buffer that stages a report: it counts every byte and stores at most the cap. */
  class CappedSpoolStreambuf {
    const spool: DirectoryReportSpool
    const payload: nat
    var total: u64
    var written: u64
    var failed: bool
    ghost var received: seq<u8>

    ghost predicate Valid() reads this, spool, spool.disk {
      spool.Valid() && payload == |spool.records| && payload in spool.disk.files &&
      total == Min(|received|, U64_MAX) &&
      written == |spool.disk.files[payload]| <= PER_REPORT_BYTES &&
      (!failed ==> spool.disk.files[payload] == received[..Min(|received|, PER_REPORT_BYTES)])
    }

    constructor (spool: DirectoryReportSpool)
      requires spool.Valid() && |spool.records| in spool.disk.files && spool.disk.files[|spool.records|] == []
      ensures Valid() && this.spool == spool && !failed && received == []
    {
      this.spool, payload := spool, |spool.records|;
      total, written, failed, received := 0, 0, false, [];
    }

    method Write(s: seq<u8>) returns (n: nat)
      requires Valid() && !failed
      modifies this, spool`records, spool`residentBytes, spool`evictedCount, spool`peakBytes, spool`broken, spool.disk
      ensures Valid()
      ensures received == old(received) + s
      ensures failed ==> n != |s|
      ensures !failed ==> n == |s| && spool.broken == old(spool.broken)
      ensures spool.disk.Faithful() ==> !failed
      ensures Evicts(old(spool.records), spool.records) && EvictsWorstFirst(old(spool.records), spool.records)
    {
      hide Evicts, EvictsWorstFirst;
      NothingEvicted(spool.records);
      ghost var before := received;
      received := before + s;
      if s == [] {
        assert received == before;
        return 0;
      }
      total := SatLength(total, |s|);
      if written < PER_REPORT_BYTES {
        var take := Min(PER_REPORT_BYTES - written, |s|);
        KeptPrefix(before, s, PER_REPORT_BYTES);
        var stored := spool.Stage(written, s[..take]);
        if !stored { failed := true; return 0; }
        written := written + take;
      } else {
        KeptPrefix(before, s, PER_REPORT_BYTES);
      }
      return |s|;
    }
  }

  lemma NothingEvicted(rs: seq<Record>)
    ensures Evicts(rs, rs) && EvictsWorstFirst(rs, rs)
  {
  }

  /** The first `cap` bytes of a longer text: what is kept so far plus what still fits. */
  lemma KeptPrefix(before: seq<u8>, s: seq<u8>, cap: nat)
    ensures (before + s)[..Min(|before + s|, cap)] ==
            before[..Min(|before|, cap)] + s[..Min(cap - Min(|before|, cap), |s|)]
  {
  }

  /** Counting `n` more bytes with the saturating addition; a single write is shorter than 2^64 bytes. */
  function SatLength(total: u64, n: nat): (r: u64)
    ensures r == Min(total + n, U64_MAX)
  {
    SatAdd(total, Min(n, U64_MAX))
  }

  function NewRecord(key: seq<u8>, priority: int, payload: nat, bytes: nat): Record {
    var full := Min(bytes, U64_MAX);
    if full > 0x80_0000 then Record(key, None, full, priority, false, PerReportByteBudget)
    else Record(key, Some(payload), full, priority, true, NotDeferred)
  }

  lemma AppendKeepsOk(rs: seq<Record>, rec: Record, reports: seq<seq<u8>>, report: seq<u8>, files: map<nat, seq<u8>>)
    requires RecordsOk(rs, reports) && FilesOk(rs, reports, files)
    requires rec.fullBytes == Min(|report|, U64_MAX) && (rec.selected <==> rec.payload.Some?)
    requires rec.payload.Some? ==> rec.payload.value == |rs| && rec.fullBytes <= PER_REPORT_BYTES
    requires if rec.payload.Some? then |rs| in files && files[|rs|] == report else |rs| !in files
    ensures RecordsOk(rs + [rec], reports + [report]) && FilesOk(rs + [rec], reports + [report], files)
    ensures |rs + [rec]| !in files
  {
  }

  /** The file behind the last record is free to be written or deleted. */
  lemma StagedFileIsFree(rs: seq<Record>, reports: seq<seq<u8>>, files: map<nat, seq<u8>>, bytes: seq<u8>)
    requires |reports| == |rs| && FilesOk(rs, reports, files)
    ensures FilesOk(rs, reports, files[|rs| := bytes]) && FilesOk(rs, reports, files - {|rs|})
  {
  }

  lemma DefersKeepsOk(a: seq<Record>, b: seq<Record>, reports: seq<seq<u8>>, files: map<nat, seq<u8>>)
    requires Defers(a, b) && RecordsOk(a, reports) && FilesOk(a, reports, files)
    ensures RecordsOk(b, reports) && FilesOk(b, reports, files)
  {
    assert forall i :: 0 <= i < |a| ==> b[i].payload == a[i].payload && b[i].fullBytes == a[i].fullBytes;
  }

  lemma EvictsCompose(a: seq<Record>, b: seq<Record>, c: seq<Record>)
    requires Evicts(a, b) && EvictsWorstFirst(a, b) && Evicts(b, c) && EvictsWorstFirst(b, c)
    ensures Evicts(a, c) && EvictsWorstFirst(a, c)
  {
    forall i, j | 0 <= i < |a| && 0 <= j < |a| && EvictedAt(a, c, i) && c[j].payload.Some? && !c[j].selected
      ensures !Ahead(a[i], c[j])
    {
      assert c[j] == b[j];
      if b[i] == a[i] { assert EvictedAt(b, c, i); } else { assert EvictedAt(a, b, i); }
    }
  }

  lemma DropKeepsFiles(rs: seq<Record>, reports: seq<seq<u8>>, files: map<nat, seq<u8>>, i: nat)
    requires RecordsOk(rs, reports) && FilesOk(rs, reports, files)
    requires i < |rs| && Evictable(rs[i])
    ensures i in files && rs[i].payload.value == i
    ensures RecordsOk(rs[i := Dropped(rs[i])], reports) && FilesOk(rs[i := Dropped(rs[i])], reports, files - {i})
  {
  }

  function Dropped(r: Record): Record { r.(payload := None, reason := SpoolCacheBudget) }

  predicate Evictable(r: Record) { !r.selected && r.payload.Some? }

  ghost function SelectedCount(rs: seq<Record>): nat {
    if rs == [] then 0 else SelectedCount(rs[..|rs| - 1]) + (if rs[|rs| - 1].selected then 1 else 0)
  }

  lemma {:induction false} SelectedCountDrops(rs: seq<Record>, i: nat, r: Record)
    requires i < |rs| && rs[i].selected && !r.selected
    ensures SelectedCount(rs[i := r]) < SelectedCount(rs)
    decreases |rs|
  {
    var n := |rs| - 1;
    if i == n {
      assert rs[i := r][..n] == rs[..n];
    } else {
      assert rs[i := r][..n] == rs[..n][i := r];
      SelectedCountDrops(rs[..n], i, r);
    }
  }

  ghost function ResidentCount(rs: seq<Record>): nat {
    if rs == [] then 0 else ResidentCount(rs[..|rs| - 1]) + (if rs[|rs| - 1].payload.Some? then 1 else 0)
  }

  lemma {:induction false} ResidentCountDrops(rs: seq<Record>, i: nat, r: Record)
    requires i < |rs| && rs[i].payload.Some? && r.payload.None?
    ensures ResidentCount(rs[i := r]) < ResidentCount(rs)
    decreases |rs|
  {
    var n := |rs| - 1;
    if i == n {
      assert rs[i := r][..n] == rs[..n];
    } else {
      assert rs[i := r][..n] == rs[..n][i := r];
      ResidentCountDrops(rs[..n], i, r);
    }
  }

  lemma WorstReplaced(rs: seq<Record>, before: nat, worst: nat)
    requires before < |rs| && worst < |rs| && (before == worst || Better(rs[before], rs[worst]))
    ensures forall k :: 0 <= k < |rs| && !Better(rs[before], rs[k]) ==> !Better(rs[worst], rs[k])
    ensures !Better(rs[worst], rs[worst])
  {
    BetterIsStrictOrder(rs[worst], rs[worst], rs[worst]);
    BetterIsStrictOrder(rs[before], rs[worst], rs[worst]);
    forall k | 0 <= k < |rs| && !Better(rs[before], rs[k]) ensures !Better(rs[worst], rs[k]) {
      if before != worst { NotBetterTransitive(rs[worst], rs[before], rs[k]); }
    }
  }

  lemma DeferStep(start: seq<Record>, rs: seq<Record>, i: nat)
    requires Defers(start, rs) && DefersWorstFirst(start, rs)
    requires i < |rs| && rs[i].selected
    requires forall k :: 0 <= k < |rs| && rs[k].selected ==> !Better(rs[i], rs[k])
    ensures var next := rs[i := rs[i].(selected := false, reason := InlineReportBudget)];
            Defers(start, next) && DefersWorstFirst(start, next) && DeferredAt(start, next, i)
  {
    var next := rs[i := rs[i].(selected := false, reason := InlineReportBudget)];
    assert rs[i] == start[i];
    forall a, b | 0 <= a < |rs| && 0 <= b < |rs| && DeferredAt(start, next, a) && next[b].selected
      ensures !Ahead(start[a], next[b])
    {
      assert next[b] == rs[b];
      BetterIsAhead(start[a], rs[b]);
      if a != i { assert DeferredAt(start, rs, a); }
    }
  }

  lemma EvictStep(start: seq<Record>, rs: seq<Record>, i: nat)
    requires Evicts(start, rs) && EvictsWorstFirst(start, rs)
    requires i < |rs| && Evictable(rs[i])
    requires forall k :: 0 <= k < |rs| && Evictable(rs[k]) ==> !Better(rs[i], rs[k])
    ensures var next := rs[i := Dropped(rs[i])];
            Evicts(start, next) && EvictsWorstFirst(start, next)
  {
    var next := rs[i := Dropped(rs[i])];
    assert rs[i] == start[i];
    forall a, b | 0 <= a < |rs| && 0 <= b < |rs| && EvictedAt(start, next, a) && Evictable(next[b])
      ensures !Ahead(start[a], next[b])
    {
      assert next[b] == rs[b];
      BetterIsAhead(start[a], rs[b]);
      if a != i { assert EvictedAt(start, rs, a); }
    }
  }

  /** What the audit checks of one record. */
  ghost predicate RecordAudit(r: Record, files: map<nat, seq<u8>>) {
    (r.selected ==> r.payload.Some?) &&
    (r.payload.Some? ==> r.payload.value in files && |files[r.payload.value]| == r.fullBytes)
  }

  lemma AuditStarts(rs: seq<Record>)
    ensures Sum(rs[..0], Resident) == 0 && Sum(rs[..0], Selected) == 0 && ResidentCount(rs[..0]) == 0
  {
  }

  lemma AuditAdds(resident: nat, selected: nat, bytes: u64)
    ensures SatAdd(Min(resident, U64_MAX), bytes) == Min(resident + bytes, U64_MAX)
    ensures (selected % U64_LIMIT + bytes) % U64_LIMIT == (selected + bytes) % U64_LIMIT
  {
  }

  lemma AuditGoesOn(rs: seq<Record>, i: nat)
    requires i < |rs|
    ensures Sum(rs[..i + 1], Resident) == Sum(rs[..i], Resident) + (if rs[i].payload.Some? then rs[i].fullBytes else 0)
    ensures Sum(rs[..i + 1], Selected) == Sum(rs[..i], Selected) + (if rs[i].selected then rs[i].fullBytes else 0)
    ensures ResidentCount(rs[..i + 1]) == ResidentCount(rs[..i]) + (if rs[i].payload.Some? then 1 else 0)
  {
    assert rs[..i + 1][..i] == rs[..i];
  }

  lemma {:induction false} CachedCount(rs: seq<Record>)
    ensures |Cached(rs)| == ResidentCount(rs)
  {
    if rs != [] {
      var n := |rs| - 1;
      CachedCount(rs[..n]);
      assert Cached(rs) == Cached(rs[..n]) + (if rs[n].payload.Some? then {n} else {});
    }
  }

  ghost predicate AllPriced(rs: seq<Record>, priorities: map<seq<u8>, int>) {
    forall i :: 0 <= i < |rs| ==> rs[i].key in priorities
  }

  ghost function Priced(rs: seq<Record>, priorities: map<seq<u8>, int>): seq<Record>
    requires AllPriced(rs, priorities)
  {
    seq(|rs|, i requires 0 <= i < |rs| => rs[i].(priority := priorities[rs[i].key]))
  }

  function Settled(r: Record, chosen: bool): Record {
    r.(selected := chosen, reason := if chosen then NotDeferred else InlineReportBudget)
  }

  lemma PricedKeepsOk(rs: seq<Record>, priorities: map<seq<u8>, int>, reports: seq<seq<u8>>, files: map<nat, seq<u8>>)
    requires RecordsOk(rs, reports) && FilesOk(rs, reports, files) && AllPriced(rs, priorities)
    ensures var priced := Priced(rs, priorities);
            RecordsOk(priced, reports) && FilesOk(priced, reports, files) && Chosen(priced) == Chosen(rs) &&
            Sum(priced, Resident) == Sum(rs, Resident) && Sum(priced, All) == Sum(rs, All)
  {
    SumSame(rs, Priced(rs, priorities), Resident);
    SumSame(rs, Priced(rs, priorities), All);
  }

  lemma RankedIsCached(rs: seq<Record>)
    ensures SortedOrder(rs, Ranked(rs, |rs|)) && forall x :: x in Ranked(rs, |rs|) <==> x in Cached(rs)
  {
  }

  lemma GreedyStart(rs: seq<Record>, order: seq<nat>)
    requires SortedOrder(rs, order)
    ensures Greedy(rs, order, 0) == {} && SetBytes(rs, {}) == 0
    ensures |Greedy(rs, order, 0) - Chosen(rs)| == 0 && SettledUpTo(rs, rs, order, 0)
  {
    SetBytesNone(rs);
    assert {} - Chosen(rs) == {};
  }

  lemma AllSettled(start: seq<Record>, rs: seq<Record>, order: seq<nat>)
    requires SortedOrder(start, order) && SettledUpTo(start, rs, order, |order|)
    ensures GreedilySettled(start, rs, order)
  {
    hide Settled, Greedy;
    assert order[..|order|] == order;
  }

  /** One greedy step, seen as a step of the reference function. */
  lemma GreedyStep(rs: seq<Record>, order: seq<nat>, k: nat)
    requires SortedOrder(rs, order) && k < |order|
    ensures order[..k + 1] == order[..k] + [order[k]] && order[k] !in order[..k]
    ensures SetBytes(rs, Greedy(rs, order, k)) <= INLINE_BYTES
    ensures var before, chosen := Greedy(rs, order, k), rs[order[k]].fullBytes <= INLINE_BYTES - SetBytes(rs, Greedy(rs, order, k));
            var after := Greedy(rs, order, k + 1);
            order[k] !in before && after == (if chosen then before + {order[k]} else before) &&
            SetBytes(rs, after) == SetBytes(rs, before) + (if chosen then rs[order[k]].fullBytes else 0) &&
            |after - Chosen(rs)| == |before - Chosen(rs)| + (if chosen && !rs[order[k]].selected then 1 else 0)
  {
    GreedyBasics(rs, order, k);
    var before, after := Greedy(rs, order, k), Greedy(rs, order, k + 1);
    SetBytesAdd(rs, before, order[k]);
    if after != before {
      assert after - Chosen(rs) == (before - Chosen(rs)) + (if rs[order[k]].selected then {} else {order[k]});
    }
  }

  /** The first k records of the order are settled, the others untouched. */
  ghost predicate SettledUpTo(start: seq<Record>, rs: seq<Record>, order: seq<nat>, k: nat)
    requires SortedOrder(start, order) && k <= |order|
  {
    |rs| == |start| && forall i: nat :: i < |rs| ==>
      rs[i] == if i in order[..k] then Settled(start[i], i in Greedy(start, order, k)) else start[i]
  }

  lemma SettledKeepsSize(r: Record)
    ensures Settled(r, true).fullBytes == Settled(r, false).fullBytes == r.fullBytes
  {
  }

  lemma SettledStep(start: seq<Record>, rs: seq<Record>, order: seq<nat>, k: nat)
    requires SortedOrder(start, order) && k < |order| && SettledUpTo(start, rs, order, k)
    ensures order[k] < |rs| == |start| && rs[order[k]] == start[order[k]]
    ensures SettledUpTo(start, rs[order[k] := Settled(rs[order[k]], order[k] in Greedy(start, order, k + 1))], order, k + 1)
  {
    hide Greedy, Settled, SetBytes, Chosen;
    GreedyStep(start, order, k);
  }

  ghost predicate GreedilySettled(start: seq<Record>, rs: seq<Record>, order: seq<nat>)
    requires SortedOrder(start, order)
  {
    |rs| == |start| && forall i: nat :: i < |rs| ==>
      rs[i] == if i in order then Settled(start[i], i in Greedy(start, order, |order|)) else start[i]
  }

  lemma SettledKeepsOk(start: seq<Record>, rs: seq<Record>, reports: seq<seq<u8>>, files: map<nat, seq<u8>>, order: seq<nat>)
    requires RecordsOk(start, reports) && FilesOk(start, reports, files)
    requires SortedOrder(start, order) && forall x :: x in order <==> x in Cached(start)
    requires GreedilySettled(start, rs, order)
    ensures RecordsOk(rs, reports) && FilesOk(rs, reports, files) && SameButSelection(start, rs)
    ensures Sum(rs, Resident) == Sum(start, Resident) && Sum(rs, All) == Sum(start, All)
    ensures forall i :: 0 <= i < |rs| && rs[i].payload.Some? ==> rs[i] == Settled(rs[i], rs[i].selected)
  {
    forall i: nat | i < |rs| ensures rs[i].payload.Some? <==> i in order {
      assert i in order <==> i in Cached(start);
    }
    SumSame(start, rs, Resident);
    SumSame(start, rs, All);
  }

  /** After the pass the selected records are exactly the greedy choice, which is the best one. */
  lemma SettledIsGreedy(start: seq<Record>, rs: seq<Record>, reports: seq<seq<u8>>, order: seq<nat>)
    requires RecordsOk(start, reports)
    requires SortedOrder(start, order) && forall x :: x in order <==> x in Cached(start)
    requires GreedilySettled(start, rs, order) && SameButSelection(start, rs)
    ensures Chosen(rs) == Greedy(start, order, |order|)
    ensures SetBytes(start, Chosen(rs)) == Sum(rs, Selected) <= INLINE_BYTES
    ensures DistinctKeys(rs) ==> LexGreatest(rs, Chosen(rs))
  {
    hide SetBytes;
    var chosen := Greedy(start, order, |order|);
    GreedyBasics(start, order, |order|);
    assert order[..|order|] == order;
    forall i: nat | i < |rs| ensures rs[i].selected <==> i in chosen {
      assert i in order <==> i in Cached(start);
    }
    assert forall i :: i in chosen ==> i in Cached(start);
    assert Chosen(rs) == chosen;
    SetBytesSameSizes(start, rs, chosen);
    SetBytesOfSelected(rs, chosen);
    if DistinctKeys(rs) {
      GreedyIsLexGreatest(start, order);
      LexGreatestSame(start, rs, chosen);
    }
  }
}
