/** The shared byte/file allowance of a directory run: the candidate phase with its reserve, and the phase after
    relationships (src/main.cpp:1989-1994, 2034-2110, 2222-2268). */
module DirectoryBudget {
  import opened Common
  import opened ArtifactGraph
  import opened BoundedChildren

  const MAX_TARGETS: int := 8

  /** One input file of the directory and what its analysis left behind. */
  datatype Output = Output(bytes: u64, files: u64, deferred: bool)

  /** Answers of the world for candidate i. `analyze` gets the byte and file allowance and says what is found
      in the artifact root afterwards; None is an inspection failure. */
  datatype InputWorld = InputWorld(readable: nat -> bool, reset: nat -> bool, analyze: (nat, u64, u64) -> Option<Tree>,
                                   cleanup: (nat, nat) -> bool, children: nat -> seq<Artifact>, root: nat -> Root,
                                   graph: nat -> Graph, child: nat -> ChildWorld)

  ghost function TotalBytes(outs: seq<Output>): nat {
    if outs == [] then 0 else TotalBytes(outs[..|outs| - 1]) + outs[|outs| - 1].bytes
  }

  ghost function TotalFiles(outs: seq<Output>): nat {
    if outs == [] then 0 else TotalFiles(outs[..|outs| - 1]) + outs[|outs| - 1].files
  }

  // The candidate phase as a specification.

  /** What becomes of the output of a candidate: it is kept, it is refused and nothing stays, or the run must stop. */
  datatype Fate = Broken | Refused | Kept(tree: Tree)

  /** An analysis that may not write anything. */
  ghost function Suppressed(world: InputWorld, i: nat, k: nat): Fate {
    if world.analyze(i, 0, 0) == Some(Tree(0, 0)) && world.cleanup(i, k) then Refused else Broken
  }

  /** With so much of the allowance used: output is kept exactly when the root could be reset, something is left, and
      what the analysis wrote fits into it. */
  ghost function FateOf(i: nat, world: InputWorld, extractBytes: u64, extractFiles: u64, bytes: nat, files: nat): Fate {
    if !world.reset(i) then Refused
    else if bytes >= 0x380_0000 || files >= 384 then Suppressed(world, i, 0)
    else
      var roomBytes, roomFiles := 0x380_0000 - bytes, 384 - files;
      match world.analyze(i, Min(extractBytes, roomBytes), Min(extractFiles, roomFiles))
      case None => Broken
      case Some(t) =>
        if t.bytes <= roomBytes && t.files <= roomFiles then Kept(t)
        else if world.cleanup(i, 0) then Suppressed(world, i, 1) else Broken
  }

  /** The output of candidate i, and the reports of its HIGH children, after `bytes` and `files` had been used. */
  ghost predicate Settles(i: nat, world: InputWorld, extractBytes: u64, extractFiles: u64, bytes: nat, files: nat, out: Output) {
    if !world.readable(i) then out == Output(0, 0, false)
    else match FateOf(i, world, extractBytes, extractFiles, bytes, files)
      case Broken => false
      case Refused => out == Output(0, 0, true)
      case Kept(t) =>
        bytes + t.bytes <= 0x380_0000 && files + t.files <= 384 && !out.deferred &&
        if t.files == 0 then out.bytes == t.bytes && out.files == 0
        else
          var m := Run(world.root(i), world.child(i), Caps(0x380_0000, 384), world.graph(i), bytes + t.bytes, files + t.files,
                       Candidates(world.children(i)));
          bytes + out.bytes == m.bytes && files + out.files == m.files
  }

  /** Every candidate is settled with what those before it have left. */
  ghost predicate AllSettled(world: InputWorld, extractBytes: u64, extractFiles: u64, outs: seq<Output>) {
    forall i :: 0 <= i < |outs| ==>
      Settles(i, world, extractBytes, extractFiles, TotalBytes(outs[..i]), TotalFiles(outs[..i]), outs[i])
  }

  lemma SettlesMore(world: InputWorld, extractBytes: u64, extractFiles: u64, outs: seq<Output>, out: Output)
    requires AllSettled(world, extractBytes, extractFiles, outs)
    requires Settles(|outs|, world, extractBytes, extractFiles, TotalBytes(outs), TotalFiles(outs), out)
    ensures AllSettled(world, extractBytes, extractFiles, outs + [out])
  {
    hide Settles;
    var more := outs + [out];
    forall i | 0 <= i < |more|
      ensures Settles(i, world, extractBytes, extractFiles, TotalBytes(more[..i]), TotalFiles(more[..i]), more[i])
    {
      assert more[..i] == outs[..i];
      if i == |outs| { assert outs[..i] == outs; }
    }
  }

  lemma {:induction false} CandidatesTwice(s: seq<Artifact>)
    ensures Candidates(Candidates(s)) == Candidates(s)
  {
    hide AutomaticCandidate;
    if s != [] {
      CandidatesTwice(s[1..]);
      if AutomaticCandidate(s[0]) {
        assert Candidates(s)[1..] == Candidates(s[1..]);
      } else {
        assert Candidates(s) == Candidates(s[1..]);
      }
    }
  }

  // The candidate phase as the code runs it.

  /** One readable candidate: reset its root, analyse within what is left, roll back what does not fit. */
  method MaterializeCandidate(i: nat, world: InputWorld, extractBytes: u64, extractFiles: u64, ledger: Ledger)
    returns (ok: bool, out: Output)
    requires ledger.Within(EARLY_BYTES, EARLY_FILES) && world.readable(i)
    modifies ledger
    ensures ledger.Within(EARLY_BYTES, EARLY_FILES)
    ensures ledger.bytes == old(ledger.bytes) + out.bytes && ledger.files == old(ledger.files) + out.files
    ensures ok <==> FateOf(i, world, extractBytes, extractFiles, old(ledger.bytes), old(ledger.files)) != Broken
    ensures ok ==> Settles(i, world, extractBytes, extractFiles, old(ledger.bytes), old(ledger.files), out)
    ensures !ok ==> out.bytes == 0 && out.files == 0
  {
    hide Run, Candidates;
    var remainingBytes, remainingFiles := Left(ledger.bytes, EARLY_BYTES), Left(ledger.files, EARLY_FILES);
    var unsafeRoot := !world.reset(i);
    var forced := unsafeRoot || remainingBytes == 0 || remainingFiles == 0;
    out := Output(0, 0, forced);
    var stats := if forced then world.analyze(i, 0, 0)
                 else world.analyze(i, Min(extractBytes, remainingBytes), Min(extractFiles, remainingFiles));
    if unsafeRoot { return true, out; }
    if stats.None? { return false, out; }
    if forced {
      if stats.value.files != 0 || stats.value.bytes != 0 { return false, out; }
      var clean := world.cleanup(i, 0);
      return clean, out;
    }
    if stats.value.bytes > remainingBytes || stats.value.files > remainingFiles {
      var clean := world.cleanup(i, 0);
      if !clean { return false, out; }
      var retry := world.analyze(i, 0, 0);
      if retry.None? { return false, out; }
      if retry.value.files != 0 || retry.value.bytes != 0 { return false, out; }
      var cleanAgain := world.cleanup(i, 1);
      return cleanAgain, out.(deferred := true);
    }
    out := KeepOutput(i, world, stats.value, ledger);
    return true, out;
  }

  /** Output that fits is charged, and so are the reports of its HIGH children. */
  method KeepOutput(i: nat, world: InputWorld, t: Tree, ledger: Ledger) returns (out: Output)
    requires ledger.bytes + t.bytes <= EARLY_BYTES && ledger.files + t.files <= EARLY_FILES
    modifies ledger
    ensures ledger.Within(EARLY_BYTES, EARLY_FILES) && !out.deferred
    ensures ledger.bytes == old(ledger.bytes) + out.bytes && ledger.files == old(ledger.files) + out.files
    ensures t.files == 0 ==> out.bytes == t.bytes && out.files == 0
    ensures t.files != 0 ==>
              var m := Run(world.root(i), world.child(i), Caps(0x380_0000, 384), world.graph(i), old(ledger.bytes) + t.bytes,
                           old(ledger.files) + t.files, Candidates(world.children(i)));
              ledger.bytes == m.bytes && ledger.files == m.files
  {
    hide Run, Candidates, ReportBytes, ReportFiles;
    ledger.Charge(t.bytes, t.files);
    out := Output(t.bytes, t.files, false);
    if t.files != 0 {
      var children := Candidates(world.children(i));
      CandidatesTwice(world.children(i));
      NoSteps(world.root(i), world.child(i), Caps(EARLY_BYTES, EARLY_FILES), world.graph(i), ledger.bytes, ledger.files);
      if children != [] {
        var beforeBytes, beforeFiles := ledger.bytes, ledger.files;
        var g := AnalyzeSelectedBounded(world.root(i), world.graph(i), children, world.child(i), ledger, Caps(EARLY_BYTES, EARLY_FILES));
        out := Output(SatAdd(out.bytes, ledger.bytes - beforeBytes), SatAdd(out.files, ledger.files - beforeFiles), false);
      }
    }
  }

  lemma NoSteps(root: Root, world: ChildWorld, caps: Caps, g: Graph, bytes: u64, files: u64)
    ensures Run(root, world, caps, g, bytes, files, []).bytes == bytes && Run(root, world, caps, g, bytes, files, []).files == files
  {
  }

  /** The candidate phase: at most 56 MiB and 384 files, the ledger is the sum over the candidates, and every one is
      settled with what those before it have left. It stops early exactly at the candidate that breaks. */
  method CandidatePhase(n: nat, world: InputWorld, extractBytes: u64, extractFiles: u64, ledger: Ledger)
    returns (ok: bool, outs: seq<Output>)
    requires ledger.bytes == 0 && ledger.files == 0
    modifies ledger
    ensures ledger.Within(EARLY_BYTES, EARLY_FILES)
    ensures ledger.bytes == TotalBytes(outs) && ledger.files == TotalFiles(outs)
    ensures AllSettled(world, extractBytes, extractFiles, outs)
    ensures if ok then |outs| == n
            else |outs| < n && world.readable(|outs|) &&
                 FateOf(|outs|, world, extractBytes, extractFiles, TotalBytes(outs), TotalFiles(outs)) == Broken
  {
    hide FateOf, Settles, AllSettled, TotalBytes, TotalFiles;
    outs := [];
    NothingSettled(world, extractBytes, extractFiles);
    while |outs| < n
      invariant |outs| <= n && ledger.Within(EARLY_BYTES, EARLY_FILES)
      invariant ledger.bytes == TotalBytes(outs) && ledger.files == TotalFiles(outs)
      invariant AllSettled(world, extractBytes, extractFiles, outs)
    {
      var i, out := |outs|, Output(0, 0, false);
      if world.readable(i) {
        ok, out := MaterializeCandidate(i, world, extractBytes, extractFiles, ledger);
        if !ok { return; }
      } else {
        UnreadableSettles(i, world, extractBytes, extractFiles, TotalBytes(outs), TotalFiles(outs));
      }
      SettlesMore(world, extractBytes, extractFiles, outs, out);
      TotalsGrow(outs, out);
      outs := outs + [out];
    }
    ok := true;
  }

  lemma NothingSettled(world: InputWorld, extractBytes: u64, extractFiles: u64)
    ensures AllSettled(world, extractBytes, extractFiles, []) && TotalBytes([]) == 0 && TotalFiles([]) == 0
  {
  }

  lemma TotalsGrow(outs: seq<Output>, out: Output)
    ensures TotalBytes(outs + [out]) == TotalBytes(outs) + out.bytes && TotalFiles(outs + [out]) == TotalFiles(outs) + out.files
  {
    assert (outs + [out])[..|outs|] == outs;
  }

  lemma UnreadableSettles(i: nat, world: InputWorld, extractBytes: u64, extractFiles: u64, bytes: nat, files: nat)
    requires !world.readable(i)
    ensures Settles(i, world, extractBytes, extractFiles, bytes, files, Output(0, 0, false))
  {
  }

  /** An encrypted target after the relationships are known; only a uniquely resolved one is materialized. `input`
      is its candidate. `materialize` gets the byte and file allowance and answers with bytes and files written. */
  datatype Target = Target(input: nat, resolved: bool, resetOk: bool, materialize: (u64, u64) -> Tree, provenanceBytes: u64,
                           provenanceWritten: bool, children: seq<Artifact>, root: Root, graph: Graph, child: ChildWorld)

  /** The extractor honours the allowance it is given. */
  ghost predicate Honest(t: Target) {
    forall b: u64, f: u64 :: t.materialize(b, f).bytes <= b && t.materialize(b, f).files <= f
  }

  /** What a resolved target writes with so much of the 64 MiB and 512 files used: its decisive children, with one file
      kept free for the provenance map, and the map if it still fits. None when its root cannot be reset. */
  ghost function Decisive(t: Target, coreBytes: u64, coreFiles: u64, bytes: nat, files: nat): Option<(nat, nat)>
    requires bytes <= 0x400_0000 && files <= 512
  {
    var roomBytes, roomFiles := 0x400_0000 - bytes, 512 - files;
    if roomFiles > 1 && !t.resetOk then None
    else
      var made := if roomFiles > 1 then t.materialize(Min(coreBytes, roomBytes), Min(coreFiles, roomFiles - 1)) else Tree(0, 0);
      var mapped := made.files < roomFiles && t.provenanceBytes <= Max(0, roomBytes - made.bytes) && t.provenanceWritten;
      Some((made.bytes + (if mapped then t.provenanceBytes else 0), made.files + (if mapped then 1 else 0)))
  }

  ghost predicate Overdrawn(t: Target, coreBytes: u64, coreFiles: u64, bytes: nat, files: nat)
    requires bytes <= 0x400_0000 && files <= 512
  {
    var d := Decisive(t, coreBytes, coreFiles, bytes, files);
    d.Some? && (bytes + d.value.0 > 0x400_0000 || files + d.value.1 > 512)
  }

  /** The totals after a resolved target: its output, and the reports of its HIGH children. */
  ghost predicate Adds(t: Target, coreBytes: u64, coreFiles: u64, bytes: nat, files: nat, bytes': nat, files': nat)
    requires bytes <= 0x400_0000 && files <= 512
  {
    match Decisive(t, coreBytes, coreFiles, bytes, files)
    case None => bytes' == bytes && files' == files
    case Some(d) =>
      !Overdrawn(t, coreBytes, coreFiles, bytes, files) &&
      var m := Run(t.root, t.child, Caps(0x400_0000, 512), t.graph, bytes + d.0, files + d.1, Candidates(t.children));
      bytes' == m.bytes && files' == m.files
  }

  /** One target: decisive children first, then the provenance map if it still fits, then child reports. */
  method MaterializeTarget(t: Target, coreBytes: u64, coreFiles: u64, ledger: Ledger)
    returns (tripped: bool, added: Tree)
    requires ledger.Within(ARTIFACT_BYTES, ARTIFACT_FILES)
    modifies ledger
    ensures tripped <==> Overdrawn(t, coreBytes, coreFiles, old(ledger.bytes), old(ledger.files))
    ensures !tripped ==> ledger.Within(ARTIFACT_BYTES, ARTIFACT_FILES)
    ensures !tripped ==> ledger.bytes == old(ledger.bytes) + added.bytes && ledger.files == old(ledger.files) + added.files
    ensures !tripped ==> Adds(t, coreBytes, coreFiles, old(ledger.bytes), old(ledger.files), ledger.bytes, ledger.files)
  {
    hide Run, Candidates, ReportBytes, ReportFiles;
    var remainingBytes, remainingFiles := Left(ledger.bytes, ARTIFACT_BYTES), Left(ledger.files, ARTIFACT_FILES);
    var made := Tree(0, 0);
    if remainingFiles > 1 {
      if !t.resetOk { return false, Tree(0, 0); }
      // One file slot is kept for the provenance map.
      made := t.materialize(Min(coreBytes, remainingBytes), Min(coreFiles, remainingFiles - 1));
    }
    var provenanceLeft := if made.bytes < remainingBytes then remainingBytes - made.bytes else 0;
    var provenanceOk := made.files < remainingFiles && t.provenanceBytes <= provenanceLeft && t.provenanceWritten;
    added := Tree(SatAdd(made.bytes, if provenanceOk then t.provenanceBytes else 0),
                  SatAdd(made.files, if provenanceOk then 1 else 0));
    tripped, added := ChargeTarget(t, added, ledger);
  }

  /** Charging what a target wrote, with the internal check, and then its child reports. */
  method ChargeTarget(t: Target, written: Tree, ledger: Ledger) returns (tripped: bool, added: Tree)
    requires ledger.Within(ARTIFACT_BYTES, ARTIFACT_FILES)
    modifies ledger
    ensures tripped <==> old(ledger.bytes) + written.bytes > ARTIFACT_BYTES || old(ledger.files) + written.files > ARTIFACT_FILES
    ensures !tripped ==> ledger.Within(ARTIFACT_BYTES, ARTIFACT_FILES)
    ensures !tripped ==> ledger.bytes == old(ledger.bytes) + added.bytes && ledger.files == old(ledger.files) + added.files
    ensures !tripped ==>
              var m := Run(t.root, t.child, Caps(ARTIFACT_BYTES, ARTIFACT_FILES), t.graph, old(ledger.bytes) + written.bytes,
                           old(ledger.files) + written.files, Candidates(t.children));
              ledger.bytes == m.bytes && ledger.files == m.files
  {
    hide Run, Candidates, ReportBytes, ReportFiles;
    added := written;
    ledger.Charge(added.bytes, added.files);
    if !ledger.Within(ARTIFACT_BYTES, ARTIFACT_FILES) { return true, added; }
    var beforeBytes, beforeFiles := ledger.bytes, ledger.files;
    var g := AnalyzeSelectedBounded(t.root, t.graph, t.children, t.child, ledger, Caps(ARTIFACT_BYTES, ARTIFACT_FILES));
    added := Tree(SatAdd(added.bytes, ledger.bytes - beforeBytes), SatAdd(added.files, ledger.files - beforeFiles));
    return false, added;
  }

  /** An extractor that honours its allowance never overdraws the account. */
  lemma HonestNeverOverdraws(t: Target, coreBytes: u64, coreFiles: u64, bytes: nat, files: nat)
    requires Honest(t) && bytes <= 0x400_0000 && files <= 512
    ensures !Overdrawn(t, coreBytes, coreFiles, bytes, files)
  {
  }

  /** One target changes the output of its own candidate only, by what it adds to the totals. */
  ghost predicate TargetStep(t: Target, coreBytes: u64, coreFiles: u64, a: seq<Output>, b: seq<Output>) {
    |a| == |b| && t.input < |a| && (forall i :: 0 <= i < |a| && i != t.input ==> b[i] == a[i]) &&
    TotalBytes(a) <= 0x400_0000 && TotalFiles(a) <= 512 &&
    if t.resolved then
      b[t.input].deferred == a[t.input].deferred &&
      Adds(t, coreBytes, coreFiles, TotalBytes(a), TotalFiles(a), TotalBytes(b), TotalFiles(b))
    else b == a
  }

  /** The outputs before and after every target that was taken, the first eight of them. */
  ghost predicate TargetSteps(targets: seq<Target>, coreBytes: u64, coreFiles: u64, history: seq<seq<Output>>) {
    |history| == Min(|targets|, 8) + 1 &&
    forall k :: 0 <= k < |history| - 1 ==> TargetStep(targets[k], coreBytes, coreFiles, history[k], history[k + 1])
  }

  lemma {:induction false} TotalsUpdate(outs: seq<Output>, i: nat, out: Output)
    requires i < |outs|
    ensures TotalBytes(outs[i := out]) == TotalBytes(outs) - outs[i].bytes + out.bytes
    ensures TotalFiles(outs[i := out]) == TotalFiles(outs) - outs[i].files + out.files
    ensures outs[i].bytes <= TotalBytes(outs) && outs[i].files <= TotalFiles(outs)
    decreases |outs|
  {
    var n := |outs| - 1;
    if i == n {
      assert outs[i := out][..n] == outs[..n];
    } else {
      assert outs[i := out][..n] == outs[..n][i := out];
      TotalsUpdate(outs[..n], i, out);
    }
  }

  /** The phase after relationships: the hard cap holds, the totals stay exact, the first eight targets take effect in
      order and no other, and with honest extractors the internal check never trips. */
  method RelationshipPhase(targets: seq<Target>, outs0: seq<Output>, coreBytes: u64, coreFiles: u64, ledger: Ledger)
    returns (tripped: bool, outs: seq<Output>, ghost history: seq<seq<Output>>)
    requires ledger.Within(ARTIFACT_BYTES, ARTIFACT_FILES)
    requires ledger.bytes == TotalBytes(outs0) && ledger.files == TotalFiles(outs0)
    requires forall t :: t in targets ==> t.input < |outs0|
    modifies ledger
    ensures (forall t :: t in targets ==> Honest(t)) ==> !tripped
    ensures !tripped ==> ledger.Within(ARTIFACT_BYTES, ARTIFACT_FILES)
    ensures !tripped ==> |outs| == |outs0| && ledger.bytes == TotalBytes(outs) && ledger.files == TotalFiles(outs)
    ensures !tripped ==> forall i :: 0 <= i < |outs| ==> outs0[i].bytes <= outs[i].bytes && outs0[i].files <= outs[i].files
    ensures !tripped ==> TargetSteps(targets, coreBytes, coreFiles, history) && history[0] == outs0 && history[|history| - 1] == outs
  {
    hide Adds, Overdrawn, TotalBytes, TotalFiles, Honest;
    outs, tripped, history := outs0, false, [outs0];
    var k := 0;
    while k < |targets| && k < MAX_TARGETS
      invariant k <= |targets| && k <= MAX_TARGETS && !tripped && |outs| == |outs0|
      invariant ledger.Within(ARTIFACT_BYTES, ARTIFACT_FILES)
      invariant ledger.bytes == TotalBytes(outs) && ledger.files == TotalFiles(outs)
      invariant forall i :: 0 <= i < |outs| ==> outs0[i].bytes <= outs[i].bytes && outs0[i].files <= outs[i].files
      invariant |history| == k + 1 && history[0] == outs0 && history[k] == outs
      invariant forall j :: 0 <= j < k ==> TargetStep(targets[j], coreBytes, coreFiles, history[j], history[j + 1])
    {
      var t := targets[k];
      ghost var before := outs;
      if t.resolved {
        if Honest(t) { HonestNeverOverdraws(t, coreBytes, coreFiles, ledger.bytes, ledger.files); }
        var added;
        tripped, added := MaterializeTarget(t, coreBytes, coreFiles, ledger);
        if tripped { return; }
        var o := outs[t.input];
        TotalsUpdate(outs, t.input, o);
        var grown := o.(bytes := SatAdd(o.bytes, added.bytes), files := SatAdd(o.files, added.files));
        TotalsUpdate(outs, t.input, grown);
        outs := outs[t.input := grown];
      }
      assert TargetStep(t, coreBytes, coreFiles, before, outs);
      history := history + [outs];
      k := k + 1;
    }
  }

  /** A whole bounded run: 56 MiB and 384 files after phase one, 64 MiB and 512 files at the end, and both totals are
      the sums over the candidates throughout. Every target is one of the candidates. `early` is what phase one left,
      `history` what each target made of it. */
  method DirectoryRun(n: nat, world: InputWorld, extractBytes: u64, extractFiles: u64, targets: seq<Target>,
                      coreBytes: u64, coreFiles: u64)
    returns (ok: bool, tripped: bool, outs: seq<Output>, bytes: u64, files: u64, ghost early: seq<Output>,
             ghost history: seq<seq<Output>>)
    requires forall t :: t in targets ==> t.input < n
    ensures (forall t :: t in targets ==> Honest(t)) ==> !tripped
    ensures !tripped ==> bytes == TotalBytes(outs) <= 0x400_0000 && files == TotalFiles(outs) <= 512
    ensures AllSettled(world, extractBytes, extractFiles, early)
    ensures TotalBytes(early) <= 0x380_0000 && TotalFiles(early) <= 384
    ensures !ok ==> outs == early && !tripped && |outs| < n && world.readable(|outs|) &&
                    FateOf(|outs|, world, extractBytes, extractFiles, bytes, files) == Broken
    ensures ok ==> |early| == n
    ensures ok && !tripped ==>
              |outs| == n && TargetSteps(targets, coreBytes, coreFiles, history) &&
              history[0] == early && history[|history| - 1] == outs
  {
    hide TargetSteps, AllSettled, FateOf;
    var ledger := new Ledger();
    tripped, history := false, [];
    ok, outs := CandidatePhase(n, world, extractBytes, extractFiles, ledger);
    early := outs;
    if ok {
      tripped, outs, history := RelationshipPhase(targets, outs, coreBytes, coreFiles, ledger);
    }
    bytes, files := ledger.bytes, ledger.files;
  }
}
