/** The records of a line program in bytes, and what the verdict of the walk says of them
    (src/core/dwarf_expression_surface.cpp:168-181; section 6.2.5 of DWARF 4). */
module LineRecords {
  import opened Common
  import opened Leb128
  import opened ByteNumbers
  import opened ExprScan
  import opened LineProgram
  import OperationTable

  // The forms of a record.

  /** A special opcode stands alone. */
  lemma SpecialRecord(op: u8, s: seq<u8>, h: Shape)
    requires ShapeOk(h) && op >= h.opBase
    ensures Record([op] + s, h) <==> s == []
  {
    assert ([op] + s)[1..] == s;
  }

  /** DW_LNS_fixed_advance_pc has two bytes, whatever the header says. */
  lemma FixedAdvanceRecord(s: seq<u8>, h: Shape)
    requires ShapeOk(h) && h.opBase > 9
    ensures Record([9] + s, h) <==> |s| == 2
  {
    assert ([9] + s)[1..] == s;
    OperationTable.OneOperand(Fixed(2), s);
  }

  ghost predicate Groups(gs: seq<seq<u8>>) { forall i :: 0 <= i < |gs| ==> Group(gs[i]) }

  /** Any other standard opcode has as many groups as the header says. */
  lemma StandardRecord(op: u8, s: seq<u8>, h: Shape)
    requires ShapeOk(h) && 0 < op < h.opBase && op != 9
    ensures Record([op] + s, h) <==> exists gs :: |gs| == h.argc[op] && Groups(gs) && Flat(gs) == s
  {
    assert ([op] + s)[1..] == s;
    LebsAreGroups(seq(h.argc[op], _ => Leb), s);
  }

  lemma LebsAreGroups(ks: seq<Operand>, s: seq<u8>)
    requires forall i :: 0 <= i < |ks| ==> ks[i] == Leb
    ensures EncodesOperands(ks, s) <==> exists gs :: |gs| == |ks| && Groups(gs) && Flat(gs) == s
  {
    hide EncodesOperands, Groups, Flat;
    if EncodesOperands(ks, s) { var gs := CutGroups(ks, s); }
    if gs :| |gs| == |ks| && Groups(gs) && Flat(gs) == s { JoinGroups(ks, gs); }
  }

  lemma {:induction false} CutGroups(ks: seq<Operand>, s: seq<u8>) returns (gs: seq<seq<u8>>)
    requires (forall i :: 0 <= i < |ks| ==> ks[i] == Leb) && EncodesOperands(ks, s)
    ensures |gs| == |ks| && Groups(gs) && Flat(gs) == s
    decreases |ks|
  {
    hide Group;
    gs := [];
    if ks != [] {
      var m := FirstGroup(ks, s);
      var more := CutGroups(ks[1..], s[m..]);
      gs := [s[..m]] + more;
      assert gs[1..] == more && s[..m] + s[m..] == s;
    }
  }

  lemma {:induction false} JoinGroups(ks: seq<Operand>, gs: seq<seq<u8>>)
    requires (forall i :: 0 <= i < |ks| ==> ks[i] == Leb) && |gs| == |ks| && Groups(gs)
    ensures EncodesOperands(ks, Flat(gs))
    decreases |ks|
  {
    hide Group;
    if ks != [] {
      JoinGroups(ks[1..], gs[1..]);
      OperationTable.OperandFront(Leb, ks[1..], gs[0], Flat(gs[1..]));
      assert [Leb] + ks[1..] == ks;
    }
  }

  lemma FirstGroup(ks: seq<Operand>, s: seq<u8>) returns (m: nat)
    requires ks != [] && ks[0] == Leb && EncodesOperands(ks, s)
    ensures m <= |s| && Group(s[..m]) && EncodesOperands(ks[1..], s[m..])
  {
    m :| m <= |s| && EncodesOperand(ks[0], s[..m]) && EncodesOperands(ks[1..], s[m..]);
  }

  /** Behind a zero byte and a length group come that many bytes, at least one. */
  lemma ExtendedRecord(length: seq<u8>, payload: seq<u8>, h: Shape)
    requires ShapeOk(h) && Group(length)
    ensures Record([0] + length + payload, h) <==> payload != [] && |payload| == Unsigned(length) % U64_LIMIT
  {
    hide Unsigned, Group;
    var t := length + payload;
    assert ([0] + length + payload)[1..] == t && t[..|length|] == length;
    forall m: nat | m <= |t| && Group(t[..m]) ensures m == |length| { OperationTable.SameGroup(t, m, |length|); }
    assert |payload| == Unsigned(length) % U64_LIMIT && payload != [] ==> ExtendedAt(t, |length|);
  }

  // What the records hold.

  ghost predicate Extends(r: seq<u8>, payload: seq<u8>) {
    exists length :: Group(length) && r == [0] + length + payload
  }

  ghost predicate EndsSequence(r: seq<u8>) { exists p :: Extends(r, p) && p != [] && p[0] == 1 }

  ghost predicate SetsAddress(r: seq<u8>, addrSize: nat, exec: nat -> bool) {
    exists p :: Extends(r, p) && |p| >= 1 + addrSize && p[0] == 2 && exec(Number(p[1..1 + addrSize], true))
  }

  ghost predicate VendorRecord(r: seq<u8>, op: u8) { op > 4 && exists p :: Extends(r, p) && p != [] && p[0] == op }

  lemma PayloadIs(r: seq<u8>, p: seq<u8>)
    requires Extends(r, p)
    ensures r != [] && r[0] == 0 && Payload(r) == p
  {
    hide TakeLeb;
    var length :| Group(length) && r == [0] + length + p;
    assert r[1..] == length + p && r[1..][..|length|] == length;
    TakeLebMeaning(r[1..], 0, |length|);
    assert r[1 + |length|..] == p;
  }

  lemma RecordExtends(r: seq<u8>, h: Shape)
    requires ShapeOk(h) && Record(r, h) && r[0] == 0
    ensures Extends(r, Payload(r)) && Payload(r) != []
  {
    hide Unsigned, TakeLeb;
    var m: nat :| ExtendedAt(r[1..], m);
    TakeLebMeaning(r[1..], 0, m);
    var length := r[1..][..m];
    assert r == [0] + length + r[1 + m..];
    assert Group(length);
  }

  ghost predicate IsVendor(r: seq<u8>) { exists p :: Extends(r, p) && p != [] && p[0] > 4 }

  /** The vendor records of a program, in order. */
  ghost function Vendors(rs: seq<seq<u8>>): seq<seq<u8>> {
    if rs == [] then []
    else Vendors(rs[..|rs| - 1]) + if IsVendor(rs[|rs| - 1]) then [rs[|rs| - 1]] else []
  }

  /** What one record adds. */
  lemma ObservedMeans(t: Tally, r: seq<u8>, h: Shape, exec: nat -> bool)
    requires ShapeOk(h) && Record(r, h)
    ensures var u := Observe(t, r, h.addrSize, exec);
            (u.endSequence <==> t.endSequence || EndsSequence(r)) &&
            (u.execAddress <==> t.execAddress || SetsAddress(r, h.addrSize, exec)) &&
            (forall op :: op in u.vendorOps <==> op in t.vendorOps || VendorRecord(r, op)) &&
            (if IsVendor(r) then u.vendorCount == t.vendorCount + 1 && u.vendorBytes == t.vendorBytes + |r|
             else u.vendorCount == t.vendorCount && u.vendorBytes == t.vendorBytes)
  {
    hide Payload, Extends, Record, Number;
    NotEmpty(r, h);
    forall p | Extends(r, p) ensures r[0] == 0 && Payload(r) == p { PayloadIs(r, p); }
    if r[0] == 0 {
      RecordExtends(r, h);
    }
  }

  lemma {:induction false} FlatAppends(rs: seq<seq<u8>>, r: seq<u8>)
    ensures Flat(rs + [r]) == Flat(rs) + r
  {
    if rs == [] {
      assert rs + [r] == [r] && [r][1..] == [];
    } else {
      FlatAppends(rs[1..], r);
      assert (rs + [r])[1..] == rs[1..] + [r];
    }
  }

  /** The tally says what the records hold. */
  lemma {:induction false} TallyMeans(rs: seq<seq<u8>>, h: Shape, exec: nat -> bool)
    requires ShapeOk(h) && Records(rs, h)
    ensures var t := Tallied(rs, h.addrSize, exec);
            (t.endSequence <==> exists r :: r in rs && EndsSequence(r)) &&
            (t.execAddress <==> exists r :: r in rs && SetsAddress(r, h.addrSize, exec)) &&
            (forall op :: op in t.vendorOps <==> exists r :: r in rs && VendorRecord(r, op)) &&
            t.vendorCount == |Vendors(rs)| && t.vendorBytes == |Flat(Vendors(rs))|
  {
    hide Record, Observe, EndsSequence, SetsAddress, VendorRecord, IsVendor, Flat;
    if rs == [] {
      assert Flat([]) == [] by { NothingFlat(); }
    } else {
      var before, last := rs[..|rs| - 1], rs[|rs| - 1];
      TallyMeans(before, h, exec);
      ObservedMeans(Tallied(before, h.addrSize, exec), last, h, exec);
      FlatAppends(Vendors(before), last);
      assert Vendors(before) + [] == Vendors(before);
      assert forall r :: r in rs <==> r in before || r == last;
    }
  }

  lemma NothingFlat()
    ensures Flat([]) == []
  {
  }

  /** For every program cut into records: it is malformed exactly when there are too many, and otherwise a candidate
      exactly when it closes a sequence, sets an executable address and has enough vendor records and bytes. */
  lemma CandidateExactlyWhen(p: seq<u8>, h: Shape, exec: nat -> bool, rs: seq<seq<u8>>)
    requires ShapeOk(h) && Records(rs, h) && Flat(rs) == p
    ensures Walked(p, h, exec) == Broken <==> |rs| > 65536
    ensures Walked(p, h, exec).Candidate? <==>
            |rs| <= 65536 && (exists r :: r in rs && EndsSequence(r)) &&
            (exists r :: r in rs && SetsAddress(r, h.addrSize, exec)) && |Vendors(rs)| >= 4 && |Flat(Vendors(rs))| >= 16
  {
    hide Records, Flat, Tallied, Walked, EndsSequence, SetsAddress, Vendors;
    TallyMeans(rs, h, exec);
    WalkKeepsRecords(p, h, exec);
  }
}
