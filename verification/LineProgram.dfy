/** The record walk over a DWARF line program (src/core/dwarf_expression_surface.cpp:165-182; DWARF 4, section 6.2.5). */
module LineProgram {
  import opened Common
  import opened Bits
  import opened ByteNumbers
  import opened Leb128
  import opened ExprScan

  const MAX_RECORDS := 65536

  /** From the header: the first special opcode, the operand counts below it, and the address width. */
  datatype Shape = Shape(opBase: nat, argc: seq<u8>, addrSize: nat)

  predicate ShapeOk(h: Shape) { 1 <= h.opBase < 256 && |h.argc| == h.opBase && (h.addrSize == 4 || h.addrSize == 8) }

  function RecordLayout(op: u8, h: Shape): seq<Operand>
    requires ShapeOk(h)
  {
    if op >= h.opBase then [] else if op == 9 then [Fixed(2)] else seq(h.argc[op], _ => Leb)
  }

  /** An extended record: a length group, then that many bytes, at least one. */
  ghost predicate Extended(t: seq<u8>) { exists m: nat :: ExtendedAt(t, m) }

  ghost predicate ExtendedAt(t: seq<u8>, m: nat) {
    m <= |t| && Group(t[..m]) && 1 <= Unsigned(t[..m]) % U64_LIMIT == |t| - m
  }

  /** One whole record. */
  ghost predicate Record(r: seq<u8>, h: Shape)
    requires ShapeOk(h)
  {
    r != [] && if r[0] == 0 then Extended(r[1..]) else EncodesOperands(RecordLayout(r[0], h), r[1..])
  }

  ghost predicate Records(rs: seq<seq<u8>>, h: Shape)
    requires ShapeOk(h)
  {
    forall i :: 0 <= i < |rs| ==> Record(rs[i], h)
  }

  /** What the walk collects. */
  datatype Tally = Tally(vendorCount: nat, vendorBytes: nat, vendorOps: set<u8>, endSequence: bool, execAddress: bool)

  const ZERO := Tally(0, 0, {}, false, false)

  /** A little-endian address. */
  function Address(s: seq<u8>): nat { Number(s, true) }

  /** The payload of an extended record. */
  function Payload(r: seq<u8>): (p: seq<u8>)
  {
    if r == [] then [] else match TakeLeb(r[1..], 0) case None => [] case Some(m) => r[1 + m..]
  }

  function Observe(t: Tally, r: seq<u8>, addrSize: nat, exec: nat -> bool): Tally {
    if r == [] || r[0] != 0 || Payload(r) == [] then t
    else
      var p := Payload(r);
      if p[0] == 1 then t.(endSequence := true)
      else if p[0] == 2 then
        if |p| >= 1 + addrSize then t.(execAddress := t.execAddress || exec(Address(p[1..1 + addrSize]))) else t
      else if p[0] > 4 then
        t.(vendorCount := t.vendorCount + 1, vendorBytes := t.vendorBytes + |r|, vendorOps := t.vendorOps + {p[0]})
      else t
  }

  function Tallied(rs: seq<seq<u8>>, addrSize: nat, exec: nat -> bool): Tally {
    if rs == [] then ZERO else Observe(Tallied(rs[..|rs| - 1], addrSize, exec), rs[|rs| - 1], addrSize, exec)
  }

  datatype Result = Broken | Nothing | Candidate(tally: Tally)

  /** A closed sequence with an executable address and enough vendor records. */
  function Judged(t: Tally): Result {
    if t.endSequence && t.execAddress && t.vendorCount >= 4 && t.vendorBytes >= 16 then Candidate(t) else Nothing
  }

  function TakeRecord(s: seq<u8>, h: Shape): (r: Option<nat>)
    requires ShapeOk(h) && s != []
    ensures r.Some? ==> 1 <= r.value <= |s|
  {
    match if s[0] == 0 then TakeExtended(s[1..]) else TakeAll(RecordLayout(s[0], h), s[1..])
    case None => None
    case Some(m) => Some(1 + m)
  }

  function TakeExtended(t: seq<u8>): (r: Option<nat>)
    ensures r.Some? ==> r.value <= |t|
  {
    match TakeLeb(t, 0)
    case None => None
    case Some(m) =>
      var n := Unsigned(t[..m]) % U64_LIMIT;
      if 1 <= n <= |t| - m then Some(m + n) else None
  }

  function Parse(s: seq<u8>, h: Shape): Option<seq<seq<u8>>>
    requires ShapeOk(h)
    decreases |s|
  {
    if s == [] then Some([])
    else
      match TakeRecord(s, h)
      case None => None
      case Some(k) => Before([s[..k]], Parse(s[k..], h))
  }

  function Before(rs: seq<seq<u8>>, rest: Option<seq<seq<u8>>>): Option<seq<seq<u8>>> {
    match rest
    case None => None
    case Some(more) => Some(rs + more)
  }

  lemma BeforeJoins(a: seq<seq<u8>>, b: seq<seq<u8>>, rest: Option<seq<seq<u8>>>)
    ensures Before([], rest) == rest && Before(a, Before(b, rest)) == Before(a + b, rest)
  {
    if rest.Some? {
      assert [] + rest.value == rest.value && a + (b + rest.value) == (a + b) + rest.value;
    }
  }

  lemma TakeExtendedMeaning(t: seq<u8>, k: nat)
    requires k <= |t|
    ensures TakeExtended(t) == Some(k) <==> Extended(t[..k])
  {
    hide Unsigned;
    if Extended(t[..k]) {
      var m: nat :| ExtendedAt(t[..k], m);
      assert t[..k][..m] == t[..m];
      TakeLebMeaning(t, 0, m);
    }
    if TakeExtended(t) == Some(k) {
      var m := TakeLeb(t, 0).value;
      TakeLebMeaning(t, 0, m);
      assert t[..k][..m] == t[..m];
      assert ExtendedAt(t[..k], m);
    }
  }

  /** A record is taken exactly as it is written, whatever follows it. */
  lemma TakeRecordMeaning(s: seq<u8>, h: Shape, k: nat)
    requires ShapeOk(h) && s != [] && k <= |s|
    ensures TakeRecord(s, h) == Some(k) <==> k >= 1 && Record(s[..k], h)
  {
    hide RecordLayout, TakeAll, EncodesOperands, TakeExtended, Extended;
    if k >= 1 {
      assert s[..k][1..] == s[1..][..k - 1];
      TakeExtendedMeaning(s[1..], k - 1);
      TakeAllMeaning(RecordLayout(s[0], h), s[1..], k - 1);
    }
  }

  /** The only way to cut a program into records is the one the walk finds. */
  lemma {:induction false} ParseMeaning(s: seq<u8>, h: Shape, rs: seq<seq<u8>>)
    requires ShapeOk(h)
    ensures Parse(s, h) == Some(rs) <==> Records(rs, h) && Flat(rs) == s
    decreases |s|
  {
    hide Record, TakeRecord;
    if s == [] {
      if rs != [] && Records(rs, h) { NotEmpty(rs[0], h); }
    } else if rs != [] {
      var k := |rs[0]|;
      if Records(rs, h) && Flat(rs) == s {
        NotEmpty(rs[0], h);
        assert s[..k] == rs[0] && s[k..] == Flat(rs[1..]);
        TakeRecordMeaning(s, h, k);
        ParseMeaning(s[k..], h, rs[1..]);
        assert [rs[0]] + rs[1..] == rs;
      }
      if Parse(s, h) == Some(rs) {
        TakeWithin(s, h);
        var n := TakeRecord(s, h).value;
        var more := Parse(s[n..], h).value;
        assert rs == [s[..n]] + more && rs[1..] == more;
        TakeRecordMeaning(s, h, n);
        ParseMeaning(s[n..], h, more);
        assert s[..n] + s[n..] == s;
      }
    } else if Parse(s, h).Some? {
      TakeWithin(s, h);
    }
  }

  lemma TakeWithin(s: seq<u8>, h: Shape)
    requires ShapeOk(h) && s != []
    ensures TakeRecord(s, h).Some? ==> 1 <= TakeRecord(s, h).value <= |s|
  {
  }

  lemma NotEmpty(r: seq<u8>, h: Shape)
    requires ShapeOk(h) && Record(r, h)
    ensures r != []
  {
  }

  function Walked(s: seq<u8>, h: Shape, exec: nat -> bool): Result
    requires ShapeOk(h)
  {
    match Parse(s, h)
    case None => Broken
    case Some(rs) => if |rs| > 65536 then Broken else Judged(Tallied(rs, h.addrSize, exec))
  }

  /** The address loop. */
  method ReadAddress(p: seq<u8>, o: nat, n: nat) returns (a: nat)
    requires o + n <= |p|
    ensures a == Address(p[o..o + n])
  {
    a := 0;
    for i := 0 to n
      invariant a == Address(p[o..o + i])
    {
      AddressGrows(p[o..o + i], p[o + i]);
      assert p[o..o + i + 1] == p[o..o + i] + [p[o + i]];
      a := Or(a, p[o + i] as int * Pow256(i));
    }
  }

  lemma AddressGrows(s: seq<u8>, b: u8)
    ensures Address(s + [b]) == Or(Address(s), b as int * Pow256(|s|))
  {
    hide Or;
    NumberAppend(s, b);
    NumberBound(s, true);
    ByteWeight(|s|);
    OrIsSum(Number(s, true), b, 8 * |s|);
  }

  /** The record at the cursor: where it ends, and the tally with it. */
  method TakeOne(p: seq<u8>, o: nat, h: Shape, exec: nat -> bool, t: Tally) returns (ok: bool, next: nat, t': Tally)
    requires ShapeOk(h) && o < |p|
    ensures ok ==> o < next <= |p| && TakeRecord(p[o..], h) == Some(next - o)
    ensures ok ==> t' == Observe(t, p[o..next], h.addrSize, exec)
    ensures !ok ==> TakeRecord(p[o..], h) == None
  {
    hide TakeExtended, TakeAll, RecordLayout, Payload, Address;
    var op := p[o];
    assert p[o..][1..] == p[o + 1..];
    if op == 0 {
      var payload;
      ok, payload, next := TakeExtendedAt(p, o + 1);
      t' := t;
      if ok { t' := ObserveExtended(p, o, payload, next, h, exec, t); }
    } else {
      t' := t;
      ok, next := SkipOperands(RecordLayout(op, h), p, o + 1);
    }
  }

  /** The length group and the payload of an extended record. */
  method TakeExtendedAt(p: seq<u8>, o: nat) returns (ok: bool, payload: nat, next: nat)
    requires o <= |p|
    ensures ok ==> o < payload < next <= |p| && TakeLeb(p[o..], 0) == Some(payload - o)
    ensures ok ==> TakeExtended(p[o..]) == Some(next - o)
    ensures !ok ==> TakeExtended(p[o..]) == None
  {
    hide Unsigned;
    ok, payload := SkipLeb(p, o);
    next := payload;
    if ok {
      TakeLebMeaning(p[o..], 0, payload - o);
      assert p[o..][..payload - o] == p[o..payload];
      var n := BlockLength(p[o..payload]);
      ok := 1 <= n <= |p| - payload;
      if ok { next := payload + n; }
    }
  }

  method ObserveExtended(p: seq<u8>, o: nat, payload: nat, next: nat, h: Shape, exec: nat -> bool, t: Tally)
    returns (t': Tally)
    requires ShapeOk(h) && o < payload < next <= |p| && p[o] == 0
    requires TakeLeb(p[o + 1..], 0) == Some(payload - (o + 1))
    ensures t' == Observe(t, p[o..next], h.addrSize, exec)
  {
    ghost var r, m := p[o..next], payload - (o + 1);
    TakeLebMeaning(p[o + 1..], 0, m);
    assert p[o + 1..][..m] == r[1..][..m];
    TakeLebMeaning(r[1..], 0, m);
    assert Payload(r) == p[payload..next];
    var ext := p[payload];
    t' := t;
    if ext == 1 {
      t' := t.(endSequence := true);
    } else if ext == 2 {
      if next - payload >= 1 + h.addrSize {
        var a := ReadAddress(p, payload + 1, h.addrSize);
        SliceOfSlice(p, payload, next, 1, 1 + h.addrSize);
        t' := t.(execAddress := t.execAddress || exec(a));
      }
    } else if ext > 4 {
      t' := t.(vendorCount := t.vendorCount + 1, vendorBytes := t.vendorBytes + (next - o), vendorOps := t.vendorOps + {ext});
    }
  }

  lemma SliceOfSlice(p: seq<u8>, from: nat, end: nat, i: nat, j: nat)
    requires from <= end <= |p| && i <= j <= end - from
    ensures p[from..end][i..j] == p[from + i..from + j]
  {
    var whole := p[from..end];
    assert forall k :: 0 <= k < j - i ==> whole[i..j][k] == whole[i + k] == p[from + i..from + j][k];
  }

  /** The walk, and the verdict on what it collected. */
  method WalkProgram(p: seq<u8>, h: Shape, exec: nat -> bool) returns (r: Result)
    requires ShapeOk(h)
    ensures r == Walked(p, h, exec)
  {
    hide Parse, Tallied, Before;
    TalliedNone(h.addrSize, exec);
    var o, records, t := 0, 0, ZERO;
    ghost var done: seq<seq<u8>> := [];
    WalkStarts(p, h);
    while o < |p| && records < MAX_RECORDS
      invariant o <= |p| && records == |done| <= MAX_RECORDS && t == Tallied(done, h.addrSize, exec)
      invariant Parse(p, h) == Before(done, Parse(p[o..], h))
      decreases |p| - o
    {
      hide Observe, TakeRecord;
      var ok, next, t' := TakeOne(p, o, h, exec, t);
      WalkGoesOn(p, h, o, done);
      if !ok { return Broken; }
      TalliedMore(done, p[o..next], h.addrSize, exec);
      done, o, records, t := done + [p[o..next]], next, records + 1, t';
    }
    WalkEnds(p, h, o, done);
    if o < |p| { return Broken; }
    if t.vendorCount == 0 { return Nothing; }
    if !t.endSequence || !t.execAddress || t.vendorCount < 4 || t.vendorBytes < 16 { return Nothing; }
    return Candidate(t);
  }

  lemma TalliedNone(addrSize: nat, exec: nat -> bool)
    ensures Tallied([], addrSize, exec) == ZERO
  {
  }

  lemma WalkStarts(p: seq<u8>, h: Shape)
    requires ShapeOk(h)
    ensures Parse(p, h) == Before([], Parse(p[0..], h))
  {
    assert p[0..] == p;
    BeforeJoins([], [], Parse(p, h));
  }

  lemma WalkGoesOn(p: seq<u8>, h: Shape, o: nat, done: seq<seq<u8>>)
    requires ShapeOk(h) && o < |p| && Parse(p, h) == Before(done, Parse(p[o..], h))
    ensures match TakeRecord(p[o..], h)
            case None => Parse(p, h) == None
            case Some(k) => o + k <= |p| && Parse(p, h) == Before(done + [p[o..o + k]], Parse(p[o + k..], h))
  {
    hide TakeRecord;
    TakeWithin(p[o..], h);
    match TakeRecord(p[o..], h) {
      case None =>
      case Some(k) =>
        assert p[o..][..k] == p[o..o + k] && p[o..][k..] == p[o + k..];
        BeforeJoins(done, [p[o..o + k]], Parse(p[o + k..], h));
    }
  }

  lemma WalkEnds(p: seq<u8>, h: Shape, o: nat, done: seq<seq<u8>>)
    requires ShapeOk(h) && o <= |p| && Parse(p, h) == Before(done, Parse(p[o..], h))
    ensures o == |p| ==> Parse(p, h) == Some(done)
    ensures o < |p| && Parse(p, h).Some? ==> |Parse(p, h).value| > |done|
  {
    assert done + [] == done;
    if o < |p| { MoreRecords(p[o..], h); }
  }

  lemma MoreRecords(s: seq<u8>, h: Shape)
    requires ShapeOk(h) && s != []
    ensures Parse(s, h).Some? ==> |Parse(s, h).value| >= 1
  {
  }

  /** The walk stays in step with the records: for every program made of at most 65536 records, however their operand
      bytes look, the verdict is the one on exactly those records; every other program is malformed. */
  lemma WalkKeepsRecords(p: seq<u8>, h: Shape, exec: nat -> bool)
    requires ShapeOk(h)
    ensures forall rs :: Records(rs, h) && Flat(rs) == p ==>
      Walked(p, h, exec) == if |rs| > 65536 then Broken else Judged(Tallied(rs, h.addrSize, exec))
    ensures Walked(p, h, exec) == Broken <==> !exists rs :: Records(rs, h) && Flat(rs) == p && |rs| <= 65536
  {
    hide Records, Flat, Parse, Tallied;
    forall rs ensures Parse(p, h) == Some(rs) <==> Records(rs, h) && Flat(rs) == p { ParseMeaning(p, h, rs); }
  }

  function Sum(x: Tally, y: Tally): Tally {
    Tally(x.vendorCount + y.vendorCount, x.vendorBytes + y.vendorBytes, x.vendorOps + y.vendorOps,
          x.endSequence || y.endSequence, x.execAddress || y.execAddress)
  }

  lemma ObserveAdds(x: Tally, y: Tally, r: seq<u8>, addrSize: nat, exec: nat -> bool)
    ensures Observe(Sum(x, y), r, addrSize, exec) == Sum(x, Observe(y, r, addrSize, exec))
  {
    hide Payload, Address;
    var p := Payload(r);
    if p != [] { assert x.vendorOps + y.vendorOps + {p[0]} == x.vendorOps + (y.vendorOps + {p[0]}); }
  }

  lemma NothingAdded(x: Tally, addrSize: nat, exec: nat -> bool)
    ensures Sum(x, Tallied([], addrSize, exec)) == x
  {
  }

  lemma TalliedMore(rs: seq<seq<u8>>, r: seq<u8>, addrSize: nat, exec: nat -> bool)
    ensures Tallied(rs + [r], addrSize, exec) == Observe(Tallied(rs, addrSize, exec), r, addrSize, exec)
  {
    assert (rs + [r])[..|rs|] == rs;
  }

  /** The tally is a sum over the records: what two stretches of a program hold adds up. */
  lemma {:induction false} TallyAdds(a: seq<seq<u8>>, b: seq<seq<u8>>, addrSize: nat, exec: nat -> bool)
    ensures Tallied(a + b, addrSize, exec) == Sum(Tallied(a, addrSize, exec), Tallied(b, addrSize, exec))
    decreases |b|
  {
    hide Observe, Tallied, Sum;
    if b == [] {
      assert a + b == a;
      NothingAdded(Tallied(a, addrSize, exec), addrSize, exec);
    } else {
      var shorter, last := b[..|b| - 1], b[|b| - 1];
      TallyAdds(a, shorter, addrSize, exec);
      assert b == shorter + [last] && a + b == (a + shorter) + [last];
      TalliedMore(shorter, last, addrSize, exec);
      TalliedMore(a + shorter, last, addrSize, exec);
      ObserveAdds(Tallied(a, addrSize, exec), Tallied(shorter, addrSize, exec), last, addrSize, exec);
    }
  }
}
