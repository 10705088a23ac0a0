/** Scanning a DWARF expression for vendor opcodes (src/core/dwarf_expression_surface.cpp:106-135). */
module ExprScan {
  import opened Common
  import opened Bits
  import opened Leb128

  const MAX_EXPR: int := 4096

  /** Operand layouts: fixed bytes, one LEB128 group, a LEB128 length with that many bytes, a length byte with that many bytes. */
  datatype Operand = Fixed(n: nat) | Leb | Block | Sized

  function Plain(op: u8): bool {
    0x30 <= op <= 0x6F || op == 0x06 || 0x12 <= op <= 0x14 || 0x16 <= op <= 0x22 || 0x24 <= op <= 0x27 ||
    0x29 <= op <= 0x2E || op == 0x96 || op == 0x97 || op == 0x9B || op == 0x9C || op == 0x9F
  }

  /** The operation table; None is an opcode that the scanner does not know. */
  function Layout(op: u8, addrSize: u8): Option<seq<Operand>> {
    if Plain(op) then Some([])
    else if 0x70 <= op <= 0x8F then Some([Leb])
    else if op == 0x03 then Some([Fixed(addrSize)])
    else if op in {0x08, 0x09, 0x15, 0x94, 0x95} then Some([Fixed(1)])
    else if op in {0x0A, 0x0B, 0x28, 0x2F, 0x98} then Some([Fixed(2)])
    else if op in {0x0C, 0x0D, 0x99, 0x9A} then Some([Fixed(4)])
    else if op in {0x0E, 0x0F} then Some([Fixed(8)])
    else if op in {0x10, 0x11, 0x23, 0x90, 0x91, 0x93, 0xA1, 0xA2, 0xA8, 0xA9} then Some([Leb])
    else if op in {0x92, 0x9D, 0xA5} then Some([Leb, Leb])
    else if op in {0x9E, 0xA3} then Some([Block])
    else if op == 0xA0 then Some([Fixed(4), Leb])
    else if op == 0xA4 then Some([Leb, Sized])
    else if op in {0xA6, 0xA7} then Some([Fixed(1), Leb])
    else None
  }

  /** The bytes of one operand in an encoding. */
  ghost predicate EncodesOperand(k: Operand, s: seq<u8>) {
    match k
    case Fixed(n) => |s| == n
    case Leb => Group(s)
    case Block => exists m: nat :: m <= |s| && Group(s[..m]) && Unsigned(s[..m]) % U64_LIMIT == |s| - m <= 4096
    case Sized => s != [] && s[0] == |s| - 1
  }

  ghost predicate EncodesOperands(ks: seq<Operand>, s: seq<u8>)
    decreases |ks|
  {
    if ks == [] then s == []
    else exists m: nat :: m <= |s| && EncodesOperand(ks[0], s[..m]) && EncodesOperands(ks[1..], s[m..])
  }

  /** One standard operation: an opcode of the table with its operands. */
  ghost predicate Operation(s: seq<u8>, addrSize: u8) {
    s != [] && s[0] < 0xE0 && Layout(s[0], addrSize).Some? && EncodesOperands(Layout(s[0], addrSize).value, s[1..])
  }

  ghost predicate Operations(ops: seq<seq<u8>>, addrSize: u8) {
    forall i :: 0 <= i < |ops| ==> Operation(ops[i], addrSize)
  }

  ghost function Flat(ops: seq<seq<u8>>): seq<u8> {
    if ops == [] then [] else ops[0] + Flat(ops[1..])
  }

  /** A whole expression of standard operations. */
  ghost predicate Standard(s: seq<u8>, addrSize: u8) { exists ops :: Operations(ops, addrSize) && Flat(ops) == s }

  /** A vendor opcode right behind some standard operations, with anything after it. */
  ghost predicate VendorAt(s: seq<u8>, addrSize: u8, at: nat) {
    at < |s| && s[at] >= 0xE0 && Standard(s[..at], addrSize)
  }

  datatype Scan = Malformed | Parsed | Vendor(opcode: u8)

  /** How many bytes an operand takes at the front of s, if it is complete. */
  function Take(k: Operand, s: seq<u8>): (r: Option<nat>)
    ensures r.Some? ==> r.value <= |s|
  {
    match k
    case Fixed(n) => if n <= |s| then Some(n) else None
    case Leb => TakeLeb(s, 0)
    case Block =>
      (match TakeLeb(s, 0)
       case None => None
       case Some(m) =>
         var length := Unsigned(s[..m]) % U64_LIMIT;
         if length <= MAX_EXPR && length <= |s| - m then Some(m + length) else None)
    case Sized => if s != [] && s[0] <= |s| - 1 then Some(1 + s[0] as int) else None
  }

  function TakeLeb(s: seq<u8>, i: nat): (r: Option<nat>)
    requires i <= |s|
    ensures r.Some? ==> i < r.value <= |s|
    decreases |s| - i
  {
    if i == |s| || i >= MAX_GROUP then None
    else if s[i] < 128 then Some(i + 1)
    else TakeLeb(s, i + 1)
  }

  function TakeAll(ks: seq<Operand>, s: seq<u8>): (r: Option<nat>)
    ensures r.Some? ==> r.value <= |s|
    decreases |ks|
  {
    if ks == [] then Some(0)
    else match Take(ks[0], s)
      case None => None
      case Some(m) =>
        match TakeAll(ks[1..], s[m..])
        case None => None
        case Some(rest) => Some(m + rest)
  }

  /** Reading operation by operation. */
  function Read(s: seq<u8>, addrSize: u8): Scan
    decreases |s|
  {
    if s == [] then Parsed
    else if s[0] >= 0xE0 then Vendor(s[0])
    else match Layout(s[0], addrSize)
      case None => Malformed
      case Some(ks) =>
        match TakeAll(ks, s[1..])
        case None => Malformed
        case Some(m) => Read(s[1 + m..], addrSize)
  }

  lemma {:induction false} TakeLebMeaning(s: seq<u8>, i: nat, m: nat)
    requires i <= |s| && m <= |s| && forall k :: 0 <= k < i ==> s[k] >= 128
    ensures TakeLeb(s, i) == Some(m) <==> i < m && Group(s[..m])
    decreases |s| - i
  {
    if i < |s| && i < MAX_GROUP && s[i] >= 128 {
      TakeLebMeaning(s, i + 1, m);
      if m == i + 1 { assert s[..m][m - 1] == s[i]; }
    } else if i < m {
      assert s[..m][m - 1] == s[m - 1] && s[..m][i] == s[i];
    }
  }

  /** An operand is read exactly as it is encoded, whatever bytes follow it. */
  lemma TakeMeaning(k: Operand, s: seq<u8>, m: nat)
    requires m <= |s|
    ensures Take(k, s) == Some(m) <==> EncodesOperand(k, s[..m])
  {
    match k {
      case Fixed(n) =>
      case Leb => TakeLebMeaning(s, 0, m);
      case Sized =>
      case Block =>
        if n: nat :| n <= m && Group(s[..m][..n]) && Unsigned(s[..m][..n]) % U64_LIMIT == m - n <= 4096 {
          assert s[..m][..n] == s[..n];
          TakeLebMeaning(s, 0, n);
        }
        if Take(k, s) == Some(m) {
          var n := TakeLeb(s, 0).value;
          TakeLebMeaning(s, 0, n);
          assert s[..m][..n] == s[..n];
        }
    }
  }

  lemma {:induction false} TakeAllMeaning(ks: seq<Operand>, s: seq<u8>, m: nat)
    requires m <= |s|
    ensures TakeAll(ks, s) == Some(m) <==> EncodesOperands(ks, s[..m])
    decreases |ks|
  {
    hide Take, EncodesOperand;
    if ks != [] {
      if n: nat :| n <= m && EncodesOperand(ks[0], s[..m][..n]) && EncodesOperands(ks[1..], s[..m][n..]) {
        assert s[..m][..n] == s[..n] && s[..m][n..] == s[n..][..m - n];
        TakeMeaning(ks[0], s, n);
        TakeAllMeaning(ks[1..], s[n..], m - n);
      }
      if TakeAll(ks, s) == Some(m) {
        var n := Take(ks[0], s).value;
        assert s[..m][..n] == s[..n] && s[..m][n..] == s[n..][..m - n];
        TakeMeaning(ks[0], s, n);
        TakeAllMeaning(ks[1..], s[n..], m - n);
      }
    }
  }

  /** Reading one standard operation at the front continues right behind it. */
  lemma ReadOperation(op: seq<u8>, rest: seq<u8>, addrSize: u8)
    requires Operation(op, addrSize)
    ensures Read(op + rest, addrSize) == Read(rest, addrSize)
  {
    var s := op + rest;
    assert s[1..] == op[1..] + rest && s[1..][..|op| - 1] == op[1..];
    TakeAllMeaning(Layout(op[0], addrSize).value, s[1..], |op| - 1);
    assert s[1 + (|op| - 1)..] == rest;
  }

  lemma {:induction false} ReadOperations(ops: seq<seq<u8>>, rest: seq<u8>, addrSize: u8)
    requires Operations(ops, addrSize)
    ensures Read(Flat(ops) + rest, addrSize) == Read(rest, addrSize)
    decreases |ops|
  {
    hide Operation;
    if ops == [] {
      assert Flat(ops) + rest == rest;
    } else {
      assert Flat(ops) + rest == ops[0] + (Flat(ops[1..]) + rest);
      ReadOperation(ops[0], Flat(ops[1..]) + rest, addrSize);
      ReadOperations(ops[1..], rest, addrSize);
    }
  }

  /** What was read before the end or the vendor opcode is a list of standard operations. */
  lemma {:induction false} ReadPrefix(s: seq<u8>, addrSize: u8) returns (ops: seq<seq<u8>>)
    requires Read(s, addrSize) != Malformed
    ensures Operations(ops, addrSize) && Explains(ops, s, Read(s, addrSize))
    decreases |s|
  {
    if s == [] || s[0] >= 0xE0 {
      ops := [];
    } else {
      hide Read, Operation, Operations, Flat, Layout, TakeAll, Explains;
      var m := ReadStep(s, addrSize);
      FirstOperation(s, addrSize, m);
      var more := ReadPrefix(s[1 + m..], addrSize);
      ops := [s[..1 + m]] + more;
      ExplainsMore(s[..1 + m], more, s[1 + m..], Read(s, addrSize));
      assert s == s[..1 + m] + s[1 + m..];
    }
  }

  lemma ReadStep(s: seq<u8>, addrSize: u8) returns (m: nat)
    requires s != [] && s[0] < 0xE0 && Read(s, addrSize) != Malformed
    ensures m < |s| && Layout(s[0], addrSize).Some? && TakeAll(Layout(s[0], addrSize).value, s[1..]) == Some(m)
    ensures Read(s, addrSize) == Read(s[1 + m..], addrSize)
  {
    m := TakeAll(Layout(s[0], addrSize).value, s[1..]).value;
  }

  lemma FirstOperation(s: seq<u8>, addrSize: u8, m: nat)
    requires s != [] && s[0] < 0xE0 && Layout(s[0], addrSize).Some? && m < |s|
    requires TakeAll(Layout(s[0], addrSize).value, s[1..]) == Some(m)
    ensures Operation(s[..1 + m], addrSize)
  {
    hide Layout, TakeAll, EncodesOperands;
    TakeAllMeaning(Layout(s[0], addrSize).value, s[1..], m);
    assert s[..1 + m][1..] == s[1..][..m];
  }

  /** The operations are a prefix of s that ends where the reading ended. */
  ghost predicate Explains(ops: seq<seq<u8>>, s: seq<u8>, r: Scan) {
    Flat(ops) <= s && (r == Parsed ==> Flat(ops) == s) &&
    (r.Vendor? ==> |Flat(ops)| < |s| && s[|Flat(ops)|] == r.opcode >= 0xE0)
  }

  lemma ExplainsMore(op: seq<u8>, more: seq<seq<u8>>, rest: seq<u8>, r: Scan)
    requires Explains(more, rest, r)
    ensures Explains([op] + more, op + rest, r)
    ensures forall addrSize :: Operation(op, addrSize) && Operations(more, addrSize) ==> Operations([op] + more, addrSize)
  {
    hide Operation;
    assert ([op] + more)[1..] == more;
    assert Flat([op] + more) == op + Flat(more);
  }

  /** An expression is read to its end exactly when it is a list of operations of the table. */
  lemma ParsedIsStandard(s: seq<u8>, addrSize: u8)
    ensures Read(s, addrSize) == Parsed <==> Standard(s, addrSize)
  {
    hide Operation;
    if Read(s, addrSize) == Parsed { var ops := ReadPrefix(s, addrSize); }
    if ops :| Operations(ops, addrSize) && Flat(ops) == s {
      ReadOperations(ops, [], addrSize);
      assert Flat(ops) + [] == s;
    }
  }

  /** A vendor opcode is reported exactly when it stands at an operation boundary. */
  lemma VendorIsAtBoundary(s: seq<u8>, addrSize: u8, v: u8)
    ensures Read(s, addrSize) == Vendor(v) <==> exists at: nat :: VendorAt(s, addrSize, at) && s[at] == v
  {
    hide Operation, Read;
    if Read(s, addrSize) == Vendor(v) {
      var ops := ReadPrefix(s, addrSize);
      assert s[..|Flat(ops)|] == Flat(ops);
      assert VendorAt(s, addrSize, |Flat(ops)|);
    }
    if at: nat :| VendorAt(s, addrSize, at) && s[at] == v {
      var ops :| Operations(ops, addrSize) && Flat(ops) == s[..at];
      ReadOperations(ops, s[at..], addrSize);
      assert Flat(ops) + s[at..] == s;
      VendorFront(s[at..], addrSize);
    }
  }

  lemma VendorSummary(s: seq<u8>, addrSize: u8)
    ensures Read(s, addrSize).Vendor? <==> exists at: nat :: VendorAt(s, addrSize, at)
    ensures Read(s, addrSize).Vendor? ==> forall at: nat :: VendorAt(s, addrSize, at) ==> s[at] == Read(s, addrSize).opcode
  {
    hide Read;
    if Read(s, addrSize).Vendor? { VendorIsAtBoundary(s, addrSize, Read(s, addrSize).opcode); }
    forall at: nat | VendorAt(s, addrSize, at) ensures Read(s, addrSize) == Vendor(s[at]) {
      VendorIsAtBoundary(s, addrSize, s[at]);
    }
  }

  lemma VendorFront(s: seq<u8>, addrSize: u8)
    requires s != [] && s[0] >= 0xE0
    ensures Read(s, addrSize) == Vendor(s[0])
  {
  }

  /** The cursor loop that passes over one LEB128 group. */
  method SkipLeb(p: seq<u8>, o: nat) returns (ok: bool, next: nat)
    requires o <= |p|
    ensures ok ==> TakeLeb(p[o..], 0) == Some(next - o) && o <= next <= |p|
    ensures !ok ==> TakeLeb(p[o..], 0) == None
  {
    var i := 0;
    next := o;
    while i < MAX_GROUP && next < |p|
      invariant next == o + i <= |p| && i <= MAX_GROUP
      invariant TakeLeb(p[o..], 0) == TakeLeb(p[o..], i)
    {
      var b := p[next];
      next := next + 1;
      if b < 128 { return true, next; }
      i := i + 1;
    }
    return false, next;
  }

  /** One operand at the cursor. */
  method SkipOperand(k: Operand, p: seq<u8>, o: nat) returns (ok: bool, next: nat)
    requires o <= |p|
    ensures ok ==> Take(k, p[o..]) == Some(next - o) && o <= next <= |p|
    ensures !ok ==> Take(k, p[o..]) == None
  {
    next := o;
    match k {
      case Fixed(n) =>
        ok := n <= |p| - o;
        if ok { next := o + n; }
      case Leb =>
        ok, next := SkipLeb(p, o);
      case Block =>
        ok, next := SkipLeb(p, o);
        if ok {
          TakeLebMeaning(p[o..], 0, next - o);
          assert p[o..][..next - o] == p[o..next];
          var length := BlockLength(p[o..next]);
          ok := length <= MAX_EXPR && length <= |p| - next;
          if ok { next := next + length; }
        }
      case Sized =>
        ok := o < |p| && p[o] <= |p| - o - 1;
        if ok { next := o + 1 + p[o] as int; }
    }
  }

  /** The second pass over a length group, which accumulates its 64 bits. */
  method BlockLength(group: seq<u8>) returns (length: u64)
    requires Group(group)
    ensures length == Unsigned(group) % U64_LIMIT
  {
    length := 0;
    for i := 0 to |group|
      invariant length == Unsigned(group[..i]) % U64_LIMIT
    {
      hide Unsigned, Shifted, Or;
      AccumulateStep(group[..i], group[i], length);
      assert group[..i + 1] == group[..i] + [group[i]];
      length := Or(length, Shifted(group[i] % 128, i));
    }
    assert group[..|group|] == group;
  }

  /** The scanner. It keeps operation boundaries: operand bytes are never taken for opcodes. */
  method ScanExpr(p: seq<u8>, addrSize: u8) returns (r: Scan)
    ensures r == Parsed <==> 0 < |p| <= 4096 && Standard(p, addrSize)
    ensures r.Vendor? <==> 0 < |p| <= 4096 && exists at: nat :: VendorAt(p, addrSize, at)
    ensures r.Vendor? ==> forall at: nat :: VendorAt(p, addrSize, at) ==> p[at] == r.opcode
  {
    if |p| == 0 || |p| > MAX_EXPR { return Malformed; }
    hide Read, Standard, VendorAt;
    ParsedIsStandard(p, addrSize);
    VendorSummary(p, addrSize);
    r := ScanBytes(p, addrSize);
  }

  /** The main loop. */
  method ScanBytes(p: seq<u8>, addrSize: u8) returns (r: Scan)
    ensures r == Read(p, addrSize)
  {
    var o := 0;
    assert p[0..] == p;
    while o < |p|
      invariant o <= |p| && Read(p, addrSize) == Read(p[o..], addrSize)
      decreases |p| - o
    {
      ghost var start := o;
      var op := p[o];
      o := o + 1;
      if op >= 0xE0 { return Vendor(op); }
      var layout := Layout(op, addrSize);
      if layout.None? { return Malformed; }
      assert p[start..][1..] == p[o..];
      var ok, next := SkipOperands(layout.value, p, o);
      if !ok { return Malformed; }
      assert p[start..][1 + (next - o)..] == p[next..];
      o := next;
    }
    return Parsed;
  }

  /** The operands of one operation, in order. */
  method SkipOperands(ks: seq<Operand>, p: seq<u8>, o: nat) returns (ok: bool, next: nat)
    requires o <= |p|
    ensures ok ==> TakeAll(ks, p[o..]) == Some(next - o) && o <= next <= |p|
    ensures !ok ==> TakeAll(ks, p[o..]) == None
  {
    next := o;
    assert ks[0..] == ks && ks[|ks|..] == [];
    for i := 0 to |ks|
      invariant o <= next <= |p|
      invariant TakeAll(ks, p[o..]) == More(next - o, TakeAll(ks[i..], p[next..]))
    {
      hide Take, TakeAll, More;
      ghost var before := next;
      ok, next := SkipOperand(ks[i], p, next);
      OperandSkipped(ks, p, o, before, i, ok, next);
      if !ok { return false, next; }
    }
    return true, next;
  }

  lemma OperandSkipped(ks: seq<Operand>, p: seq<u8>, o: nat, at: nat, i: nat, ok: bool, next: nat)
    requires i < |ks| && o <= at <= |p| && TakeAll(ks, p[o..]) == More(at - o, TakeAll(ks[i..], p[at..]))
    requires ok ==> at <= next <= |p| && Take(ks[i], p[at..]) == Some(next - at)
    requires !ok ==> Take(ks[i], p[at..]) == None
    ensures ok ==> TakeAll(ks, p[o..]) == More(next - o, TakeAll(ks[i + 1..], p[next..]))
    ensures !ok ==> TakeAll(ks, p[o..]) == None
  {
    hide Take, TakeAll, More;
    TakeAllStep(ks[i..], p[at..]);
    assert ks[i..][1..] == ks[i + 1..];
    MoreMore(at - o, 0, None);
    if ok {
      MoreMore(at - o, next - at, TakeAll(ks[i + 1..], p[next..]));
      assert p[at..][next - at..] == p[next..];
    }
  }

  lemma MoreMore(a: nat, b: nat, r: Option<nat>)
    ensures More(a, None) == None && More(a, More(b, r)) == More(a + b, r)
  {
  }

  lemma TakeAllStep(ks: seq<Operand>, s: seq<u8>)
    requires ks != []
    ensures TakeAll(ks, s) == match Take(ks[0], s) case None => None case Some(m) => More(m, TakeAll(ks[1..], s[m..]))
  {
  }

  function More(n: nat, r: Option<nat>): Option<nat> {
    match r
    case None => None
    case Some(m) => Some(n + m)
  }
}
