/** The operation table of the scanner in bytes: what follows each opcode (section 7.7.1 of DWARF 5). */
module OperationTable {
  import opened Common
  import opened Leb128
  import opened ExprScan

  /** DW_OP_deref, dup to over, swap to plus, shl to xor, eq to ne, the literals and registers, nop,
      push_object_address, form_tls_address, call_frame_cfa and stack_value stand alone. */
  lemma AloneOpcodes(op: u8, s: seq<u8>, addrSize: u8)
    requires op == 0x06 || op in {0x12, 0x13, 0x14} || op in {0x16, 0x17, 0x18, 0x19, 0x1A, 0x1B, 0x1C, 0x1D, 0x1E, 0x1F, 0x20, 0x21, 0x22} ||
             op in {0x24, 0x25, 0x26, 0x27} || op in {0x29, 0x2A, 0x2B, 0x2C, 0x2D, 0x2E} || 0x30 <= op < 0x70 ||
             op in {0x96, 0x97, 0x9B, 0x9C, 0x9F}
    ensures Operation([op] + s, addrSize) <==> s == []
  {
    assert ([op] + s)[1..] == s;
  }

  /** DW_OP_addr is followed by an address. */
  lemma AddressOpcode(s: seq<u8>, addrSize: u8)
    ensures Operation([0x03] + s, addrSize) <==> |s| == addrSize
  {
    assert ([0x03] + s)[1..] == s;
    OneOperand(Fixed(addrSize), s);
  }

  /** The constants of one, two, four and eight bytes, pick, deref_size, xderef_size, bra, skip and the calls. */
  lemma FixedOpcodes(op: u8, s: seq<u8>, addrSize: u8)
    ensures op in {0x08, 0x09, 0x15, 0x94, 0x95} ==> (Operation([op] + s, addrSize) <==> |s| == 1)
    ensures op in {0x0A, 0x0B, 0x28, 0x2F, 0x98} ==> (Operation([op] + s, addrSize) <==> |s| == 2)
    ensures op in {0x0C, 0x0D, 0x99, 0x9A} ==> (Operation([op] + s, addrSize) <==> |s| == 4)
    ensures op in {0x0E, 0x0F} ==> (Operation([op] + s, addrSize) <==> |s| == 8)
  {
    assert ([op] + s)[1..] == s;
    OneOperand(Fixed(1), s);
    OneOperand(Fixed(2), s);
    OneOperand(Fixed(4), s);
    OneOperand(Fixed(8), s);
  }

  /** constu, plus_uconst, regx, piece, addrx, constx, convert and reinterpret; consts, fbreg and the based registers:
      one LEB128 group. */
  lemma GroupOpcodes(op: u8, s: seq<u8>, addrSize: u8)
    requires op in {0x10, 0x23, 0x90, 0x93, 0xA1, 0xA2, 0xA8, 0xA9} || op in {0x11, 0x91} || 0x70 <= op < 0x90
    ensures Operation([op] + s, addrSize) <==> Group(s)
  {
    Opened(op, [Leb], s, addrSize);
    hide Layout, Operation, EncodesOperands;
    OneOperand(Leb, s);
  }

  /** bregx, bit_piece and regval_type: two groups. */
  lemma TwoGroupOpcodes(op: u8, a: seq<u8>, b: seq<u8>, addrSize: u8)
    requires op in {0x92, 0x9D, 0xA5} && Group(a)
    ensures Operation([op] + a + b, addrSize) <==> Group(b)
  {
    assert [Leb] + [Leb] == [Leb, Leb];
    Opened(op, [Leb] + [Leb], a + b, addrSize);
    hide Operation, EncodesOperands;
    assert [op] + a + b == [op] + (a + b);
    OperandFront(Leb, [Leb], a, b);
    OneOperand(Leb, b);
  }

  /** implicit_value and entry_value: a length group and that many bytes, at most 4096. */
  lemma BlockOpcodes(op: u8, length: seq<u8>, block: seq<u8>, addrSize: u8)
    requires op in {0x9E, 0xA3} && Group(length)
    ensures Operation([op] + length + block, addrSize) <==> Unsigned(length) % U64_LIMIT == |block| <= 4096
  {
    var s := length + block;
    Opened(op, [Block], s, addrSize);
    hide Layout, Operation, EncodesOperands, Unsigned, Group;
    assert [op] + length + block == [op] + s;
    OneOperand(Block, s);
    assert s[..|length|] == length;
    forall m: nat | m <= |s| && Group(s[..m]) ensures m == |length| { SameGroup(s, m, |length|); }
  }

  /** implicit_pointer: a section offset of four bytes and a group. */
  lemma PointerOpcode(offset: seq<u8>, s: seq<u8>, addrSize: u8)
    requires |offset| == 4
    ensures Operation([0xA0] + offset + s, addrSize) <==> Group(s)
  {
    assert [Fixed(4)] + [Leb] == [Fixed(4), Leb];
    Opened(0xA0, [Fixed(4)] + [Leb], offset + s, addrSize);
    hide Operation, EncodesOperands;
    assert [0xA0] + offset + s == [0xA0] + (offset + s);
    OperandFront(Fixed(4), [Leb], offset, s);
    OneOperand(Leb, s);
  }

  /** const_type: a type group, a size byte and that many bytes. */
  lemma TypedConstantOpcode(typ: seq<u8>, size: u8, s: seq<u8>, addrSize: u8)
    requires Group(typ)
    ensures Operation([0xA4] + typ + [size] + s, addrSize) <==> |s| == size
  {
    assert [Leb] + [Sized] == [Leb, Sized];
    Opened(0xA4, [Leb] + [Sized], typ + ([size] + s), addrSize);
    hide Operation, EncodesOperands;
    assert [0xA4] + typ + [size] + s == [0xA4] + (typ + ([size] + s));
    OperandFront(Leb, [Sized], typ, [size] + s);
    OneOperand(Sized, [size] + s);
  }

  /** deref_type and xderef_type: a size byte and a type group. */
  lemma TypedDerefOpcodes(op: u8, size: u8, typ: seq<u8>, addrSize: u8)
    requires op in {0xA6, 0xA7}
    ensures Operation([op] + [size] + typ, addrSize) <==> Group(typ)
  {
    assert [Fixed(1)] + [Leb] == [Fixed(1), Leb];
    Opened(op, [Fixed(1)] + [Leb], [size] + typ, addrSize);
    hide Operation, EncodesOperands;
    assert [op] + [size] + typ == [op] + ([size] + typ);
    OperandFront(Fixed(1), [Leb], [size], typ);
    OneOperand(Leb, typ);
  }

  /** The reserved opcodes below the vendor range, and an opcode without its operands, begin no operation. */
  lemma NoOperation(op: u8, addrSize: u8)
    requires op in {0x00, 0x01, 0x02, 0x04, 0x05, 0x07} || op >= 0xAA
    ensures forall s :: !Operation([op] + s, addrSize)
  {
  }

  /** The operands of an offset or register operation, whatever number they hold. */
  lemma SignedOperand(op: u8, n: int, addrSize: u8)
    requires (op in {0x11, 0x91} || 0x70 <= op < 0x90) && I64_MIN <= n <= I64_MAX
    ensures Operation([op] + EncodeSigned(n), addrSize)
  {
    hide Operation;
    PowersUpTo10();
    EncodedSigned(n, 9);
    GroupOpcodes(op, EncodeSigned(n), addrSize);
  }

  lemma UnsignedOperand(op: u8, n: u64, addrSize: u8)
    requires op in {0x10, 0x23, 0x90, 0x93, 0xA1, 0xA2, 0xA8, 0xA9}
    ensures Operation([op] + EncodeUnsigned(n), addrSize)
  {
    hide Operation;
    PowersUpTo10();
    EncodedUnsigned(n, 9);
    GroupOpcodes(op, EncodeUnsigned(n), addrSize);
  }

  // Operands.

  /** An operation is an opcode with the operands the scanner expects behind it. */
  lemma Opened(op: u8, ks: seq<Operand>, s: seq<u8>, addrSize: u8)
    requires op < 0xE0 && Layout(op, addrSize) == Some(ks)
    ensures Operation([op] + s, addrSize) <==> EncodesOperands(ks, s)
  {
    hide Layout, EncodesOperands;
    assert ([op] + s)[1..] == s;
  }

  lemma OneOperand(k: Operand, s: seq<u8>)
    ensures EncodesOperands([k], s) <==> EncodesOperand(k, s)
  {
    hide EncodesOperand;
    assert [k][1..] == [];
    assert s[..|s|] == s && s[|s|..] == [];
    if EncodesOperands([k], s) {
      var m: nat :| m <= |s| && EncodesOperand(k, s[..m]) && EncodesOperands([], s[m..]);
      assert m == |s|;
    }
    assert EncodesOperands([], s[|s|..]);
  }

  /** A first operand of known extent leaves the rest to the other operands. */
  lemma OperandFront(k: Operand, rest: seq<Operand>, a: seq<u8>, b: seq<u8>)
    requires EncodesOperand(k, a)
    ensures EncodesOperands([k] + rest, a + b) <==> EncodesOperands(rest, b)
  {
    hide EncodesOperand;
    var s := a + b;
    assert ([k] + rest)[1..] == rest && s[..|a|] == a && s[|a|..] == b;
    forall m: nat | m <= |s| && EncodesOperand(k, s[..m]) ensures m == |a| {
      TakeMeaning(k, s, m);
      TakeMeaning(k, s, |a|);
    }
  }

  lemma SameGroup(s: seq<u8>, m: nat, n: nat)
    requires m <= |s| && n <= |s| && Group(s[..m]) && Group(s[..n])
    ensures m == n
  {
    TakeLebMeaning(s, 0, m);
    TakeLebMeaning(s, 0, n);
  }
}
