/** LEB128 decoding as in src/core/dwarf_expression_surface.cpp:40-41, against section 7.6 of DWARF 5. */
module Leb128 {
  import opened Common
  import opened Bits

  const MAX_GROUP: int := 10
  const I64_MIN: int := -0x8000_0000_0000_0000
  const I64_MAX: int := 0x7FFF_FFFF_FFFF_FFFF

  function Pow128(n: nat): (r: nat)
    ensures r >= 1
  {
    if n == 0 then 1 else 128 * Pow128(n - 1)
  }

  /** The unbounded number that a group of bytes stands for: seven bits a byte, low bits first. */
  function Unsigned(s: seq<u8>): (r: nat)
  {
    if s == [] then 0 else s[0] % 128 + 128 * Unsigned(s[1..])
  }

  /** The same bits as a two's complement number whose sign is the top payload bit. */
  function Signed(s: seq<u8>): int
    requires s != []
  {
    Unsigned(s) - (if s[|s| - 1] % 128 >= 64 then Pow128(|s|) else 0)
  }

  /** One group: the first byte without the continuation bit ends it, after at most ten bytes. */
  ghost predicate Group(s: seq<u8>) {
    0 < |s| <= 10 && s[|s| - 1] < 128 && forall k :: 0 <= k < |s| - 1 ==> s[k] >= 128
  }

  /** A group of n bytes begins at o and ends by `end`. */
  ghost predicate GroupAt(v: seq<u8>, o: nat, end: nat, n: nat) {
    o + n <= end <= |v| && Group(v[o..o + n])
  }

  lemma {:induction false} UnsignedAppend(s: seq<u8>, b: u8)
    ensures Unsigned(s + [b]) == Unsigned(s) + b % 128 * Pow128(|s|)
  {
    if s != [] {
      assert (s + [b])[1..] == s[1..] + [b];
      UnsignedAppend(s[1..], b);
      Distribute(s[0], Unsigned(s[1..]), b % 128, Pow128(|s| - 1));
    } else {
      assert [b][1..] == [];
    }
  }

  lemma Distribute(a: int, u: int, b: int, p: int)
    ensures a % 128 + 128 * (u + b * p) == (a % 128 + 128 * u) + b * (128 * p)
  {
  }

  lemma {:induction false} UnsignedBound(s: seq<u8>)
    ensures Unsigned(s) < Pow128(|s|)
  {
    if s != [] { UnsignedBound(s[1..]); }
  }

  lemma PowersUpTo10()
    ensures Pow128(0) == 1 && Pow128(1) == 128 && Pow128(2) == 0x4000 && Pow128(3) == 0x20_0000
    ensures Pow128(4) == 0x1000_0000 && Pow128(5) == 0x8_0000_0000 && Pow128(6) == 0x400_0000_0000
    ensures Pow128(7) == 0x2_0000_0000_0000 && Pow128(8) == 0x100_0000_0000_0000
    ensures Pow128(9) == 0x8000_0000_0000_0000 && Pow128(10) == 0x40_0000_0000_0000_0000
  {
    assert Pow128(2) == 128 * Pow128(1);
    assert Pow128(3) == 128 * Pow128(2);
    assert Pow128(4) == 128 * Pow128(3);
    assert Pow128(5) == 128 * Pow128(4);
    assert Pow128(6) == 128 * Pow128(5);
    assert Pow128(7) == 128 * Pow128(6);
    assert Pow128(8) == 128 * Pow128(7);
    assert Pow128(9) == 128 * Pow128(8);
    assert Pow128(10) == 128 * Pow128(9);
  }

  lemma {:induction false} PowerMonotone(m: nat, n: nat)
    requires m <= n
    ensures Pow128(m) <= Pow128(n)
    decreases n - m
  {
    if m < n { PowerMonotone(m + 1, n); }
  }

  /** A 64-bit left shift of seven payload bits by 7 * i. */
  function Shifted(bits: nat, i: nat): u64
    requires bits < 128
  {
    bits * Pow128(i) % U64_LIMIT
  }

  /** Or-ing in the shifted payload of one more byte: it meets no bit that is set, and the low 64 bits of the
      number are what has been accumulated. */
  lemma AccumulateStep(s: seq<u8>, b: u8, x: u64)
    requires |s| < MAX_GROUP && x == Unsigned(s) % U64_LIMIT
    ensures x + Shifted(b % 128, |s|) < U64_LIMIT
    ensures x + Shifted(b % 128, |s|) == Unsigned(s + [b]) % U64_LIMIT
    ensures Or(x, Shifted(b % 128, |s|)) == Unsigned(s + [b]) % U64_LIMIT
  {
    AccumulatedSum(s, b, x);
    ShiftedIsAbove(s, b, x);
  }

  lemma ShiftedIsAbove(s: seq<u8>, b: u8, x: u64)
    requires |s| < MAX_GROUP && x == Unsigned(s) % U64_LIMIT
    ensures Or(x, Shifted(b % 128, |s|)) == x + Shifted(b % 128, |s|)
  {
    hide Unsigned, Pow128, Or, Pow2, Shifted;
    UnsignedBound(s);
    PowersUpTo10();
    PowerMonotone(|s|, 9);
    PowerOfTwo(|s|);
    Unwrapped(Unsigned(s));
    var high := ShiftedMultiple(b % 128, |s|);
    OrIsSum(x, high, 7 * |s|);
  }

  lemma Unwrapped(n: nat)
    requires n < U64_LIMIT
    ensures n % U64_LIMIT == n
  {
  }

  /** Whatever the shift loses at the top, what is left is a multiple of the place. */
  lemma ShiftedMultiple(y: nat, i: nat) returns (high: nat)
    requires y < 128 && i < MAX_GROUP
    ensures Shifted(y, i) == high * Pow128(i)
  {
    hide Pow128;
    PowersUpTo10();
    if i < 9 {
      PowerMonotone(i + 1, 9);
      NextPower(i);
      Bounded(y, Pow128(i));
      Unwrapped(y * Pow128(i));
      high := y;
    } else {
      TopBit(y);
      high := y % 2;
    }
  }

  lemma {:induction false} PowerOfTwo(n: nat)
    ensures Pow128(n) == Pow2(7 * n)
  {
    if n > 0 {
      PowerOfTwo(n - 1);
      Pow2Adds(7, 7 * (n - 1));
      assert Pow2(7) == 128;
    }
  }

  lemma AccumulatedSum(s: seq<u8>, b: u8, x: u64)
    requires |s| < MAX_GROUP && x == Unsigned(s) % U64_LIMIT
    ensures x + Shifted(b % 128, |s|) < U64_LIMIT
    ensures x + Shifted(b % 128, |s|) == Unsigned(s + [b]) % U64_LIMIT
  {
    hide Unsigned, Pow128;
    UnsignedAppend(s, b);
    UnsignedBound(s);
    PowersUpTo10();
    PowerMonotone(|s|, 9);
    if |s| < 9 {
      PowerMonotone(|s| + 1, 9);
      NextPower(|s|);
      Bounded(b % 128, Pow128(|s|));
    } else {
      TenBytes(Unsigned(s), b % 128);
      TopBit(b % 128);
    }
  }

  lemma NextPower(n: nat)
    ensures Pow128(n + 1) == 128 * Pow128(n)
  {
  }

  lemma Bounded(y: nat, p: nat)
    requires y < 128
    ensures y * p <= 127 * p
  {
  }

  lemma TopBit(y: nat)
    requires y < 128
    ensures y * 0x8000_0000_0000_0000 % U64_LIMIT == y % 2 * 0x8000_0000_0000_0000
  {
    var h := y / 2;
    assert y * 0x8000_0000_0000_0000 == h * U64_LIMIT + y % 2 * 0x8000_0000_0000_0000;
  }

  /** `uleb`: the accumulation loop. */
  method Uleb(v: seq<u8>, o: nat, end: nat) returns (r: Option<u64>, next: nat)
    requires o <= end <= |v|
    ensures o <= next <= end
    ensures r.Some? <==> exists n: nat :: GroupAt(v, o, end, n)
    ensures r.Some? ==> Group(v[o..next]) && r.value == Unsigned(v[o..next]) % U64_LIMIT
  {
    var x: u64, i := 0, 0;
    next := o;
    while i < MAX_GROUP && next < end
      invariant 0 <= i <= MAX_GROUP && next == o + i <= end
      invariant x == Unsigned(v[o..next]) % U64_LIMIT
      invariant forall k :: o <= k < next ==> v[k] >= 128
    {
      hide Unsigned, Shifted, Or, Group, GroupAt;
      var b := v[next];
      AccumulateByte(v, o, next, x);
      next := next + 1;
      // The guard of the code, sh >= 64 with a non-zero byte, cannot hold: the shift is at most 63.
      x := Or(x, Shifted(b % 128, i));
      if b < 128 {
        GroupEnds(v, o, end, i + 1);
        return Some(x), next;
      }
      i := i + 1;
    }
    NoGroup(v, o, end, next);
    return None, next;
  }

  lemma AccumulateByte(v: seq<u8>, o: nat, next: nat, x: u64)
    requires o <= next < |v| && next - o < MAX_GROUP && x == Unsigned(v[o..next]) % U64_LIMIT
    ensures Or(x, Shifted(v[next] % 128, next - o)) == Unsigned(v[o..next + 1]) % U64_LIMIT
  {
    hide Unsigned, Shifted, Or;
    AccumulateStep(v[o..next], v[next], x);
    assert v[o..next + 1] == v[o..next] + [v[next]];
  }

  lemma GroupEnds(v: seq<u8>, o: nat, end: nat, n: nat)
    requires o + n <= end <= |v| && 0 < n <= MAX_GROUP && v[o + n - 1] < 128 && forall k :: o <= k < o + n - 1 ==> v[k] >= 128
    ensures Group(v[o..o + n]) && GroupAt(v, o, end, n)
  {
  }

  lemma NoGroup(v: seq<u8>, o: nat, end: nat, stop: nat)
    requires o <= stop <= end <= |v| && (stop == o + MAX_GROUP || stop == end)
    requires forall k :: o <= k < stop ==> v[k] >= 128
    ensures !exists n: nat :: GroupAt(v, o, end, n)
  {
    forall n: nat ensures !GroupAt(v, o, end, n) {
      if 0 < n <= MAX_GROUP && o + n <= end { assert v[o..o + n][n - 1] == v[o + n - 1]; }
    }
  }

  function ToI64(x: nat): int { if x > I64_MAX then x - U64_LIMIT else x }

  /** All ones, shifted left: the bits from 7 * i on, unless the shift has passed the word. */
  function OnesFrom(i: nat): nat { if 7 * i < 64 && Pow128(i) <= U64_LIMIT then U64_LIMIT - Pow128(i) else 0 }

  /** Set all bits from the current shift on when the sign bit of the last byte is set. */
  function SignExtend(x: u64, i: nat, b: u8): nat {
    if 7 * i < 64 && b >= 64 then Or(x, OnesFrom(i)) else x
  }

  lemma OnesAreAbove(x: u64, i: nat)
    requires i <= 9 && x < Pow128(i)
    ensures Pow128(i) <= U64_LIMIT && Or(x, OnesFrom(i)) == x + (U64_LIMIT - Pow128(i))
  {
    hide Pow128, Or, Pow2;
    PowersUpTo10();
    PowerMonotone(i, 9);
    PowerOfTwo(i);
    PowerOfTwo(9);
    Pow2Adds(1, 63);
    TwoIsFirst();
    Pow2Adds(64 - 7 * i, 7 * i);
    OneLess(Pow2(64 - 7 * i), Pow2(7 * i));
    OrIsSum(x, Pow2(64 - 7 * i) - 1, 7 * i);
  }

  lemma TwoIsFirst()
    ensures Pow2(1) == 2
  {
  }

  lemma OneLess(a: nat, p: nat)
    ensures (a - 1) * p == a * p - p
  {
  }

  lemma SignExtendIsExact(s: seq<u8>, x: u64)
    requires Group(s) && x == Unsigned(s) % U64_LIMIT
    ensures SignExtend(x, |s|, s[|s| - 1]) < U64_LIMIT
    ensures ToI64(SignExtend(x, |s|, s[|s| - 1])) == SignedResult(s)
  {
    hide Unsigned, Pow128, Or, OnesFrom;
    if |s| < MAX_GROUP {
      ShortGroup(s);
      OnesAreAbove(x, |s|);
    }
  }

  /** `sleb`: the same accumulation, then a sign extension unless all 64 bits have been filled. */
  method Sleb(v: seq<u8>, o: nat, end: nat) returns (r: Option<int>, next: nat)
    requires o <= end <= |v|
    ensures o <= next <= end
    ensures r.Some? <==> exists n: nat :: GroupAt(v, o, end, n)
    ensures r.Some? ==> Group(v[o..next]) && r.value == SignedResult(v[o..next])
  {
    assert v[o..o] == [] && Unsigned(v[o..o]) == 0;
    hide Unsigned, Pow128, Shifted, SignExtend, SignedResult, ToI64, Or, GroupAt;
    var x: u64, i := 0, 0;
    next := o;
    while i < MAX_GROUP && next < end
      invariant 0 <= i <= MAX_GROUP && next == o + i <= end
      invariant x == Unsigned(v[o..next]) % U64_LIMIT
      invariant forall k :: o <= k < next ==> v[k] >= 128
    {
      var b := v[next];
      AccumulateByte(v, o, next, x);
      next := next + 1;
      x := Or(x, Shifted(b % 128, i));
      i := i + 1;
      if b < 128 {
        GroupEnds(v, o, end, i);
        SignExtendIsExact(v[o..next], x);
        return Some(ToI64(SignExtend(x, i, b))), next;
      }
    }
    NoGroup(v, o, end, next);
    return None, next;
  }

  /** The value `sleb` returns for a group: exact up to nine bytes, the low 64 bits of a ten-byte group. */
  function SignedResult(s: seq<u8>): int
    requires s != []
  {
    if |s| < MAX_GROUP then Signed(s) else ToI64(Unsigned(s) % U64_LIMIT)
  }

  /** Up to nine bytes the accumulated bits are the whole value, and the sign is the top payload bit. */
  lemma ShortGroup(s: seq<u8>)
    requires Group(s) && |s| < MAX_GROUP
    ensures Unsigned(s) < Pow128(|s|) <= 0x8000_0000_0000_0000
    ensures s[|s| - 1] >= 64 <==> Unsigned(s) >= Pow128(|s|) / 2
  {
    hide Unsigned, Pow128;
    var n := |s| - 1;
    PowersUpTo10();
    PowerMonotone(|s|, 9);
    NextPower(n);
    UnsignedBound(s);
    UnsignedBound(s[..n]);
    assert s == s[..n] + [s[n]];
    UnsignedAppend(s[..n], s[n]);
    HalfRange(s[n], Pow128(n), Unsigned(s[..n]));
  }

  lemma HalfRange(b: nat, p: nat, low: nat)
    requires b < 128 && low < p
    ensures b >= 64 ==> low + b * p >= 64 * p
    ensures b < 64 ==> low + b * p < 64 * p
  {
    if b < 64 { assert (b + 1) * p <= 64 * p; } else { assert 64 * p <= b * p; }
  }

  /** The decoders are exact on every group but the ten-byte ones that do not fit: the range check of `uleb` is
      dead, so a tenth byte above 1 silently loses bits, and `sleb` is wrong unless the tenth byte is 0 or 127. */
  lemma ExactExactlyWhenItFits(s: seq<u8>)
    requires Group(s)
    ensures |s| < MAX_GROUP ==> Unsigned(s) < U64_LIMIT && I64_MIN <= Signed(s) <= I64_MAX
    ensures Unsigned(s) % U64_LIMIT == Unsigned(s) <==> |s| < MAX_GROUP || s[9] <= 1
    ensures SignedResult(s) == Signed(s) <==> |s| < MAX_GROUP || s[9] == 0 || s[9] == 127
  {
    hide Unsigned, Pow128;
    PowersUpTo10();
    if |s| < MAX_GROUP {
      ShortGroup(s);
    } else {
      LongGroup(s);
    }
  }

  /** A group whose tenth byte is 2: it stands for 2^64, its sign bit is clear, and both decoders read it as 0. */
  function LostGroup(): seq<u8> { [128, 128, 128, 128, 128, 128, 128, 128, 128, 2] }

  lemma TenthByteIsLost()
    ensures Group(LostGroup()) && Unsigned(LostGroup()) == U64_LIMIT == Signed(LostGroup())
    ensures Unsigned(LostGroup()) % U64_LIMIT == 0 == SignedResult(LostGroup())
  {
    hide Unsigned, Pow128;
    var s := LostGroup();
    PowersUpTo10();
    assert s == s[..9] + [s[9]];
    UnsignedAppend(s[..9], s[9]);
    EmptyPayload(s[..9]);
    LongGroup(s);
  }

  lemma {:induction false} EmptyPayload(s: seq<u8>)
    requires forall k :: 0 <= k < |s| ==> s[k] == 128
    ensures Unsigned(s) == 0
  {
    if s != [] { EmptyPayload(s[1..]); }
  }

  /** A ten-byte group is its low 63 bits and the tenth byte. */
  lemma LongGroup(s: seq<u8>)
    requires Group(s) && |s| == MAX_GROUP
    ensures Unsigned(s[..9]) < 0x8000_0000_0000_0000
    ensures Unsigned(s) == Unsigned(s[..9]) + s[9] as int * 0x8000_0000_0000_0000
    ensures Unsigned(s) % U64_LIMIT == Unsigned(s[..9]) + s[9] as int % 2 * 0x8000_0000_0000_0000
  {
    hide Unsigned, Pow128;
    PowersUpTo10();
    assert s == s[..9] + [s[9]];
    UnsignedAppend(s[..9], s[9]);
    UnsignedBound(s[..9]);
    TenBytes(Unsigned(s[..9]), s[9]);
  }

  lemma TenBytes(low: nat, y: nat)
    requires low < 0x8000_0000_0000_0000 && y < 128
    ensures (low + y * 0x8000_0000_0000_0000) % U64_LIMIT == low + y % 2 * 0x8000_0000_0000_0000
  {
    var h := y / 2;
    assert low + y * 0x8000_0000_0000_0000 == h * U64_LIMIT + (low + y % 2 * 0x8000_0000_0000_0000);
  }

  /** The shortest unsigned encoding. */
  function EncodeUnsigned(n: nat): (r: seq<u8>)
    ensures r != []
  {
    if n < 128 then [n] else [128 + n % 128] + EncodeUnsigned(n / 128)
  }

  /** The shortest signed encoding. Division by a positive number rounds down. */
  function EncodeSigned(n: int): (r: seq<u8>)
    ensures r != []
    decreases if n < 0 then -n else n
  {
    if -64 <= n < 64 then [n % 128] else [128 + n % 128] + EncodeSigned(n / 128)
  }

  lemma {:induction false} EncodedUnsigned(n: nat, k: nat)
    requires n < Pow128(k + 1)
    ensures |EncodeUnsigned(n)| <= k + 1 && Unsigned(EncodeUnsigned(n)) == n
    ensures EncodeUnsigned(n)[|EncodeUnsigned(n)| - 1] < 128
    ensures forall i :: 0 <= i < |EncodeUnsigned(n)| - 1 ==> EncodeUnsigned(n)[i] >= 128
  {
    NextPower(0);
    if n < 128 {
      assert [n][1..] == [];
    } else {
      NextPower(k);
      EncodedUnsigned(n / 128, k - 1);
      var rest := EncodeUnsigned(n / 128);
      assert ([128 + n % 128] + rest)[1..] == rest;
    }
  }

  /** `uleb` inverts the canonical encoding of every 64-bit value, whatever follows it. */
  method UlebInverts(n: u64, rest: seq<u8>) returns (r: Option<u64>, next: nat)
    ensures r == Some(n) && next == |EncodeUnsigned(n)|
  {
    PowersUpTo10();
    EncodedUnsigned(n, 9);
    var e := EncodeUnsigned(n);
    var v := e + rest;
    assert v[0..0 + |e|] == e && GroupAt(v, 0, |v|, |e|);
    r, next := Uleb(v, 0, |v|);
    GroupsAgree(v, |e|, next);
  }

  lemma GroupsAgree(v: seq<u8>, m: nat, n: nat)
    requires m <= |v| && n <= |v| && Group(v[0..m]) && Group(v[0..n])
    ensures m == n
  {
    assert forall k :: 0 <= k < m && k < n ==> v[0..m][k] == v[0..n][k];
  }

  lemma {:induction false} EncodedSigned(n: int, k: nat)
    requires -64 * Pow128(k) <= n < 64 * Pow128(k)
    ensures var e := EncodeSigned(n);
            |e| <= k + 1 && Signed(e) == n && e[|e| - 1] < 128 && forall i :: 0 <= i < |e| - 1 ==> e[i] >= 128
    decreases k
  {
    hide Signed, Unsigned, Pow128;
    PowersUpTo10();
    if -64 <= n < 64 {
      SignedByte(n);
    } else {
      NextPower(k - 1);
      EncodedSigned(n / 128, k - 1);
      SignedPrepend(128 + n % 128, EncodeSigned(n / 128));
    }
  }

  lemma SignedByte(n: int)
    requires -64 <= n < 64
    ensures Signed([n % 128]) == n
  {
    PowersUpTo10();
    var b: u8 := n % 128;
    assert [b][1..] == [];
    assert Unsigned([b]) == b % 128 + 128 * Unsigned([]);
  }

  lemma SignedPrepend(b: u8, rest: seq<u8>)
    requires rest != []
    ensures Signed([b] + rest) == b % 128 + 128 * Signed(rest)
    ensures ([b] + rest)[|rest|] == rest[|rest| - 1]
  {
    assert ([b] + rest)[1..] == rest;
    NextPower(|rest|);
  }

  /** `sleb` inverts the canonical encoding of every signed 64-bit value, whatever follows it. */
  method SlebInverts(n: int, rest: seq<u8>) returns (r: Option<int>, next: nat)
    requires I64_MIN <= n <= I64_MAX
    ensures r == Some(n) && next == |EncodeSigned(n)|
  {
    PowersUpTo10();
    EncodedSigned(n, 9);
    var e := EncodeSigned(n);
    var v := e + rest;
    assert v[0..0 + |e|] == e && GroupAt(v, 0, |v|, |e|);
    r, next := Sleb(v, 0, |v|);
    GroupsAgree(v, |e|, next);
    TenByteSigned(e, n);
  }

  /** The ten-byte canonical encodings are among the groups that decode exactly. */
  lemma TenByteSigned(e: seq<u8>, n: int)
    requires Group(e) && Signed(e) == n && I64_MIN <= n <= I64_MAX
    ensures SignedResult(e) == n
  {
    ExactExactlyWhenItFits(e);
    if |e| == MAX_GROUP {
      PowersUpTo10();
      assert e == e[..9] + [e[9]];
      UnsignedAppend(e[..9], e[9]);
      UnsignedBound(e[..9]);
    }
  }
}
