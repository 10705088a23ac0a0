/** The hash standard FIPS 180-4: padding (section 5.1.1), SHA-1 (section 6.1) and SHA-256 (section 6.2). */
module Fips180 {
  import opened Common
  import opened ByteNumbers

  datatype Algorithm = Sha1 | Sha256

  const K256: seq<bv32> :=
    [0x428a2f98, 0x71374491, 0xb5c0fbcf, 0xe9b5dba5, 0x3956c25b, 0x59f111f1, 0x923f82a4, 0xab1c5ed5] +
    [0xd807aa98, 0x12835b01, 0x243185be, 0x550c7dc3, 0x72be5d74, 0x80deb1fe, 0x9bdc06a7, 0xc19bf174] +
    [0xe49b69c1, 0xefbe4786, 0x0fc19dc6, 0x240ca1cc, 0x2de92c6f, 0x4a7484aa, 0x5cb0a9dc, 0x76f988da] +
    [0x983e5152, 0xa831c66d, 0xb00327c8, 0xbf597fc7, 0xc6e00bf3, 0xd5a79147, 0x06ca6351, 0x14292967] +
    [0x27b70a85, 0x2e1b2138, 0x4d2c6dfc, 0x53380d13, 0x650a7354, 0x766a0abb, 0x81c2c92e, 0x92722c85] +
    [0xa2bfe8a1, 0xa81a664b, 0xc24b8b70, 0xc76c51a3, 0xd192e819, 0xd6990624, 0xf40e3585, 0x106aa070] +
    [0x19a4c116, 0x1e376c08, 0x2748774c, 0x34b0bcb5, 0x391c0cb3, 0x4ed8aa4a, 0x5b9cca4f, 0x682e6ff3] +
    [0x748f82ee, 0x78a5636f, 0x84c87814, 0x8cc70208, 0x90befffa, 0xa4506ceb, 0xbef9a3f7, 0xc67178f2]

  /** Initial hash values (sections 5.3.1 and 5.3.3). */
  function Initial(alg: Algorithm): (r: seq<bv32>)
    ensures |r| == Words(alg)
  {
    match alg
    case Sha1 => [0x67452301, 0xefcdab89, 0x98badcfe, 0x10325476, 0xc3d2e1f0]
    case Sha256 => [0x6a09e667, 0xbb67ae85, 0x3c6ef372, 0xa54ff53a, 0x510e527f, 0x9b05688c, 0x1f83d9ab, 0x5be0cd19]
  }

  function Words(alg: Algorithm): nat { if alg.Sha1? then 5 else 8 }

  function Rounds(alg: Algorithm): nat { if alg.Sha1? then 80 else 64 }

  // Section 3.2: rotations.

  function Rotr(x: bv32, n: bv6): bv32
    requires 0 < n < 32
  {
    (x >> n) | (x << (32 - n))
  }

  function Rotl(x: bv32, n: bv6): bv32
    requires 0 < n < 32
  {
    (x << n) | (x >> (32 - n))
  }

  /** Addition of words, modulo 2^32. */
  function Plus(x: bv32, y: bv32): bv32 { x + y }

  // Section 4.1: the logical functions.

  function Ch(x: bv32, y: bv32, z: bv32): bv32 { (x & y) ^ (!x & z) }

  function Parity(x: bv32, y: bv32, z: bv32): bv32 { x ^ y ^ z }

  function Maj(x: bv32, y: bv32, z: bv32): bv32 { (x & y) ^ (x & z) ^ (y & z) }

  function BigSigma0(x: bv32): bv32 { Rotr(x, 2) ^ Rotr(x, 13) ^ Rotr(x, 22) }

  function BigSigma1(x: bv32): bv32 { Rotr(x, 6) ^ Rotr(x, 11) ^ Rotr(x, 25) }

  function SmallSigma0(x: bv32): bv32 { Rotr(x, 7) ^ Rotr(x, 18) ^ (x >> 3) }

  function SmallSigma1(x: bv32): bv32 { Rotr(x, 17) ^ Rotr(x, 19) ^ (x >> 10) }

  /** A big-endian 32-bit word of a block. */
  function Word(b: seq<u8>, i: nat): bv32
    requires 4 * i + 4 <= |b|
  {
    BigEndian(b[4 * i], b[4 * i + 1], b[4 * i + 2], b[4 * i + 3])
  }

  function BigEndian(b0: u8, b1: u8, b2: u8, b3: u8): bv32 {
    (b0 as bv32 << 24) | (b1 as bv32 << 16) | (b2 as bv32 << 8) | b3 as bv32
  }

  function Next1(w3: bv32, w8: bv32, w14: bv32, w16: bv32): bv32 { Rotl(w3 ^ w8 ^ w14 ^ w16, 1) }

  function Next256(w2: bv32, w7: bv32, w15: bv32, w16: bv32): bv32 {
    Plus(Plus(Plus(SmallSigma1(w2), w7), SmallSigma0(w15)), w16)
  }

  /** Step 1 of sections 6.1.2 and 6.2.2: the message schedule. */
  function W(alg: Algorithm, b: seq<u8>, t: nat): bv32
    requires |b| == 64
  {
    if t < 16 then Word(b, t)
    else match alg
      case Sha1 => Next1(W(alg, b, t - 3), W(alg, b, t - 8), W(alg, b, t - 14), W(alg, b, t - 16))
      case Sha256 => Next256(W(alg, b, t - 2), W(alg, b, t - 7), W(alg, b, t - 15), W(alg, b, t - 16))
  }

  /** Section 4.1.1 and 4.2.1: the function and the constant of a SHA-1 round. */
  function F(t: nat, x: bv32, y: bv32, z: bv32): bv32 {
    if t < 20 then Ch(x, y, z) else if t < 40 then Parity(x, y, z) else if t < 60 then Maj(x, y, z) else Parity(x, y, z)
  }

  function K1(t: nat): bv32 {
    if t < 20 then 0x5a827999 else if t < 40 then 0x6ed9eba1 else if t < 60 then 0x8f1bbcdc else 0xca62c1d6
  }

  function K2(t: nat): bv32
    requires t < 64
  {
    K256[t]
  }

  /** One round on the working variables (step 3). */
  function Round(alg: Algorithm, v: seq<bv32>, w: bv32, t: nat): (r: seq<bv32>)
    requires |v| == Words(alg) && t < Rounds(alg)
    ensures |r| == Words(alg)
  {
    match alg
    case Sha1 =>
      [Plus(Plus(Plus(Plus(Rotl(v[0], 5), F(t, v[1], v[2], v[3])), v[4]), K1(t)), w), v[0], Rotl(v[1], 30), v[2], v[3]]
    case Sha256 =>
      var t1 := Plus(Plus(Plus(Plus(v[7], BigSigma1(v[4])), Ch(v[4], v[5], v[6])), K2(t)), w);
      var t2 := Plus(BigSigma0(v[0]), Maj(v[0], v[1], v[2]));
      [Plus(t1, t2), v[0], v[1], v[2], Plus(v[3], t1), v[4], v[5], v[6]]
  }

  /** The working variables after t rounds. */
  function After(alg: Algorithm, h: seq<bv32>, b: seq<u8>, t: nat): (r: seq<bv32>)
    requires |h| == Words(alg) && |b| == 64 && t <= Rounds(alg)
    ensures |r| == Words(alg)
  {
    if t == 0 then h else Round(alg, After(alg, h, b, t - 1), W(alg, b, t - 1), t - 1)
  }

  lemma AfterOneMore(alg: Algorithm, h: seq<bv32>, b: seq<u8>, t: nat)
    requires |h| == Words(alg) && |b| == 64 && t < Rounds(alg)
    ensures After(alg, h, b, 0) == h
    ensures After(alg, h, b, t + 1) == Round(alg, After(alg, h, b, t), W(alg, b, t), t)
  {
    hide Round, W;
  }

  function AddWords(a: seq<bv32>, b: seq<bv32>): (r: seq<bv32>)
    requires |a| == |b|
    ensures |r| == |a|
  {
    seq(|a|, i requires 0 <= i < |a| => Plus(a[i], b[i]))
  }

  /** Step 4: the next intermediate hash value. */
  function Compress(alg: Algorithm, h: seq<bv32>, b: seq<u8>): (r: seq<bv32>)
    requires |h| == Words(alg) && |b| == 64
    ensures |r| == Words(alg)
  {
    AddWords(h, After(alg, h, b, Rounds(alg)))
  }

  /** Processing whole blocks in order. */
  function Fold(alg: Algorithm, h: seq<bv32>, m: seq<u8>): (r: seq<bv32>)
    requires |h| == Words(alg) && |m| % 64 == 0
    ensures |r| == Words(alg)
    decreases |m|
  {
    if m == [] then h else Fold(alg, Compress(alg, h, m[..64]), m[64..])
  }

  function Zeros(n: nat): (r: seq<u8>)
    ensures |r| == n
  {
    seq(n, _ => 0)
  }

  /** The number of zero bytes of the padding. */
  function ZeroCount(n: nat): (k: nat)
    ensures (n + 1 + k) % 64 == 56 && k < 64
  {
    (55 - n) % 64
  }

  /** Section 5.1.1. The standard asks for fewer than 2^64 bits; the code keeps the length modulo 2^64. */
  function Pad(m: seq<u8>): (r: seq<u8>)
    ensures |r| == |m| + (9 + ZeroCount(|m|))
  {
    m + ([0x80] + Zeros(ZeroCount(|m|)) + LengthField(|m|))
  }

  function LengthField(n: nat): (r: seq<u8>)
    ensures |r| == 8
  {
    Bytes(8 * n % U64_LIMIT, 8, false)
  }

  lemma PadFillsBlocks(m: seq<u8>)
    ensures |Pad(m)| % 64 == 0
  {
    hide Pad, LengthField, ZeroCount;
    assert |Pad(m)| == (|m| + 1 + ZeroCount(|m|)) + 8;
  }

  /** The hash of a whole message. */
  function Digest(alg: Algorithm, m: seq<u8>): (r: seq<bv32>)
    ensures |r| == Words(alg)
  {
    PadFillsBlocks(m);
    Fold(alg, Initial(alg), Pad(m))
  }

  lemma {:induction false} FoldAppend(alg: Algorithm, h: seq<bv32>, a: seq<u8>, b: seq<u8>)
    requires |h| == Words(alg) && |a| % 64 == 0 && |b| % 64 == 0
    ensures Fold(alg, h, a + b) == Fold(alg, Fold(alg, h, a), b)
    decreases |a|
  {
    hide Compress;
    if a == [] {
      assert a + b == b;
    } else {
      assert (a + b)[..64] == a[..64] && (a + b)[64..] == a[64..] + b;
      FoldAppend(alg, Compress(alg, h, a[..64]), a[64..], b);
    }
  }

  lemma FoldOne(alg: Algorithm, h: seq<bv32>, a: seq<u8>, block: seq<u8>)
    requires |h| == Words(alg) && |a| % 64 == 0 && |block| == 64
    ensures Fold(alg, h, a + block) == Compress(alg, Fold(alg, h, a), block)
  {
    hide Compress;
    FoldAppend(alg, h, a, block);
    assert block[..64] == block && block[64..] == [];
  }

  /** The padding is the shortest: with fewer zero bytes the length field would not end a block. */
  lemma PaddingIsShortest(n: nat, j: nat)
    requires (n + 1 + j) % 64 == 56
    ensures ZeroCount(n) <= j
  {
    var k := ZeroCount(n);
    assert n + 1 + k == 64 * ((n + 1 + k) / 64) + 56;
    assert n + 1 + j == 64 * ((n + 1 + j) / 64) + 56;
  }

  lemma ZeroCountIs(n: nat, j: nat)
    requires (n + 1 + j) % 64 == 56 && j < 64
    ensures j == ZeroCount(n)
  {
    var k := ZeroCount(n);
    assert n + 1 + k == 64 * ((n + 1 + k) / 64) + 56;
    assert n + 1 + j == 64 * ((n + 1 + j) / 64) + 56;
  }

  /** The length field is the length in bits for every message the standard covers. */
  lemma LengthFieldIsExact(n: nat)
    requires 8 * n < U64_LIMIT
    ensures Number(LengthField(n), false) == 8 * n
  {
    hide Number, Bytes, Pow256;
    EightBytes();
    BytesRoundTrip(8 * n, 8, false);
  }

  /** No two messages the standard covers have the same padded form. */
  lemma PaddingIsInjective(a: seq<u8>, b: seq<u8>)
    requires 8 * |a| < U64_LIMIT && 8 * |b| < U64_LIMIT && Pad(a) == Pad(b)
    ensures a == b
  {
    hide LengthField, ZeroCount, Zeros, Number;
    PadEnds(a);
    PadEnds(b);
    LengthFieldIsExact(|a|);
    LengthFieldIsExact(|b|);
    assert Pad(a)[..|a|] == a && Pad(b)[..|b|] == b;
  }

  lemma PadEnds(m: seq<u8>)
    ensures Pad(m)[|Pad(m)| - 8..] == LengthField(|m|)
  {
    hide LengthField, ZeroCount, Zeros;
    assert Pad(m) == (m + ([0x80] + Zeros(ZeroCount(|m|)))) + LengthField(|m|);
  }

  lemma EightBytes()
    ensures Pow256(8) == U64_LIMIT
  {
    assert Pow256(2) == 256 * Pow256(1);
    assert Pow256(3) == 256 * Pow256(2);
    assert Pow256(4) == 256 * Pow256(3);
    assert Pow256(5) == 256 * Pow256(4);
    assert Pow256(6) == 256 * Pow256(5);
    assert Pow256(7) == 256 * Pow256(6);
    assert Pow256(8) == 256 * Pow256(7);
  }
}
