/** The streaming hashes (src/core/sha256.cpp, src/core/sha1.cpp). The two stream classes of the source differ
    only in their word count and their block function, so one class carries both. */
module Sha {
  import opened Common
  import opened Bits
  import opened ByteNumbers
  import opened Fips180

  // The source writes two of the SHA-1 functions with disjunctions.

  function ChOr(x: bv32, y: bv32, z: bv32): bv32 { (x & y) | (!x & z) }

  function MajOr(x: bv32, y: bv32, z: bv32): bv32 { (x & y) | (x & z) | (y & z) }

  lemma DisjunctionsOfBits(x: bv32, y: bv32, z: bv32)
    ensures (x & y) | (!x & z) == (x & y) ^ (!x & z)
    ensures (x & y) | (x & z) | (y & z) == (x & y) ^ (x & z) ^ (y & z)
  {
  }

  lemma FormsAre(x: bv32, y: bv32, z: bv32)
    ensures ChOr(x, y, z) == (x & y) | (!x & z) && Ch(x, y, z) == (x & y) ^ (!x & z)
    ensures MajOr(x, y, z) == (x & y) | (x & z) | (y & z) && Maj(x, y, z) == (x & y) ^ (x & z) ^ (y & z)
  {
  }

  lemma Disjunctions(x: bv32, y: bv32, z: bv32)
    ensures ChOr(x, y, z) == Ch(x, y, z) && MajOr(x, y, z) == Maj(x, y, z)
  {
    hide Ch, Maj, ChOr, MajOr;
    DisjunctionsOfBits(x, y, z);
    FormsAre(x, y, z);
  }

  // The source writes the other functions of the standard out in its loops.

  lemma ScheduleForms(x: bv32)
    ensures Rotr(x, 7) ^ Rotr(x, 18) ^ (x >> 3) == SmallSigma0(x)
    ensures Rotr(x, 17) ^ Rotr(x, 19) ^ (x >> 10) == SmallSigma1(x)
  {
    hide Rotr;
  }

  lemma RoundForms(x: bv32, y: bv32, z: bv32)
    ensures Rotr(x, 2) ^ Rotr(x, 13) ^ Rotr(x, 22) == BigSigma0(x)
    ensures Rotr(x, 6) ^ Rotr(x, 11) ^ Rotr(x, 25) == BigSigma1(x)
    ensures (x & y) ^ (!x & z) == Ch(x, y, z) && (x & y) ^ (x & z) ^ (y & z) == Maj(x, y, z)
  {
    hide Rotr;
  }

  lemma ParityForm(x: bv32, y: bv32, z: bv32)
    ensures x ^ y ^ z == Parity(x, y, z)
  {
  }

  lemma PlusIs(a: bv32, b: bv32)
    ensures Plus(a, b) == a + b
  {
  }

  lemma PlusCommutes(a: bv32, b: bv32)
    ensures Plus(a, b) == Plus(b, a)
  {
  }

  lemma PlusOfSums(a: bv32, b: bv32, c: bv32)
    ensures Plus(a + b, c) == a + b + c && Plus(a, b + c) == a + b + c
  {
  }

  lemma PlusAssociates(a: bv32, b: bv32, c: bv32)
    ensures Plus(Plus(a, b), c) == Plus(a, Plus(b, c))
  {
    hide Plus;
    PlusOfSums(a, b, c);
    PlusIs(a, b);
    PlusIs(b, c);
  }

  lemma Schedule256Order(w2: bv32, w7: bv32, w15: bv32, w16: bv32)
    ensures Plus(Plus(Plus(w16, SmallSigma0(w15)), w7), SmallSigma1(w2)) == Next256(w2, w7, w15, w16)
  {
    hide SmallSigma0, SmallSigma1, Plus;
    var s0, s1 := SmallSigma0(w15), SmallSigma1(w2);
    PlusCommutes(Plus(Plus(w16, s0), w7), s1);
    PlusCommutes(Plus(w16, s0), w7);
    PlusAssociates(s1, w7, Plus(w16, s0));
    PlusCommutes(w16, s0);
    PlusAssociates(Plus(s1, w7), s0, w16);
  }

  lemma Round256(a: bv32, b: bv32, c: bv32, d: bv32, e: bv32, f: bv32, g: bv32, hh: bv32, w: bv32, t: nat)
    requires t < 64
    ensures
      var t1 := Plus(Plus(Plus(Plus(hh, BigSigma1(e)), Ch(e, f, g)), K2(t)), w);
      var t2 := Plus(BigSigma0(a), Maj(a, b, c));
      Round(Sha256, [a, b, c, d, e, f, g, hh], w, t) == [Plus(t1, t2), a, b, c, Plus(d, t1), e, f, g]
  {
    hide BigSigma0, BigSigma1, Ch, Maj, K2, Plus;
  }

  lemma TableIs(t: nat)
    requires t < 64
    ensures t < |K256| && K256[t] == K2(t)
  {
  }

  lemma Compressed256(h: seq<bv32>, block: seq<u8>, a: bv32, b: bv32, c: bv32, d: bv32, e: bv32, f: bv32, g: bv32,
                      hh: bv32)
    requires |h| == 8 && |block| == 64 && After(Sha256, h, block, 64) == [a, b, c, d, e, f, g, hh]
    ensures Compress(Sha256, h, block) ==
            [Plus(h[0], a), Plus(h[1], b), Plus(h[2], c), Plus(h[3], d),
             Plus(h[4], e), Plus(h[5], f), Plus(h[6], g), Plus(h[7], hh)]
  {
    hide After, Plus;
    var r := Compress(Sha256, h, block);
    assert |r| == 8;
    hide Compress;
    assert r == [r[0], r[1], r[2], r[3], r[4], r[5], r[6], r[7]];
  }

  lemma Eight(h: array<bv32>)
    requires h.Length == 8
    ensures h[..] == [h[0], h[1], h[2], h[3], h[4], h[5], h[6], h[7]]
  {
  }

  method Rounds256(h: seq<bv32>, w: seq<bv32>, ghost block: seq<u8>)
    returns (a: bv32, b: bv32, c: bv32, d: bv32, e: bv32, f: bv32, g: bv32, hh: bv32)
    requires |h| == 8 && |w| == 64 && |block| == 64 && forall k :: 0 <= k < 64 ==> w[k] == W(Sha256, block, k)
    ensures [a, b, c, d, e, f, g, hh] == After(Sha256, h, block, 64)
  {
    hide After, W, Round, BigSigma0, BigSigma1, Ch, Maj, K2, Plus, Rotr;
    AfterOneMore(Sha256, h, block, 0);
    a, b, c, d, e, f, g, hh := h[0], h[1], h[2], h[3], h[4], h[5], h[6], h[7];
    for i := 0 to 64
      invariant [a, b, c, d, e, f, g, hh] == After(Sha256, h, block, i)
    {
      var s1, ch := Rotr(e, 6) ^ Rotr(e, 11) ^ Rotr(e, 25), (e & f) ^ (!e & g);
      var t1 := Plus(Plus(Plus(Plus(hh, s1), ch), K256[i]), w[i]);
      var s0, maj := Rotr(a, 2) ^ Rotr(a, 13) ^ Rotr(a, 22), (a & b) ^ (a & c) ^ (b & c);
      var t2 := Plus(s0, maj);
      RoundForms(e, f, g);
      RoundForms(a, b, c);
      TableIs(i);
      AfterOneMore(Sha256, h, block, i);
      Round256(a, b, c, d, e, f, g, hh, w[i], i);
      hh, g, f, e, d, c, b, a := g, f, e, Plus(d, t1), c, b, a, Plus(t1, t2);
    }
  }

  /** The SHA-256 block function. */
  method Block256(h: array<bv32>, p: array<u8>)
    requires h.Length == 8 && p.Length == 64
    modifies h
    ensures h[..] == Compress(Sha256, old(h[..]), old(p[..]))
  {
    hide After, W, Compress, Plus;
    var w := Schedule256(p);
    var a, b, c, d, e, f, g, hh := Rounds256(h[..], w[..], p[..]);
    Compressed256(h[..], p[..], a, b, c, d, e, f, g, hh);
    h[0], h[1], h[2], h[3], h[4], h[5], h[6], h[7] :=
      Plus(h[0], a), Plus(h[1], b), Plus(h[2], c), Plus(h[3], d),
      Plus(h[4], e), Plus(h[5], f), Plus(h[6], g), Plus(h[7], hh);
    Eight(h);
  }

  /** Four bytes shifted to their places. */
  method ReadWord(b0: u8, b1: u8, b2: u8, b3: u8) returns (w: bv32)
    ensures w == BigEndian(b0, b1, b2, b3)
  {
    w := (b0 as bv32 << 24) | (b1 as bv32 << 16) | (b2 as bv32 << 8) | b3 as bv32;
  }

  /** The first sixteen words of either schedule. */
  method FirstWords(alg: Algorithm, p: array<u8>, n: nat) returns (w: array<bv32>)
    requires p.Length == 64 && n >= 16
    ensures fresh(w) && w.Length == n && forall k :: 0 <= k < 16 ==> w[k] == W(alg, p[..], k)
  {
    hide BigEndian;
    w := new bv32[n];
    for i := 0 to 16
      invariant forall k :: 0 <= k < i ==> w[k] == W(alg, p[..], k)
    {
      w[i] := ReadWord(p[i * 4], p[i * 4 + 1], p[i * 4 + 2], p[i * 4 + 3]);
    }
  }

  method Schedule256(p: array<u8>) returns (w: array<bv32>)
    requires p.Length == 64
    ensures fresh(w) && w.Length == 64 && forall k :: 0 <= k < 64 ==> w[k] == W(Sha256, p[..], k)
  {
    hide SmallSigma0, SmallSigma1, Next256, Word, Plus, Rotr;
    w := FirstWords(Sha256, p, 64);
    for i := 16 to 64
      invariant forall k :: 0 <= k < i ==> w[k] == W(Sha256, p[..], k)
    {
      var x0, x1 := w[i - 15], w[i - 2];
      var s0, s1 := Rotr(x0, 7) ^ Rotr(x0, 18) ^ (x0 >> 3), Rotr(x1, 17) ^ Rotr(x1, 19) ^ (x1 >> 10);
      ScheduleForms(x0);
      ScheduleForms(x1);
      Schedule256Order(x1, w[i - 7], x0, w[i - 16]);
      w[i] := Plus(Plus(Plus(w[i - 16], s0), w[i - 7]), s1);
    }
  }

  /** One later word of the SHA-1 schedule. */
  method Mix(w3: bv32, w8: bv32, w14: bv32, w16: bv32) returns (w: bv32)
    ensures w == Next1(w3, w8, w14, w16)
  {
    hide Rotl;
    w := Rotl(w3 ^ w8 ^ w14 ^ w16, 1);
  }

  method Schedule1(p: array<u8>) returns (w: array<bv32>)
    requires p.Length == 64
    ensures fresh(w) && w.Length == 80 && forall k :: 0 <= k < 80 ==> w[k] == W(Sha1, p[..], k)
  {
    hide Next1, Word;
    w := FirstWords(Sha1, p, 80);
    for i := 16 to 80
      invariant forall k :: 0 <= k < i ==> w[k] == W(Sha1, p[..], k)
    {
      w[i] := Mix(w[i - 3], w[i - 8], w[i - 14], w[i - 16]);
    }
  }

  lemma Round1(a: bv32, bb: bv32, c: bv32, d: bv32, e: bv32, w: bv32, t: nat)
    requires t < 80
    ensures Round(Sha1, [a, bb, c, d, e], w, t) ==
            [Plus(Plus(Plus(Plus(Rotl(a, 5), F(t, bb, c, d)), e), K1(t)), w), a, Rotl(bb, 30), c, d]
  {
    hide Rotl, F, K1, Plus;
  }

  lemma Compressed1(h: seq<bv32>, block: seq<u8>, a: bv32, bb: bv32, c: bv32, d: bv32, e: bv32)
    requires |h| == 5 && |block| == 64 && After(Sha1, h, block, 80) == [a, bb, c, d, e]
    ensures Compress(Sha1, h, block) == [Plus(h[0], a), Plus(h[1], bb), Plus(h[2], c), Plus(h[3], d), Plus(h[4], e)]
  {
    hide After, Plus;
  }

  /** The branches of the SHA-1 round. */
  method Logic1(i: nat, bb: bv32, c: bv32, d: bv32) returns (f: bv32, k: bv32)
    ensures f == F(i, bb, c, d) && k == K1(i)
  {
    hide Ch, Maj, Parity, ChOr, MajOr;
    Disjunctions(bb, c, d);
    ParityForm(bb, c, d);
    if i < 20 {
      f, k := ChOr(bb, c, d), 0x5a827999;
    } else if i < 40 {
      f, k := bb ^ c ^ d, 0x6ed9eba1;
    } else if i < 60 {
      f, k := MajOr(bb, c, d), 0x8f1bbcdc;
    } else {
      f, k := bb ^ c ^ d, 0xca62c1d6;
    }
  }

  method Rounds1(h: seq<bv32>, w: seq<bv32>, ghost block: seq<u8>)
    returns (a: bv32, bb: bv32, c: bv32, d: bv32, e: bv32)
    requires |h| == 5 && |w| == 80 && |block| == 64 && forall k :: 0 <= k < 80 ==> w[k] == W(Sha1, block, k)
    ensures [a, bb, c, d, e] == After(Sha1, h, block, 80)
  {
    hide After, W, F, K1, Round, Rotl, Plus;
    AfterOneMore(Sha1, h, block, 0);
    a, bb, c, d, e := h[0], h[1], h[2], h[3], h[4];
    for i := 0 to 80
      invariant [a, bb, c, d, e] == After(Sha1, h, block, i)
    {
      var f, k := Logic1(i, bb, c, d);
      var t := Plus(Plus(Plus(Plus(Rotl(a, 5), f), e), k), w[i]);
      AfterOneMore(Sha1, h, block, i);
      Round1(a, bb, c, d, e, w[i], i);
      e, d, c, bb, a := d, c, Rotl(bb, 30), a, t;
    }
  }

  /** The SHA-1 block function. */
  method Block1(h: array<bv32>, p: array<u8>)
    requires h.Length == 5 && p.Length == 64
    modifies h
    ensures h[..] == Compress(Sha1, old(h[..]), old(p[..]))
  {
    hide After, W, Compress, Plus;
    var w := Schedule1(p);
    var a, bb, c, d, e := Rounds1(h[..], w[..], p[..]);
    Compressed1(h[..], p[..], a, bb, c, d, e);
    h[0], h[1], h[2], h[3], h[4] := Plus(h[0], a), Plus(h[1], bb), Plus(h[2], c), Plus(h[3], d), Plus(h[4], e);
  }

  /** The stream has taken in `text`: its last bytes wait in the buffer and the others are hashed. */
  ghost predicate Absorbed(alg: Algorithm, h: seq<bv32>, waiting: seq<u8>, text: seq<u8>) {
    |waiting| <= |text| &&
    (|text| - |waiting|) % 64 == 0 &&
    waiting == text[|text| - |waiting|..] &&
    h == Fold(alg, Initial(alg), text[..|text| - |waiting|])
  }

  lemma AbsorbMore(alg: Algorithm, h: seq<bv32>, waiting: seq<u8>, text: seq<u8>, more: seq<u8>)
    requires Absorbed(alg, h, waiting, text)
    ensures Absorbed(alg, h, waiting + more, text + more)
  {
    hide Fold;
    var n := |text| - |waiting|;
    assert (text + more)[..n] == text[..n] && (text + more)[n..] == text[n..] + more;
  }

  lemma AbsorbBlock(alg: Algorithm, h: seq<bv32>, block: seq<u8>, text: seq<u8>)
    requires Absorbed(alg, h, block, text) && |block| == 64
    ensures |h| == Words(alg) && Absorbed(alg, Compress(alg, h, block), [], text)
  {
    hide Fold, Compress;
    var n := |text| - 64;
    FoldOne(alg, Initial(alg), text[..n], block);
    assert text[..n] + block == text && text[..|text|] == text;
  }

  lemma AbsorbedPaddingIsDigest(alg: Algorithm, h: seq<bv32>, m: seq<u8>)
    requires Absorbed(alg, h, [], Pad(m))
    ensures h == Digest(alg, m)
  {
    hide Fold, Pad;
    assert Pad(m)[..|Pad(m)|] == Pad(m);
  }

  lemma WaitingLength(alg: Algorithm, h: seq<bv32>, waiting: seq<u8>, text: seq<u8>)
    requires Absorbed(alg, h, waiting, text) && |waiting| < 64
    ensures |text| % 64 == |waiting|
  {
    hide Fold;
    assert |text| == 64 * ((|text| - |waiting|) / 64) + |waiting|;
  }

  lemma ZerosGrow(n: nat)
    ensures Zeros(0) == [] && Zeros(n) + [0] == Zeros(n + 1)
  {
  }

  lemma EightTimes(n: nat)
    ensures n % U64_LIMIT * 8 % U64_LIMIT == 8 * n % U64_LIMIT
  {
    var q, s := n / U64_LIMIT, n % U64_LIMIT * 8;
    QuotientIs(8 * n, U64_LIMIT, 8 * q + s / U64_LIMIT, s % U64_LIMIT);
  }

  /** The length counter may have wrapped; the length field has wrapped too. */
  lemma PadIs(m: seq<u8>, bytes: u64, text: seq<u8>)
    requires bytes == |m| % U64_LIMIT
    requires text == m + [0x80] + Zeros(ZeroCount(|m|)) + Bytes(bytes * 8 % U64_LIMIT, 8, false)
    ensures text == Pad(m)
  {
    hide Bytes, ZeroCount, Zeros;
    EightTimes(|m|);
  }

  lemma CounterAdds(a: nat, b: nat)
    ensures (a % U64_LIMIT + b) % U64_LIMIT == (a + b) % U64_LIMIT
  {
  }

  class HashStream {
    const alg: Algorithm
    const h: array<bv32>
    const buf: array<u8>
    var used: nat
    var bytes: u64
    /** Everything put into the buffer so far. */
    ghost var text: seq<u8>

    /** True while data, and then padding, goes in. */
    ghost predicate Filling()
      reads this, h, buf
    {
      h.Length == Words(alg) && buf.Length == 64 && used <= 64 && Absorbed(alg, h[..], buf[..used], text)
    }

    ghost predicate Valid()
      reads this, h, buf
    {
      Filling() && used < 64 && bytes == |text| % U64_LIMIT
    }

    constructor (alg: Algorithm)
      ensures Valid() && fresh(h) && fresh(buf) && this.alg == alg && text == []
    {
      var init := Initial(alg);
      this.alg := alg;
      h := new bv32[|init|](i requires 0 <= i < |init| => init[i]);
      buf := new u8[64](_ => 0);
      used, bytes, text := 0, 0, [];
      new;
      assert h[..] == init;
    }

    method Block()
      requires Filling() && used == 64
      modifies h, this`used
      ensures Filling() && used == 0 && text == old(text)
    {
      hide Compress, Absorbed;
      assert buf[..] == buf[..used];
      AbsorbBlock(alg, h[..], buf[..], text);
      if alg.Sha1? {
        Block1(h, buf);
      } else {
        Block256(h, buf);
      }
      used := 0;
      assert buf[..used] == [];
    }

    method Put(b: u8)
      requires Filling() && used < 64
      modifies buf, this`used, this`text
      ensures Filling() && used == old(used) + 1 && text == old(text) + [b]
    {
      hide Absorbed;
      AbsorbMore(alg, h[..], buf[..used], text, [b]);
      assert buf[..used] + [b] == buf[..][used := b][..used + 1];
      buf[used] := b;
      used, text := used + 1, text + [b];
    }

    /** Copies a piece of the data behind what waits in the buffer. */
    method Copy(piece: seq<u8>)
      requires Filling() && used + |piece| <= 64
      modifies buf, this`used, this`text
      ensures Filling() && used == old(used) + |piece| && text == old(text) + piece
    {
      hide Absorbed;
      AbsorbMore(alg, h[..], buf[..used], text, piece);
      ghost var hashed, before := h[..], buf[..used];
      forall k | 0 <= k < |piece| { buf[used + k] := piece[k]; }
      used, text := used + |piece|, text + piece;
      assert buf[..used] == before + piece && h[..] == hashed;
    }

    /** Takes in data of any length; only complete blocks are hashed. */
    method Update(data: seq<u8>)
      requires Valid()
      modifies this, h, buf
      ensures Valid() && text == old(text) + data
    {
      hide Absorbed;
      ghost var t0 := text;
      CounterAdds(|text|, |data|);
      bytes := (bytes + |data|) % U64_LIMIT;
      ghost var counted := bytes;
      var p := 0;
      while p < |data|
        invariant p <= |data| && Filling() && used < 64 && text == t0 + data[..p]
        invariant bytes == counted
      {
        hide Filling;
        var take := Min(64 - used, |data| - p);
        Copy(data[p..p + take]);
        assert data[..p] + data[p..p + take] == data[..p + take];
        p := p + take;
        if used == 64 { Block(); }
      }
      assert data[..p] == data;
    }

    /** The marker bit and the zeros, over one block or two. */
    method PutMarkAndZeros()
      requires Valid()
      modifies this`used, this`text, h, buf
      ensures Filling() && used == 56
      ensures text == old(text) + [0x80] + Zeros(ZeroCount(|old(text)|))
    {
      hide Absorbed, ZeroCount, Zeros;
      ghost var m, z, u := text, 0, used;
      Put(0x80);
      ZerosGrow(0);
      if used > 56 {
        while used < 64
          invariant used <= 64 && 0 <= z && Filling() && text == m + [0x80] + Zeros(z) && used == u + 1 + z
        {
          ZerosGrow(z);
          Put(0);
          z := z + 1;
        }
        Block();
      }
      while used < 56
        invariant used <= 56 && 0 <= z && Filling() && text == m + [0x80] + Zeros(z)
        invariant used == u + 1 + z || (u >= 56 && used + 63 == u + z)
      {
        ZerosGrow(z);
        Put(0);
        z := z + 1;
      }
      WaitingLength(alg, h[..], buf[..used], text);
      ZeroCountIs(|m|, z);
    }

    /** The length in bits, most significant byte first. */
    method PutLength(bits: u64)
      requires Filling() && used == 56
      modifies this`used, this`text, buf
      ensures Filling() && used == 64 && text == old(text) + Bytes(bits, 8, false)
    {
      hide Absorbed, Bytes, Pow256;
      ghost var t0 := text;
      var i := 7;
      while i >= 0
        invariant -1 <= i <= 7 && used == 63 - i && Filling() && text == t0 + Bytes(bits, 8, false)[..7 - i]
      {
        ByteOf(bits, 8, 7 - i);
        assert Bytes(bits, 8, false)[..8 - i] == Bytes(bits, 8, false)[..7 - i] + [Bytes(bits, 8, false)[7 - i]];
        Put(bits / Pow256(i) % 256);
        i := i - 1;
      }
    }

    /** Pads, hashes the last one or two blocks and returns the hash of everything taken in. */
    method Finish() returns (digest: seq<bv32>)
      requires Valid()
      modifies this, h, buf
      ensures digest == Digest(alg, old(text))
    {
      hide Absorbed, Pad, LengthField;
      ghost var m := text;
      var bits := bytes * 8 % U64_LIMIT;
      PutMarkAndZeros();
      PutLength(bits);
      PadIs(m, bytes, text);
      Block();
      AbsorbedPaddingIsDigest(alg, h[..], m);
      digest := h[..];
    }
  }

  /** Hashing a message given in parts. */
  method HashParts(alg: Algorithm, parts: seq<seq<u8>>) returns (digest: seq<bv32>)
    ensures digest == Digest(alg, Concat(parts))
  {
    hide Digest, Absorbed;
    var s := new HashStream(alg);
    for i := 0 to |parts|
      invariant s.alg == alg && fresh(s) && fresh(s.h) && fresh(s.buf) && s.Valid() && s.text == Concat(parts[..i])
    {
      hide HashStream.Valid, HashStream.Filling;
      assert parts[..i + 1][..i] == parts[..i];
      s.Update(parts[i]);
    }
    assert parts[..|parts|] == parts;
    digest := s.Finish();
  }
}
