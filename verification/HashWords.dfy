/** What the words of the hash standard are as numbers, and its rotations as division (FIPS 180-4, sections 3.1 and 3.2). */
module HashWords {
  import opened Common
  import opened Bits
  import opened ByteNumbers
  import opened Fips180

  // Words.

  /** A word of a block is the number its four bytes spell, most significant first. */
  lemma WordIsNumber(b: seq<u8>, i: nat)
    requires 4 * i + 4 <= |b|
    ensures Word(b, i) as int == Number(b[4 * i..4 * i + 4], false)
  {
    FourBytes(b[4 * i..4 * i + 4]);
    hide Number, BigEndian;
    BigEndianIsSum(b[4 * i], b[4 * i + 1], b[4 * i + 2], b[4 * i + 3]);
  }

  lemma BigEndianIsSum(b0: u8, b1: u8, b2: u8, b3: u8)
    ensures BigEndian(b0, b1, b2, b3) as int == 0x100_0000 * (b0 as int) + 0x1_0000 * (b1 as int) + 0x100 * (b2 as int) + b3
  {
    var c0 := AsBits(b0);
    var c1 := AsBits(b1);
    var c2 := AsBits(b2);
    var c3 := AsBits(b3);
    JoinedBytes(c0, c1, c2, c3);
  }

  lemma AsBits(b: u8) returns (c: bv8)
    ensures b as bv32 == c as bv32 && c as int == b
  {
    c := b as bv8;
    ByteAsWord(b);
  }

  lemma FourBytes(s: seq<u8>)
    requires |s| == 4
    ensures Number(s, false) == 0x100_0000 * (s[0] as int) + 0x1_0000 * (s[1] as int) + 0x100 * (s[2] as int) + s[3]
  {
    assert s[..3][..2] == s[..2] && s[..2][..1] == s[..1] && s[..1][..0] == [];
    assert Number(s[..1], false) == s[0];
    assert Number(s[..2], false) == 256 * Number(s[..1], false) + s[1];
    assert Number(s[..3], false) == 256 * Number(s[..2], false) + s[2];
  }

  lemma ByteAsWord(b: u8)
    ensures b as bv32 == b as bv8 as bv32 && b as bv8 as int == b
  {
  }

  lemma JoinedBytes(a: bv8, b: bv8, c: bv8, d: bv8)
    ensures ((a as bv32 << 24) | (b as bv32 << 16) | (c as bv32 << 8) | d as bv32) as int ==
            0x100_0000 * (a as int) + 0x1_0000 * (b as int) + 0x100 * (c as int) + d as int
  {
  }

  // Rotations.

  /** Rotating to the right by n places divides by 2^n and puts the remainder on top. */
  lemma {:induction false} RotationDivides(x: bv32, n: bv6, k: nat)
    requires 0 < n < 32 && k == n as int
    ensures IsTurned(x as int, k, Rotr(x, n) as int)
    decreases k
  {
    hide Rotr;
    if k == 1 {
      var fewer := OneLessPlace(n);
      RotateOnce(x);
      Powers();
    } else {
      var fewer := OneLessPlace(n);
      RotationDivides(x, fewer, k - 1);
      RotatedOneMore(x, n, fewer);
      PlaceMoves(x as int, k, Rotr(x, fewer) as int);
    }
  }

  /** y is x divided by 2^k, with the remainder on top. */
  ghost predicate IsTurned(x: nat, k: nat, y: nat) { k <= 32 && y == x / Pow2(k) + x % Pow2(k) * Pow2(32 - k) }

  lemma RotatedOneMore(x: bv32, n: bv6, fewer: bv6)
    requires 1 < n < 32 && fewer == n - 1
    ensures Rotr(x, n) as int == Rotr(x, fewer) as int / 2 + Rotr(x, fewer) as int % 2 * 0x8000_0000
  {
    OneMorePlace(x, n);
    hide Rotr;
    RotateOnce(Rotr(x, fewer));
  }

  lemma OneLessPlace(n: bv6) returns (fewer: bv6)
    requires 0 < n < 32
    ensures fewer == n - 1 && fewer as int == n as int - 1 && (n as int == 1 ==> n == 1) && (n as int > 1 ==> 0 < fewer < 31)
  {
    fewer := n - 1;
  }

  lemma Powers()
    ensures Pow2(1) == 2 && Pow2(31) == 0x8000_0000
  {
    assert Pow2(8) == 256;
    Pow2Adds(8, 8);
    Pow2Adds(8, 16);
    Pow2Adds(7, 24);
  }

  lemma OneMorePlace(x: bv32, n: bv6)
    requires 1 < n < 32
    ensures Rotr(Rotr(x, n - 1), 1) == Rotr(x, n)
  {
    hide Rotr;
    var low, high := TurnedPieces(x, n);
    PiecesTurn(low, high, x >> n, x << (32 - n));
  }

  /** The two pieces of a word turned by n - 1 places, and what one more place makes of them. */
  lemma TurnedPieces(x: bv32, n: bv6) returns (low: bv32, high: bv32)
    requires 1 < n < 32
    ensures Rotr(x, n - 1) == low | high && Rotr(x, n) == (x >> n) | (x << (32 - n))
    ensures low >> 1 == x >> n && high << 31 == 0 && (high >> 1) | (low << 31) == x << (32 - n)
  {
    low, high := x >> (n - 1), x << (33 - n);
    LowMoves(x, n, low);
    HighMoves(x, n, low, high);
  }

  lemma LowMoves(x: bv32, n: bv6, low: bv32)
    requires 1 < n < 32 && low == x >> (n - 1)
    ensures low >> 1 == x >> n
  {
  }

  lemma HighMoves(x: bv32, n: bv6, low: bv32, high: bv32)
    requires 1 < n < 32 && low == x >> (n - 1) && high == x << (33 - n)
    ensures high << 31 == 0 && (high >> 1) | (low << 31) == x << (32 - n)
  {
  }

  lemma PiecesTurn(low: bv32, high: bv32, r: bv32, s: bv32)
    requires low >> 1 == r && high << 31 == 0 && (high >> 1) | (low << 31) == s
    ensures Rotr(low | high, 1) == r | s
  {
  }

  lemma RotateOnce(x: bv32)
    ensures Rotr(x, 1) as int == x as int / 2 + x as int % 2 * 0x8000_0000
  {
    var hi, lo := Halves(x);
    HalvesJoin(hi, lo);
    HalvesTurn(x, hi, lo);
    LastBit(lo);
  }

  lemma Halves(x: bv32) returns (hi: bv31, lo: bv1)
    ensures x == (hi as bv32 << 1) | lo as bv32
  {
    hi, lo := (x >> 1) as bv31, (x & 1) as bv1;
  }

  lemma HalvesJoin(hi: bv31, lo: bv1)
    ensures ((hi as bv32 << 1) | lo as bv32) as int == 2 * (hi as int) + lo as int
    ensures ((lo as bv32 << 31) | hi as bv32) as int == 0x8000_0000 * (lo as int) + hi as int
  {
  }

  lemma HalvesTurn(x: bv32, hi: bv31, lo: bv1)
    requires x == (hi as bv32 << 1) | lo as bv32
    ensures Rotr(x, 1) == (lo as bv32 << 31) | hi as bv32
  {
  }

  lemma LastBit(lo: bv1)
    ensures lo as int < 2
  {
  }

  /** Dividing once more by two, the new last bit goes to the top. */
  lemma PlaceMoves(x: nat, k: nat, y: nat)
    requires 1 < k < 32 && IsTurned(x, k - 1, y)
    ensures IsTurned(x, k, y / 2 + y % 2 * 0x8000_0000)
  {
    Powers();
    Pow2Adds(1, k - 1);
    Pow2Adds(1, 32 - k);
    Pow2Adds(k - 1, 32 - k);
    Moves(x, Pow2(k - 1), Pow2(32 - k));
  }

  lemma Moves(x: nat, p: nat, s: nat)
    requires p > 0 && p * s == 0x8000_0000
    ensures var y := x / p + x % p * (2 * s);
            y / 2 + y % 2 * 0x8000_0000 == x / (2 * p) + x % (2 * p) * s
  {
    DivideAgain(x, p);
    PartsMove(x / p, x % p, p, s);
  }

  lemma PartsMove(q: nat, r: nat, p: nat, s: nat)
    requires p * s == 0x8000_0000
    ensures (q + r * (2 * s)) / 2 + (q + r * (2 * s)) % 2 * 0x8000_0000 == q / 2 + (q % 2 * p + r) * s
  {
    HalfOf(q, r, s);
    TopPlace(q % 2, p, r, s);
  }

  lemma DivideAgain(x: nat, p: nat)
    requires p > 0
    ensures x / (2 * p) == x / p / 2 && x % (2 * p) == x / p % 2 * p + x % p
  {
    var q, r := x / p, x % p;
    var h, l := q / 2, q % 2;
    assert q == 2 * h + l && x == q * p + r;
    Doubled(h, l, p);
    assert l * p + r < 2 * p by { if l == 0 { assert l * p == 0; } else { assert l * p == p; } }
    QuotientIs(x, 2 * p, h, l * p + r);
  }

  lemma Doubled(h: nat, l: nat, p: nat)
    ensures (2 * h + l) * p == h * (2 * p) + l * p
  {
  }

  lemma HalfOf(q: nat, r: nat, s: nat)
    ensures (q + r * (2 * s)) / 2 == q / 2 + r * s && (q + r * (2 * s)) % 2 == q % 2
  {
    Twice(r, s);
  }

  lemma TopPlace(l: nat, p: nat, r: nat, s: nat)
    ensures (l * p + r) * s == l * (p * s) + r * s
  {
  }

  /** Rotating to the left is rotating to the right by the other places. */
  lemma LeftIsRight(x: bv32, n: bv6)
    requires 0 < n < 32
    ensures Rotl(x, n) == Rotr(x, 32 - n)
  {
  }
}
