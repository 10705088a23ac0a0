/** Where the constants of the hash standard come from (FIPS 180-4, sections 4.2 and 5.3). */
module HashConstants {
  import opened Common
  import opened ByteNumbers
  import opened Fips180

  /** The first sixty-four primes. */
  const PRIMES: seq<nat> :=
    [2, 3, 5, 7, 11, 13, 17, 19] + [23, 29, 31, 37, 41, 43, 47, 53] + [59, 61, 67, 71, 73, 79, 83, 89] +
    [97, 101, 103, 107, 109, 113, 127, 131] + [137, 139, 149, 151, 157, 163, 167, 173] +
    [179, 181, 191, 193, 197, 199, 211, 223] + [227, 229, 233, 239, 241, 251, 257, 263] +
    [269, 271, 277, 281, 283, 293, 307, 311]

  /** k is the first 32 bits of the fraction of the cube root of p, whose whole part is q. */
  ghost predicate CubeRootBits(p: nat, q: nat, k: nat) {
    var r := q * 0x1_0000_0000 + k;
    k < 0x1_0000_0000 && r * r * r <= p * 0x1_00000000_00000000_00000000 < (r + 1) * (r + 1) * (r + 1)
  }

  ghost predicate SquareRootBits(p: nat, q: nat, k: nat) {
    var r := q * 0x1_0000_0000 + k;
    k < 0x1_0000_0000 && r * r <= p * 0x1_00000000_00000000 < (r + 1) * (r + 1)
  }

  function WholeCubeRoot(p: nat): nat {
    if p < 8 then 1 else if p < 27 then 2 else if p < 64 then 3 else if p < 125 then 4 else if p < 216 then 5 else 6
  }

  function WholeSquareRoot(p: nat): nat { if p < 4 then 1 else if p < 9 then 2 else if p < 16 then 3 else 4 }

  /** Section 4.2.2: the round constants of SHA-256. */
  lemma RoundConstants256(t: nat)
    requires t < 64
    ensures CubeRootBits(PRIMES[t], WholeCubeRoot(PRIMES[t]), K256[t] as int)
  {
    hide CubeRootBits, WholeCubeRoot;
    if t < 8 { Row0(t); } else if t < 16 { Row1(t); } else if t < 24 { Row2(t); } else if t < 32 { Row3(t); }
    else if t < 40 { Row4(t); } else if t < 48 { Row5(t); } else if t < 56 { Row6(t); } else { Row7(t); }
  }

  lemma Row0(t: nat)
    requires 0 <= t < 8
    ensures CubeRootBits(PRIMES[t], WholeCubeRoot(PRIMES[t]), K256[t] as int)
  {
    if t < 4 { if t < 2 { } } else if t < 6 { }
  }

  lemma Row1(t: nat)
    requires 8 <= t < 16
    ensures CubeRootBits(PRIMES[t], WholeCubeRoot(PRIMES[t]), K256[t] as int)
  {
    if t < 12 { if t < 10 { } } else if t < 14 { }
  }

  lemma Row2(t: nat)
    requires 16 <= t < 24
    ensures CubeRootBits(PRIMES[t], WholeCubeRoot(PRIMES[t]), K256[t] as int)
  {
    if t < 20 { if t < 18 { } } else if t < 22 { }
  }

  lemma Row3(t: nat)
    requires 24 <= t < 32
    ensures CubeRootBits(PRIMES[t], WholeCubeRoot(PRIMES[t]), K256[t] as int)
  {
    if t < 28 { if t < 26 { } } else if t < 30 { }
  }

  lemma Row4(t: nat)
    requires 32 <= t < 40
    ensures CubeRootBits(PRIMES[t], WholeCubeRoot(PRIMES[t]), K256[t] as int)
  {
    if t < 36 { if t < 34 { } } else if t < 38 { }
  }

  lemma Row5(t: nat)
    requires 40 <= t < 48
    ensures CubeRootBits(PRIMES[t], WholeCubeRoot(PRIMES[t]), K256[t] as int)
  {
    if t < 44 { if t < 42 { } } else if t < 46 { }
  }

  lemma Row6(t: nat)
    requires 48 <= t < 56
    ensures CubeRootBits(PRIMES[t], WholeCubeRoot(PRIMES[t]), K256[t] as int)
  {
    if t < 52 { if t < 50 { } } else if t < 54 { }
  }

  lemma Row7(t: nat)
    requires 56 <= t < 64
    ensures CubeRootBits(PRIMES[t], WholeCubeRoot(PRIMES[t]), K256[t] as int)
  {
    if t < 60 { if t < 58 { } } else if t < 62 { }
  }

  /** Section 5.3.3: the initial hash value of SHA-256. */
  lemma InitialValue256(t: nat)
    requires t < 8
    ensures SquareRootBits(PRIMES[t], WholeSquareRoot(PRIMES[t]), Initial(Sha256)[t] as int)
  {
    if t < 4 { if t < 2 { } } else if t < 6 { }
  }

  /** Section 4.2.1: the constants of SHA-1 are 2^30 times the square roots of 2, 3, 5 and 10, rounded down. */
  lemma RoundConstants1(t: nat)
    requires t < 80
    ensures var k, p := K1(t) as int, if t < 20 then 2 else if t < 40 then 3 else if t < 60 then 5 else 10;
            k * k <= p * 0x1000_0000_0000_0000 < (k + 1) * (k + 1)
  {
  }

  /** Bytes that count up, then down, then down again. */
  const COUNTING: seq<seq<u8>> := [
    [0x01, 0x23, 0x45, 0x67], [0x89, 0xab, 0xcd, 0xef], [0xfe, 0xdc, 0xba, 0x98], [0x76, 0x54, 0x32, 0x10],
    [0xf0, 0xe1, 0xd2, 0xc3]]

  /** Section 5.3.1: the initial hash value of SHA-1 spells counting bytes, least significant first. */
  lemma InitialValue1(i: nat)
    requires i < 5
    ensures Initial(Sha1)[i] as int == Number(COUNTING[i], true)
  {
    hide Number;
    LittleEnd(0x01, 0x23, 0x45, 0x67);
    LittleEnd(0x89, 0xab, 0xcd, 0xef);
    LittleEnd(0xfe, 0xdc, 0xba, 0x98);
    LittleEnd(0x76, 0x54, 0x32, 0x10);
    LittleEnd(0xf0, 0xe1, 0xd2, 0xc3);
  }

  lemma LittleEnd(a: u8, b: u8, c: u8, d: u8)
    ensures Number([a, b, c, d], true) == a + 0x100 * b + 0x1_0000 * c + 0x100_0000 * d
  {
    assert [a, b, c, d][1..] == [b, c, d] && [b, c, d][1..] == [c, d] && [c, d][1..] == [d] && [d][1..] == [];
    assert Number([d], true) == d;
    assert Number([c, d], true) == c + 256 * Number([d], true);
    assert Number([b, c, d], true) == b + 256 * Number([c, d], true);
  }
}
