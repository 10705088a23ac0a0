/** Fixed-width integers of the C++ sources, and the helpers every module shares. */
module Common {

  const U32_LIMIT: int := 0x1_0000_0000
  const U64_LIMIT: int := 0x1_0000_0000_0000_0000
  const U64_MAX: int := 0xFFFF_FFFF_FFFF_FFFF

  type u8 = x: int | 0 <= x < 256
  type u32 = x: int | 0 <= x < 0x1_0000_0000
  type u64 = x: int | 0 <= x < 0x1_0000_0000_0000_0000

  datatype Option<+T> = None | Some(value: T)

  function Min(a: int, b: int): int { if b < a then b else a }

  function Max(a: int, b: int): int { if a < b then b else a }

  /** The saturating 64-bit addition used for every byte counter. */
  function SatAdd(a: u64, b: u64): (r: u64)
    ensures r == Min(a + b, U64_MAX)
  {
    if b > U64_MAX - a then U64_MAX else a + b
  }

  /** A cast to 32 bits. */
  function Wrap32(n: nat): u32 { n % U32_LIMIT }

  /** A 32-bit `++counter`, which wraps. */
  function Inc32(a: u32): u32 { (a + 1) % U32_LIMIT }

  /** What a run of chunks spells. */
  ghost function Concat(chunks: seq<seq<u8>>): seq<u8> {
    if chunks == [] then [] else Concat(chunks[..|chunks| - 1]) + chunks[|chunks| - 1]
  }
}
