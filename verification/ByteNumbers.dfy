/** Numbers written in bytes, least or most significant byte first. */
module ByteNumbers {
  import opened Common
  import opened Bits

  /** The number written in a run of bytes. */
  function Number(bytes: seq<u8>, le: bool): (r: nat)
    decreases |bytes|
  {
    if bytes == [] then 0
    else if le then bytes[0] + 256 * Number(bytes[1..], le)
    else 256 * Number(bytes[..|bytes| - 1], le) + bytes[|bytes| - 1]
  }

  function Pow256(n: nat): (r: nat)
    ensures r >= 1
  {
    if n == 0 then 1 else 256 * Pow256(n - 1)
  }

  lemma {:induction false} NumberBound(bytes: seq<u8>, le: bool)
    ensures Number(bytes, le) < Pow256(|bytes|)
    decreases |bytes|
  {
    if bytes != [] {
      if le { NumberBound(bytes[1..], le); } else { NumberBound(bytes[..|bytes| - 1], le); }
    }
  }

  lemma {:induction false} NumberAppend(bytes: seq<u8>, b: u8)
    ensures Number(bytes + [b], true) == Number(bytes, true) + b * Pow256(|bytes|)
    decreases |bytes|
  {
    if bytes != [] {
      assert (bytes + [b])[1..] == bytes[1..] + [b];
      NumberAppend(bytes[1..], b);
      Distribute(bytes[0], Number(bytes[1..], true), b, Pow256(|bytes| - 1));
    }
  }

  lemma Distribute(a: int, n: int, b: int, p: int)
    ensures a + 256 * (n + b * p) == (a + 256 * n) + b * (256 * p)
  {
  }

  lemma NextPower(n: nat)
    ensures Pow256(n + 1) == 256 * Pow256(n)
  {
  }

  /** Shifting by n bytes is shifting by 8 * n bits. */
  lemma {:induction false} ByteWeight(n: nat)
    ensures Pow256(n) == Pow2(8 * n)
  {
    if n > 0 {
      ByteWeight(n - 1);
      Pow2Adds(8, 8 * (n - 1));
      assert Pow2(8) == 256;
    }
  }

  /** The shortest-first or longest-first bytes of a number of the given width. */
  function Bytes(n: nat, width: nat, le: bool): (r: seq<u8>)
    ensures |r| == width
  {
    if width == 0 then []
    else if le then [n % 256] + Bytes(n / 256, width - 1, le)
    else Bytes(n / 256, width - 1, le) + [n % 256]
  }

  lemma {:induction false} BytesRoundTrip(n: nat, width: nat, le: bool)
    requires n < Pow256(width)
    ensures Number(Bytes(n, width, le), le) == n
  {
    if width > 0 {
      BytesRoundTrip(n / 256, width - 1, le);
      var rest := Bytes(n / 256, width - 1, le);
      assert ([n % 256] + rest)[1..] == rest;
      assert (rest + [n % 256])[..|rest|] == rest;
    }
  }

  /** Dividing in two steps. */
  lemma DivideTwice(n: nat, p: nat)
    requires p >= 1
    ensures n / (256 * p) == n / 256 / p
  {
    var q, r := n / 256 / p, n / 256 % p;
    assert n / 256 == q * p + r;
    assert n == q * (256 * p) + (256 * r + n % 256);
    QuotientIs(n, 256 * p, q, 256 * r + n % 256);
  }

  /** Shifting right by whole bytes and truncating picks one of the bytes, most significant first. */
  lemma {:induction false} ByteOf(n: nat, width: nat, k: nat)
    requires k < width
    ensures Bytes(n, width, false)[k] == n / Pow256(width - 1 - k) % 256
    decreases width
  {
    if k < width - 1 {
      ByteOf(n / 256, width - 1, k);
      DivideTwice(n, Pow256(width - 2 - k));
    }
  }
}
