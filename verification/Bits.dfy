/** The bitwise or on numbers, and when it is a sum. */
module Bits {

  function Pow2(n: nat): (r: nat)
    ensures r >= 1
  {
    if n == 0 then 1 else 2 * Pow2(n - 1)
  }

  predicate Bit(n: nat, k: nat) { if k == 0 then n % 2 == 1 else Bit(n / 2, k - 1) }

  /** Bit k is the binary digit of weight 2^k. */
  lemma {:induction false} BitIsDigit(n: nat, k: nat)
    ensures Bit(n, k) <==> n / Pow2(k) % 2 == 1
    decreases k
  {
    if k > 0 {
      BitIsDigit(n / 2, k - 1);
      HalveTwice(n, Pow2(k - 1));
    }
  }

  lemma HalveTwice(n: nat, p: nat)
    requires p >= 1
    ensures n / (2 * p) == n / 2 / p
  {
    var h := n / 2;
    var q, r := h / p, h % p;
    assert h == q * p + r && n == 2 * h + n % 2;
    Twice(q, p);
    QuotientIs(n, 2 * p, q, 2 * r + n % 2);
  }

  lemma QuotientIs(n: nat, d: nat, q: nat, r: nat)
    requires n == q * d + r && r < d
    ensures n / d == q
  {
    var e := n / d - q;
    assert (e >= 1 ==> e * d >= d) && (e <= -1 ==> e * d + d <= 0);
    assert e * d == r - n % d;
  }

  function Or(a: nat, b: nat): nat
    decreases a + b
  {
    if a == 0 && b == 0 then 0
    else (if a % 2 == 1 || b % 2 == 1 then 1 else 0) + 2 * Or(a / 2, b / 2)
  }

  /** A bit of the or is set exactly when it is set on either side. */
  lemma {:induction false} OrBits(a: nat, b: nat, k: nat)
    ensures Bit(Or(a, b), k) <==> Bit(a, k) || Bit(b, k)
    decreases k
  {
    if a == 0 && b == 0 { NoBits(k); } else if k > 0 { OrBits(a / 2, b / 2, k - 1); }
  }

  lemma {:induction false} NoBits(k: nat)
    ensures !Bit(0, k)
    decreases k
  {
    if k > 0 { NoBits(k - 1); }
  }

  /** Numbers that share no bit, one below 2^p and the other a multiple of it, are joined by addition. */
  lemma {:induction false} OrIsSum(low: nat, high: nat, p: nat)
    requires low < Pow2(p)
    ensures Or(low, high * Pow2(p)) == low + high * Pow2(p) == Or(high * Pow2(p), low)
    decreases p
  {
    if p == 0 {
      OrNothing(high);
    } else {
      hide Or;
      OrIsSum(low / 2, high, p - 1);
      OrStep(low, high * Pow2(p - 1));
      Twice(high, Pow2(p - 1));
    }
  }

  lemma Twice(a: nat, b: nat)
    ensures a * (2 * b) == 2 * (a * b)
  {
  }

  lemma OrStep(low: nat, h: nat)
    requires Or(low / 2, h) == low / 2 + h == Or(h, low / 2)
    ensures Or(low, 2 * h) == low + 2 * h == Or(2 * h, low)
  {
    hide Or;
    var high := 2 * h;
    assert high / 2 == h && high % 2 == 0;
    OrUnfolds(low, high);
    OrUnfolds(high, low);
  }

  lemma OrUnfolds(a: nat, b: nat)
    ensures Or(a, b) == (if a % 2 == 1 || b % 2 == 1 then 1 else 0) + 2 * Or(a / 2, b / 2)
  {
  }

  lemma {:induction false} OrNothing(n: nat)
    ensures Or(0, n) == n == Or(n, 0)
  {
    if n > 0 { OrNothing(n / 2); }
  }

  lemma {:induction false} Pow2Adds(m: nat, n: nat)
    ensures Pow2(m + n) == Pow2(m) * Pow2(n)
    decreases m
  {
    if m > 0 {
      Pow2Adds(m - 1, n);
      Twice(Pow2(n), Pow2(m - 1));
    }
  }
}
