/** Single bits of unsigned words, in arithmetic form. */
module Bits {
  import opened Seq16

  /** `b & (1 << i) != 0`. */
  predicate TestBit(b: nat, i: nat)
    decreases i, b
  {
    if i == 0 then b % 2 == 1 else TestBit(b / 2, i - 1)
  }

  /** Bit `i` is the last binary digit of `b` divided by `2^i`. */
  lemma {:induction false} TestBitMeans(b: nat, i: nat)
    ensures TestBit(b, i) <==> b / Pow2(i) % 2 == 1
    decreases i
  {
    if i > 0 {
      TestBitMeans(b / 2, i - 1);
      HalveFirst(b, Pow2(i - 1));
    }
  }

  lemma HalveFirst(n: int, p: int)
    requires p > 0
    ensures n / 2 / p == n / (2 * p) && n % (2 * p) == 2 * (n / 2 % p) + n % 2
  {
    var h, b := n / 2, n % 2;
    var q, s := h / p, h % p;
    assert h == p * q + s && n == 2 * h + b;
    DoubledQuotient(n, p, q, s, b);
  }

  lemma DoubledQuotient(n: int, p: int, q: int, s: int, b: int)
    requires p > 0 && n == 2 * (p * q + s) + b && 0 <= s < p && 0 <= b < 2
    ensures n / (2 * p) == q && n % (2 * p) == 2 * s + b
  {
    assert n == (2 * p) * q + (2 * s + b);
    QuotientUnique(n, 2 * p, q, 2 * s + b);
  }

  lemma QuotientUnique(a: int, d: int, q: int, r: int)
    requires d > 0 && a == d * q + r && 0 <= r < d
    ensures a / d == q && a % d == r
  {
    assert d * (a / d - q) == r - a % d;
    ProductTooSmall(d, a / d - q);
  }

  lemma ProductTooSmall(d: int, k: int)
    requires -d < d * k < d
    ensures k == 0
  {
  }

  /** The ring index of a number is its remainder by the size of the ring. */
  lemma {:induction false} IdxIsRemainder(n: int, bits: nat)
    ensures Idx(n, bits) == n % Pow2(bits)
    decreases bits
  {
    if bits > 0 {
      IdxIsRemainder(n / 2, bits - 1);
      HalveFirst(n, Pow2(bits - 1));
    }
  }

  /** `b | (1 << i)`. */
  function SetBit(b: nat, i: nat): nat
    decreases i, b
  {
    if i == 0 then b / 2 * 2 + 1 else 2 * SetBit(b / 2, i - 1) + b % 2
  }

  lemma {:induction false} SetBitTests(b: nat, i: nat, j: nat)
    ensures TestBit(SetBit(b, i), j) <==> i == j || TestBit(b, j)
    decreases i
  {
    var s := SetBit(b, i);
    if i == 0 {
      assert s / 2 == b / 2;
    } else {
      assert s / 2 == SetBit(b / 2, i - 1) && s % 2 == b % 2;
      if j > 0 {
        SetBitTests(b / 2, i - 1, j - 1);
      }
    }
  }

  lemma {:induction false} SetBitBound(b: nat, i: nat, k: nat)
    requires b < Pow2(k) && i < k
    ensures SetBit(b, i) < Pow2(k)
    decreases i
  {
    if i > 0 {
      SetBitBound(b / 2, i - 1, k - 1);
    }
  }

  lemma {:induction false} ZeroHasNoBits(i: nat)
    ensures !TestBit(0, i)
  {
    if i > 0 {
      ZeroHasNoBits(i - 1);
    }
  }

  /** `b & !(1 << i)`. */
  function ClearBit(b: nat, i: nat): nat
    decreases i, b
  {
    if i == 0 then b / 2 * 2 else 2 * ClearBit(b / 2, i - 1) + b % 2
  }

  lemma {:induction false} ClearBitTests(b: nat, i: nat, j: nat)
    ensures TestBit(ClearBit(b, i), j) <==> i != j && TestBit(b, j)
    decreases i
  {
    var s := ClearBit(b, i);
    if i == 0 {
      assert s / 2 == b / 2;
    } else {
      assert s / 2 == ClearBit(b / 2, i - 1) && s % 2 == b % 2;
      if j > 0 {
        ClearBitTests(b / 2, i - 1, j - 1);
      }
    }
  }
}
