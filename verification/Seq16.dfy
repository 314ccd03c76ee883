/**
 16-bit wrapping sequence numbers and the ring indices derived from them.

 The program never stores more than 16 bits of a sequence number. Every proof in
 this project speaks instead about unbounded integers ("unwrapped" numbers) and
 comes back to the wire through `Wrap` and `Unwrap`.
 */
module Seq16 {

  type U16 = n: int | 0 <= n < 0x1_0000

  type Bytes = seq<Byte>
  type Byte = n: int | 0 <= n < 0x100

  datatype Option<+T> = None | Some(value: T)

  /** The 16 bits of an unwrapped number that travel on the wire. */
  function Wrap(n: int): U16 {
    n % 0x1_0000
  }

  function WrappingAdd(a: U16, b: U16): U16 {
    if a + b < 0x1_0000 then a + b else a + b - 0x1_0000
  }

  function WrappingSub(a: U16, b: U16): U16 {
    if a >= b then a - b else a - b + 0x1_0000
  }

  /** The cast `x as i16`. */
  function AsI16(x: U16): (d: int)
    ensures -0x8000 <= d < 0x8000
  {
    if x < 0x8000 then x else x - 0x1_0000
  }

  /** The signed half-space distance `a.wrapping_sub(b) as i16`. */
  function SignedDiff(a: U16, b: U16): int {
    AsI16(WrappingSub(a, b))
  }

  /** The number nearest `reference` whose wire form is `wire`. */
  function Unwrap(reference: int, wire: U16): int {
    reference + SignedDiff(wire, Wrap(reference))
  }

  /** `Unwrap` finds the one number in the half-space around `reference` with that wire form. */
  lemma UnwrapIsNearest(reference: int, wire: U16, n: int)
    ensures Wrap(Unwrap(reference, wire)) == wire
    ensures -0x8000 <= Unwrap(reference, wire) - reference < 0x8000
    ensures -0x8000 <= n - reference < 0x8000 && Wrap(n) == wire ==> n == Unwrap(reference, wire)
  {
  }

  lemma SignedDiffOfNear(x: int, y: int)
    requires -0x8000 <= x - y < 0x8000
    ensures SignedDiff(Wrap(x), Wrap(y)) == x - y
  {
  }

  lemma DiffOfWires(a: U16, x: int, b: U16, y: int)
    requires a == Wrap(x) && b == Wrap(y) && -0x8000 <= x - y < 0x8000
    ensures SignedDiff(a, b) == x - y
  {
    SignedDiffOfNear(x, y);
  }

  lemma WrapOfSum(n: int, k: U16)
    ensures WrappingAdd(Wrap(n), k) == Wrap(n + k)
  {
  }

  lemma WrapOfNext(wire: U16, n: int, k: U16, p: int)
    requires wire == Wrap(n) && p == n + k
    ensures WrappingAdd(wire, k) == Wrap(p)
  {
    WrapOfSum(n, k);
  }

  lemma WrapDistinct(a: int, b: int)
    requires -0x1_0000 < b - a < 0x1_0000
    ensures Wrap(a) == Wrap(b) <==> a == b
  {
  }

  // ---- power-of-two rings ----

  function Pow2(bits: nat): (p: int)
    ensures p > 0
  {
    if bits == 0 then 1 else 2 * Pow2(bits - 1)
  }

  /** `n & (2^bits - 1)`: the low bits of a number, which address a ring of `2^bits` slots. */
  function Idx(n: int, bits: nat): (i: int)
    ensures 0 <= i < Pow2(bits)
    decreases bits, n
  {
    if bits == 0 then 0 else 2 * Idx(n / 2, bits - 1) + n % 2
  }

  /** The bits needed for `capacity.next_power_of_two()`. */
  function RingBits(capacity: nat): (bits: nat)
    ensures Pow2(bits) >= capacity
    ensures bits > 0 ==> Pow2(bits - 1) < capacity
    decreases capacity
  {
    if capacity <= 1 then 0 else 1 + RingBits((capacity + 1) / 2)
  }

  /** Numbers less than a ring apart have different slots. */
  lemma {:induction false} IdxDistinct(a: int, b: int, bits: nat)
    requires a < b < a + Pow2(bits)
    ensures Idx(a, bits) != Idx(b, bits)
    decreases bits
  {
    if bits > 0 && a % 2 == b % 2 {
      IdxDistinct(a / 2, b / 2, bits - 1);
    }
  }

  /** Numbers a whole ring apart share a slot. */
  lemma {:induction false} IdxPeriodic(a: int, bits: nat)
    ensures Idx(a + Pow2(bits), bits) == Idx(a, bits)
    decreases bits
  {
    if bits > 0 {
      assert (a + Pow2(bits)) / 2 == a / 2 + Pow2(bits - 1);
      IdxPeriodic(a / 2, bits - 1);
    }
  }

  lemma {:induction false} IdxSmall(k: int, bits: nat)
    requires 0 <= k < Pow2(bits)
    ensures Idx(k, bits) == k
    decreases bits
  {
    if bits > 0 {
      IdxSmall(k / 2, bits - 1);
    }
  }

  lemma {:induction false} IdxOfIdx(n: int, more: nat, bits: nat)
    requires bits <= more
    ensures Idx(Idx(n, more), bits) == Idx(n, bits)
    decreases bits
  {
    if bits > 0 {
      assert Idx(n, more) / 2 == Idx(n / 2, more - 1);
      IdxOfIdx(n / 2, more - 1, bits - 1);
    }
  }

  function ShiftRight(n: int, bits: nat): int
    decreases bits, n
  {
    if bits == 0 then n else ShiftRight(n / 2, bits - 1)
  }

  lemma DoubleProduct(p: int, q: int)
    ensures (2 * p) * q == 2 * (p * q)
  {
  }

  lemma HalfOfSum(n: int, d: int)
    ensures (n + 2 * d) / 2 == n / 2 + d && (n + 2 * d) % 2 == n % 2
  {
  }

  lemma {:induction false} IdxDecomposes(n: int, bits: nat)
    ensures n == Pow2(bits) * ShiftRight(n, bits) + Idx(n, bits)
    decreases bits
  {
    if bits > 0 {
      IdxDecomposes(n / 2, bits - 1);
      var p, q := Pow2(bits - 1), ShiftRight(n / 2, bits - 1);
      DoubleProduct(p, q);
    }
  }

  lemma Pow2Of16()
    ensures Pow2(16) == 0x1_0000
  {
    assert Pow2(8) == 256;
    assert Pow2(12) == 4096;
  }

  lemma {:induction false} Pow2Monotone(a: nat, b: nat)
    requires a <= b
    ensures Pow2(a) <= Pow2(b)
    decreases b
  {
    if a < b {
      Pow2Monotone(a, b - 1);
    }
  }

  lemma WrapIsIdx(n: int, bits: nat)
    requires Pow2(bits) == 0x1_0000
    ensures Wrap(n) == Idx(n, bits)
  {
    IdxDecomposes(n, bits);
    RemainderUnique(n, ShiftRight(n, bits), Idx(n, bits));
  }

  lemma RemainderUnique(n: int, q: int, r: int)
    requires n == 0x1_0000 * q + r && 0 <= r < 0x1_0000
    ensures Wrap(n) == r
  {
  }

  /** The wire form is the low 16 bits, so wrapping first does not change the slot. */
  lemma IdxOfWrap(n: int, bits: nat)
    requires bits <= 16
    ensures Idx(Wrap(n), bits) == Idx(n, bits)
  {
    Pow2Of16();
    IdxOfWide(n, 16, bits);
  }

  lemma IdxOfWide(n: int, width: nat, bits: nat)
    requires bits <= width && Pow2(width) == 0x1_0000
    ensures Idx(Wrap(n), bits) == Idx(n, bits)
  {
    WrapIsIdx(n, width);
    IdxOfIdx(n, width, bits);
  }

  /** Every slot belongs to exactly one number of any ring-sized range; here is which. */
  lemma IdxOwner(n: int, from: int, bits: nat)
    ensures from <= from + Idx(n - from, bits) < from + Pow2(bits)
    ensures Idx(from + Idx(n - from, bits), bits) == Idx(n, bits)
  {
    IdxDecomposes(n - from, bits);
    IdxShift(from + Idx(n - from, bits), ShiftRight(n - from, bits), bits);
  }

  lemma {:induction false} IdxShift(n: int, q: int, bits: nat)
    ensures Idx(n + Pow2(bits) * q, bits) == Idx(n, bits)
    decreases bits
  {
    if bits > 0 {
      var p := Pow2(bits - 1);
      DoubleProduct(p, q);
      HalfOfSum(n, p * q);
      IdxShift(n / 2, q, bits - 1);
    }
  }

  lemma IdxFacts(bits: nat)
    ensures forall a, b {:trigger Idx(a, bits), Idx(b, bits)} :: a < b < a + Pow2(bits) ==> Idx(a, bits) != Idx(b, bits)
  {
    forall a, b | a < b < a + Pow2(bits) ensures Idx(a, bits) != Idx(b, bits) { IdxDistinct(a, b, bits); }
  }

  ghost predicate Ascending(l: seq<U16>) {
    forall i, j :: 0 <= i < j < |l| ==> l[i] < l[j]
  }
}
