/** The sender's retransmit ring: the latest packet written to each slot, if its number still matches. */
module Retransmit {
  import opened Seq16
  import opened Sequences

  /** A stored packet under its wire number. */
  datatype Entry = Entry(wire: U16, data: Bytes)

  /** The last entry of the log that landed in slot `i`. */
  function Latest(log: seq<Entry>, i: int, bits: nat): Option<Entry> {
    if log == [] then None
    else if Idx(log[|log| - 1].wire, bits) == i then Some(log[|log| - 1])
    else Latest(log[..|log| - 1], i, bits)
  }

  /** What the ring answers after the writes of `log`. */
  function Lookup(log: seq<Entry>, wire: U16, bits: nat): Option<Bytes> {
    var e := Latest(log, Idx(wire, bits), bits);
    if e.Some? && e.value.wire == wire then Some(e.value.data) else None
  }

  class RetransmitBuffer {
    const slots: array<Option<Entry>>
    const capacity: int
    const bits: nat
    ghost var log: seq<Entry>

    ghost predicate Valid()
      reads this, slots
    {
      && slots.Length == capacity == Pow2(bits)
      && forall i :: 0 <= i < slots.Length ==> slots[i] == Latest(log, i, bits)
    }

    constructor (requested: nat)
      ensures Valid() && fresh(slots) && log == []
      ensures capacity == Pow2(RingBits(requested)) >= requested && bits == RingBits(requested)
    {
      slots := new Option<Entry>[Pow2(RingBits(requested))](_ => None);
      capacity, bits := Pow2(RingBits(requested)), RingBits(requested);
      log := [];
    }

    method Insert(wire: U16, data: Bytes)
      requires Valid()
      modifies this, slots
      ensures Valid() && log == old(log) + [Entry(wire, data)]
    {
      IdxWithin(wire, bits);
      slots[Idx(wire, bits)] := Some(Entry(wire, data));
      log := log + [Entry(wire, data)];
      assert log[..|log| - 1] == old(log);
    }

    method Get(wire: U16) returns (r: Option<Bytes>)
      requires Valid()
      ensures r == Lookup(log, wire, bits)
    {
      var slot := slots[Idx(wire, bits)];
      r := if slot.Some? && slot.value.wire == wire then Some(slot.value.data) else None;
    }
  }

  lemma IdxWithin(wire: U16, bits: nat)
    ensures 0 <= Idx(wire, bits) < Pow2(bits)
  {
  }

  // ---- a run of sends ----

  /** The log after sending `pkts` under consecutive numbers from `first`. */
  function Sends(first: int, pkts: seq<Bytes>): (log: seq<Entry>)
    ensures |log| == |pkts|
  {
    seq(|pkts|, i requires 0 <= i < |pkts| => Entry(Wrap(first + i), pkts[i]))
  }

  /** How many numbers back the ring can tell apart: `min(capacity, 65536)`. */
  function Reach(bits: nat): (r: int)
    ensures r > 0
  {
    if bits <= 16 then Pow2(bits) else 0x1_0000
  }

  lemma SlotsOfSmallRing(a: int, b: int, bits: nat)
    requires bits <= 16
    ensures a < b < a + Pow2(bits) ==> Idx(Wrap(a), bits) != Idx(Wrap(b), bits)
    ensures b == a + Pow2(bits) ==> Idx(Wrap(a), bits) == Idx(Wrap(b), bits)
  {
    IdxOfWrap(a, bits);
    IdxOfWrap(b, bits);
    if a < b < a + Pow2(bits) {
      IdxDistinct(a, b, bits);
    } else if b == a + Pow2(bits) {
      IdxPeriodic(a, bits);
    }
  }

  lemma WireIsSlot(wire: U16, bits: nat)
    requires bits > 16
    ensures Idx(wire, bits) == wire
  {
    Pow2Of16();
    Pow2Monotone(16, bits);
    IdxSmall(wire, bits);
  }

  lemma SlotsOfLargeRing(a: int, b: int, bits: nat)
    requires bits > 16
    ensures a < b < a + 0x1_0000 ==> Idx(Wrap(a), bits) != Idx(Wrap(b), bits)
    ensures b == a + 0x1_0000 ==> Idx(Wrap(a), bits) == Idx(Wrap(b), bits)
  {
    WireIsSlot(Wrap(a), bits);
    WireIsSlot(Wrap(b), bits);
    if a < b < a + 0x1_0000 {
      WrapDistinct(a, b);
    }
  }

  /** Numbers less than `Reach` apart use different slots; `Reach` apart, the same one. */
  lemma SlotsWithinReach(a: int, b: int, bits: nat)
    ensures a < b < a + Reach(bits) ==> Idx(Wrap(a), bits) != Idx(Wrap(b), bits)
    ensures b == a + Reach(bits) ==> Idx(Wrap(a), bits) == Idx(Wrap(b), bits)
  {
    if bits <= 16 {
      SlotsOfSmallRing(a, b, bits);
    } else {
      SlotsOfLargeRing(a, b, bits);
    }
  }

  /** The last write to a slot is the only one that counts. */
  lemma {:induction false} LatestIs(log: seq<Entry>, k: nat, i: int, bits: nat)
    requires k < |log| && Idx(log[k].wire, bits) == i
    requires forall j :: k < j < |log| ==> Idx(log[j].wire, bits) != i
    ensures Latest(log, i, bits) == Some(log[k])
    decreases |log|
  {
    if k < |log| - 1 {
      LatestIs(log[..|log| - 1], k, i, bits);
    }
  }

  /** In a log that revisits each slot every `period` writes, the last write is within one period. */
  lemma {:induction false} LatestFrom(log: seq<Entry>, i: int, period: nat, bits: nat) returns (k: int)
    requires Latest(log, i, bits).Some?
    requires forall j :: 0 <= j < |log| - period ==> Idx(log[j + period].wire, bits) == Idx(log[j].wire, bits)
    ensures 0 <= k < |log| <= k + period || period == 0
    ensures 0 <= k < |log| && Latest(log, i, bits) == Some(log[k]) && Idx(log[k].wire, bits) == i
    decreases |log|
  {
    k := |log| - 1;
    if Idx(log[k].wire, bits) != i {
      k := LatestFrom(log[..|log| - 1], i, period, bits);
    }
  }

  /**
   After any run of sends the ring answers for exactly the last `min(capacity, 65536)` numbers,
   with the packet sent: these it finds, ...
   */
  lemma RecentIsFound(first: int, pkts: seq<Bytes>, n: int, bits: nat)
    requires first <= n < first + |pkts| && first + |pkts| - Reach(bits) <= n
    ensures Lookup(Sends(first, pkts), Wrap(n), bits) == Some(pkts[n - first])
  {
    var log := Sends(first, pkts);
    forall j | n - first < j < |log|
      ensures Idx(log[j].wire, bits) != Idx(Wrap(n), bits)
    {
      SlotsWithinReach(n, first + j, bits);
    }
    LatestIs(log, n - first, Idx(Wrap(n), bits), bits);
  }

  /** ... and whatever it finds is one of these. */
  lemma FoundIsRecent(first: int, pkts: seq<Bytes>, wire: U16, bits: nat) returns (n: int)
    requires Lookup(Sends(first, pkts), wire, bits).Some?
    ensures first <= n < first + |pkts| && first + |pkts| - Reach(bits) <= n && Wrap(n) == wire
    ensures Lookup(Sends(first, pkts), wire, bits) == Some(pkts[n - first])
  {
    var log := Sends(first, pkts);
    forall j | 0 <= j < |log| - Reach(bits)
      ensures Idx(log[j + Reach(bits)].wire, bits) == Idx(log[j].wire, bits)
    {
      SlotsWithinReach(first + j, first + j + Reach(bits), bits);
    }
    var k := LatestFrom(log, Idx(wire, bits), Reach(bits), bits);
    n := first + k;
  }

  /** A resident number's slot shows it, so distinct resident numbers have distinct slots. */
  lemma ResidentSlots(log: seq<Entry>, a: U16, b: U16, bits: nat)
    requires Lookup(log, a, bits).Some? && Lookup(log, b, bits).Some? && a != b
    ensures Idx(a, bits) != Idx(b, bits)
  {
  }

  /** Pigeonhole: a list of distinct resident numbers is no longer than the ring. */
  lemma ResidentAtMostCapacity(log: seq<Entry>, ws: seq<U16>, bits: nat)
    requires forall i :: 0 <= i < |ws| ==> Lookup(log, ws[i], bits).Some?
    requires forall i, j :: 0 <= i < j < |ws| ==> ws[i] != ws[j]
    ensures |ws| <= Pow2(bits)
  {
    var used := SlotsOf(log, ws, bits);
    BoundedSet(used, Pow2(bits));
  }

  lemma {:induction false} SlotsOf(log: seq<Entry>, ws: seq<U16>, bits: nat) returns (used: set<int>)
    requires forall i :: 0 <= i < |ws| ==> Lookup(log, ws[i], bits).Some?
    requires forall i, j :: 0 <= i < j < |ws| ==> ws[i] != ws[j]
    ensures |used| == |ws|
    ensures forall x :: x in used <==> exists i :: 0 <= i < |ws| && x == Idx(ws[i], bits)
    ensures forall x :: x in used ==> 0 <= x < Pow2(bits)
    decreases |ws|
  {
    used := {};
    if ws != [] {
      var k := |ws| - 1;
      used := SlotsOf(log, ws[..k], bits);
      forall i | 0 <= i < k
        ensures Idx(ws[i], bits) != Idx(ws[k], bits)
      {
        ResidentSlots(log, ws[i], ws[k], bits);
      }
      assert Idx(ws[k], bits) !in used;
      used := used + {Idx(ws[k], bits)};
    }
  }
}
