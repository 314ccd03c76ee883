/**
 The reorder buffer as it is: a flat ring of slots addressed by `seq & mask`, with
 16-bit base and highest numbers, proved to behave like the queue in `ReorderModel`.
 */
module Reorder {
  import opened Seq16
  import opened Sequences
  import M = ReorderModel

  datatype State = Empty | Gap(noticed: nat) | Filled(data: Bytes, arrival: nat)

  datatype Slot = Slot(wire: U16, state: State)

  datatype DrainItem = Delivered(data: Bytes, wire: U16, arrival: nat) | Lost

  const EMPTY := Slot(0, Empty)

  predicate Occupied(s: Slot) { s.state.Filled? }

  /**
   Slot `s` shows what the queue says about number `n`. Outside the window it is empty, and what an
   earlier number left behind in it does not pass for `n`, unless `n` is sent as 0.
   */
  ghost predicate Shows(s: Slot, n: int, base: int, cells: seq<M.Cell>)
    requires n >= base
  {
    if n - base >= |cells| then s.state.Empty? && (s.wire == Wrap(n) ==> s.wire == 0)
    else match cells[n - base]
      case Filled(d, a) => s == Slot(Wrap(n), Filled(d, a))
      case Gap(t) => s == Slot(Wrap(n), Gap(t))
      case Lapped => s.wire != Wrap(n) && s.state.Gap?
  }

  ghost predicate Ring(ring: seq<Slot>, base: int, cells: seq<M.Cell>, bits: nat)
    requires |ring| == Pow2(bits)
  {
    && |cells| <= Pow2(bits)
    && forall n {:trigger Idx(n, bits)} :: base <= n < base + Pow2(bits) ==> Shows(ring[Idx(n, bits)], n, base, cells)
  }

  /**
   The unwrapped number an arrival stands for: the one nearest the window's base. The first
   arrival may be given any number `start` with its 16 bits; the rest of the run is numbered from it.
   */
  ghost function Number(w: M.Window, wire: U16, start: int): int {
    if w.Fresh? then start else Unwrap(w.base, wire)
  }

  function ToWire(item: M.Item): DrainItem {
    match item
    case Delivered(n, d, a) => Delivered(d, Wrap(n), a)
    case Lost(_) => Lost
  }

  function ToWireAll(items: seq<M.Item>): (r: seq<DrainItem>)
    ensures |r| == |items|
  {
    seq(|items|, i requires 0 <= i < |items| => ToWire(items[i]))
  }

  // ---- facts about rings ----

  lemma RingBounds(bits: nat)
    requires 6 <= bits <= 14
    ensures 64 <= Pow2(bits) <= 16384
  {
    assert Pow2(6) == 64;
    Pow2Of14(14);
    Pow2Monotone(6, bits);
    Pow2Monotone(bits, 14);
  }

  ghost predicate AllEmpty(ring: seq<Slot>) {
    forall i :: 0 <= i < |ring| ==> ring[i] == EMPTY
  }

  lemma EmptyRing(ring: seq<Slot>, base: int, bits: nat)
    requires |ring| == Pow2(bits) && AllEmpty(ring)
    ensures Ring(ring, base, [], bits)
  {
  }

  /** Storing number `n` into a ring without it, directly above or inside its window. */
  lemma RingStored(ring: seq<Slot>, base: int, cells: seq<M.Cell>, n: int, c: M.Cell, s: Slot, bits: nat)
    requires |ring| == Pow2(bits) && Ring(ring, base, cells, bits)
    requires base <= n < base + Pow2(bits) && n <= base + |cells|
    requires Shows(s, n, n, [c])
    ensures n < base + |cells| ==> Ring(ring[Idx(n, bits) := s], base, cells[n - base := c], bits)
    ensures n == base + |cells| ==> Ring(ring[Idx(n, bits) := s], base, cells + [c], bits)
  {
    IdxFacts(bits);
  }

  /** Dropping the head of a ring whose head slot has been emptied. */
  lemma RingAdvanced(ring: seq<Slot>, base: int, cells: seq<M.Cell>, s: Slot, bits: nat)
    requires 6 <= bits <= 14 && |ring| == Pow2(bits) && Ring(ring, base, cells, bits)
    requires s.state.Empty? && (s.wire == 0 || s.wire == Wrap(base))
    ensures Ring(ring[Idx(base, bits) := s], base + 1, if cells == [] then [] else cells[1..], bits)
  {
    IdxFacts(bits);
    IdxPeriodic(base, bits);
    RingBounds(bits);
    WrapDistinct(base, base + Pow2(bits));
  }

  /** The slots of the first `i` cells are emptied, and `flushed` of them held packets. */
  ghost predicate FlushedTo(ring: seq<Slot>, p: int, cells: seq<M.Cell>, i: nat, flushed: nat, bits: nat) {
    && |ring| == Pow2(bits) && Ring(ring, p, Drop(cells, i), bits)
    && flushed == Count(Take(cells, i), M.IsFilled)
  }

  lemma NothingFlushed(ring: seq<Slot>, b: int, cells: seq<M.Cell>, bits: nat)
    requires |ring| == Pow2(bits) && Ring(ring, b, cells, bits)
    ensures FlushedTo(ring, b, cells, 0, 0, bits)
  {
    assert Drop(cells, 0) == cells && Take(cells, 0) == [];
  }

  /** One round of flushing: the head slot is counted if it shows a packet, then emptied. */
  lemma FlushStep(ring: seq<Slot>, p: int, cells: seq<M.Cell>, i: nat, flushed: nat, bits: nat)
    requires 6 <= bits <= 14 && FlushedTo(ring, p, cells, i, flushed, bits)
    ensures var s := ring[Idx(p, bits)];
            FlushedTo(ring[Idx(p, bits) := EMPTY], p + 1, cells, i + 1,
                      flushed + (if s.wire == Wrap(p) && s.state.Filled? then 1 else 0), bits)
  {
    RingAdvanced(ring, p, Drop(cells, i), EMPTY, bits);
    assert Shows(ring[Idx(p, bits)], p, p, Drop(cells, i));
    if i < |cells| {
      assert Drop(cells, i)[0] == cells[i];
      assert Drop(cells, i)[1..] == Drop(cells, i + 1);
      assert Take(cells, i + 1) == Take(cells, i) + [cells[i]];
      CountConcat(Take(cells, i), [cells[i]], M.IsFilled);
    } else {
      assert Take(cells, i + 1) == Take(cells, i);
    }
  }

  /** The occupied slots, counted in slot order, are the filled cells. */
  function CountAround(ring: seq<Slot>, from: int, k: nat, bits: nat): nat
    requires |ring| == Pow2(bits)
    decreases k
  {
    if k == 0 then 0
    else (if Occupied(ring[Idx(from, bits)]) then 1 else 0) + CountAround(ring, from + 1, k - 1, bits)
  }

  lemma {:induction false} CountAroundSnoc(ring: seq<Slot>, from: int, k: nat, bits: nat)
    requires |ring| == Pow2(bits)
    ensures CountAround(ring, from, k + 1, bits)
            == CountAround(ring, from, k, bits) + (if Occupied(ring[Idx(from + k, bits)]) then 1 else 0)
    decreases k
  {
    if k > 0 {
      CountAroundSnoc(ring, from + 1, k - 1, bits);
    }
  }

  lemma CountAroundNext(ring: seq<Slot>, from: int, bits: nat)
    requires |ring| == Pow2(bits)
    ensures CountAround(ring, from, Pow2(bits), bits) == CountAround(ring, from + 1, Pow2(bits), bits)
  {
    CountAroundSnoc(ring, from + 1, Pow2(bits) - 1, bits);
    IdxPeriodic(from, bits);
  }

  lemma {:induction false} CountAroundShift(ring: seq<Slot>, from: int, bits: nat)
    requires |ring| == Pow2(bits)
    ensures CountAround(ring, from, Pow2(bits), bits) == CountAround(ring, 0, Pow2(bits), bits)
    decreases if from < 0 then -from else from
  {
    if from != 0 {
      var near := if from > 0 then from - 1 else from + 1;
      CountAroundNext(ring, if from > 0 then near else from, bits);
      CountAroundShift(ring, near, bits);
    }
  }

  lemma {:induction false} CountAroundZero(ring: seq<Slot>, k: nat, bits: nat)
    requires |ring| == Pow2(bits) && k <= Pow2(bits)
    ensures CountAround(ring, k, Pow2(bits) - k, bits) == Count(ring[k..], Occupied)
    decreases Pow2(bits) - k
  {
    if k < Pow2(bits) {
      CountAroundZero(ring, k + 1, bits);
      assert ring[k..][1..] == ring[k + 1..];
      IdxSmall(k, bits);
    }
  }

  lemma {:induction false} CountAroundCells(ring: seq<Slot>, base: int, cells: seq<M.Cell>, k: nat, bits: nat)
    requires |ring| == Pow2(bits) && Ring(ring, base, cells, bits) && k <= Pow2(bits)
    ensures CountAround(ring, base + k, Pow2(bits) - k, bits)
            == (if k < |cells| then Count(cells[k..], M.IsFilled) else 0)
    decreases Pow2(bits) - k
  {
    if k < Pow2(bits) {
      CountAroundCells(ring, base, cells, k + 1, bits);
      assert Shows(ring[Idx(base + k, bits)], base + k, base, cells);
      if k < |cells| {
        assert cells[k..][1..] == cells[k + 1..];
      }
    }
  }

  lemma OccupiedAreFilled(ring: seq<Slot>, base: int, cells: seq<M.Cell>, bits: nat)
    requires |ring| == Pow2(bits) && Ring(ring, base, cells, bits)
    ensures Count(ring, Occupied) == Count(cells, M.IsFilled)
  {
    CountAroundCells(ring, base, cells, 0, bits);
    CountAroundShift(ring, base, bits);
    CountAroundZero(ring, 0, bits);
    assert ring[0..] == ring && cells[0..] == cells;
  }

  // ---- marking gaps ----

  /** After marking `lo + 1 .. n - 1`, the last ring's worth own their slots; the rest is untouched. */
  ghost predicate Marked(before: seq<Slot>, after: seq<Slot>, lo: int, n: int, now: nat, bits: nat)
    requires |before| == |after| == Pow2(bits)
  {
    && (forall m {:trigger Idx(m, bits)} :: lo < m < n && n - Pow2(bits) <= m ==>
          after[Idx(m, bits)] == Slot(Wrap(m), Gap(now)))
    && (forall m {:trigger Idx(m, bits)} :: n <= m <= lo + Pow2(bits) ==> after[Idx(m, bits)] == before[Idx(m, bits)])
  }

  /** No slot already shows the number of a gap about to be marked. */
  ghost predicate Unmarked(ring: seq<Slot>, lo: int, n: int, bits: nat)
    requires |ring| == Pow2(bits)
  {
    forall m {:trigger Idx(m, bits)} :: lo < m < n && m <= lo + Pow2(bits) ==>
      ring[Idx(m, bits)].state.Empty? || ring[Idx(m, bits)].wire != Wrap(m)
  }

  /** The slot of the next gap is always due for replacement. */
  lemma NextGapIsFree(before: seq<Slot>, ring: seq<Slot>, lo: int, g: int, n: int, now: nat, bits: nat)
    requires 6 <= bits <= 14 && |before| == |ring| == Pow2(bits) && lo < g < n
    requires Unmarked(before, lo, n, bits) && Marked(before, ring, lo, g, now, bits)
    ensures ring[Idx(g, bits)].state.Empty? || ring[Idx(g, bits)].wire != Wrap(g)
  {
    if g > lo + Pow2(bits) {
      RingBounds(bits);
      var p := g - Pow2(bits);
      IdxPeriodic(p, bits);
      assert p + Pow2(bits) == g;
      assert ring[Idx(p, bits)] == Slot(Wrap(p), Gap(now));
      WrapDistinct(p, g);
    } else {
      assert ring[Idx(g, bits)] == before[Idx(g, bits)];
    }
  }

  /** Marking one more gap. */
  lemma MarkStep(before: seq<Slot>, ring: seq<Slot>, lo: int, g: int, now: nat, bits: nat)
    requires |before| == |ring| == Pow2(bits) && lo < g
    requires Marked(before, ring, lo, g, now, bits)
    ensures Marked(before, ring[Idx(g, bits) := Slot(Wrap(g), Gap(now))], lo, g + 1, now, bits)
  {
    var ring' := ring[Idx(g, bits) := Slot(Wrap(g), Gap(now))];
    forall m {:trigger Idx(m, bits)} | lo < m < g + 1 && g + 1 - Pow2(bits) <= m
      ensures ring'[Idx(m, bits)] == Slot(Wrap(m), Gap(now))
    {
      if m < g {
        IdxDistinct(m, g, bits);
        assert ring[Idx(m, bits)] == Slot(Wrap(m), Gap(now));
      }
    }
    forall m {:trigger Idx(m, bits)} | g + 1 <= m <= lo + Pow2(bits)
      ensures ring'[Idx(m, bits)] == before[Idx(m, bits)]
    {
      IdxDistinct(g, m, bits);
    }
  }

  lemma CellAt(cells: seq<M.Cell>, k: nat, now: nat, last: M.Cell, i: nat)
    requires i <= |cells| + k
    ensures (cells + M.Gaps(k, now) + [last])[i]
            == if i < |cells| then cells[i] else if i < |cells| + k then M.Gap(now) else last
  {
  }

  /** Marking leaves the slots of the window below alone, for each is a ring below one above `n`. */
  lemma MarkedLeaves(before: seq<Slot>, after: seq<Slot>, lo: int, n: int, m: int, s: Slot, now: nat, bits: nat)
    requires |before| == |after| == Pow2(bits) && m <= lo < n < m + Pow2(bits)
    requires Marked(before[Idx(n, bits) := s], after, lo, n, now, bits)
    ensures after[Idx(m, bits)] == before[Idx(m, bits)]
  {
    IdxPeriodic(m, bits);
    IdxDistinct(m, n, bits);
    assert after[Idx(m + Pow2(bits), bits)] == before[Idx(m, bits)];
  }

  /** The window grows to `n`: everything between becomes a gap. */
  lemma MarkedExtends(before: seq<Slot>, after: seq<Slot>, base: int, cells: seq<M.Cell>,
                      n: int, data: Bytes, now: nat, bits: nat)
    requires |before| == |after| == Pow2(bits) && Ring(before, base, cells, bits)
    requires base + |cells| <= n < base + Pow2(bits)
    requires Marked(before[Idx(n, bits) := Slot(Wrap(n), Filled(data, now))], after, base + |cells| - 1, n, now, bits)
    ensures Ring(after, base, cells + M.Gaps(n - base - |cells|, now) + [M.Filled(data, now)], bits)
  {
    var lo := base + |cells| - 1;
    var all := cells + M.Gaps(n - base - |cells|, now) + [M.Filled(data, now)];
    forall m {:trigger Idx(m, bits)} | base <= m < base + Pow2(bits)
      ensures Shows(after[Idx(m, bits)], m, base, all)
    {
      if m <= n {
        CellAt(cells, n - base - |cells|, now, M.Filled(data, now), m - base);
      }
      if m <= lo {
        MarkedLeaves(before, after, lo, n, m, Slot(Wrap(n), Filled(data, now)), now, bits);
        assert Shows(before[Idx(m, bits)], m, base, cells);
      } else if m > n {
        IdxDistinct(n, m, bits);
        assert Shows(before[Idx(m, bits)], m, base, cells);
      }
    }
  }

  /** A drained window overrun by less than two rings: the gaps lap the packet just stored. */
  lemma MarkedLaps(before: seq<Slot>, after: seq<Slot>, lo: int, n: int, now: nat, bits: nat)
    requires 6 <= bits <= 14 && |before| == |after| == Pow2(bits) && lo + Pow2(bits) < n
    requires Marked(before, after, lo, n, now, bits)
    ensures Ring(after, n - Pow2(bits) + 1, M.Gaps(Pow2(bits) - 1, now) + [M.Lapped], bits)
  {
    var base, cells := n - Pow2(bits) + 1, M.Gaps(Pow2(bits) - 1, now) + [M.Lapped];
    RingBounds(bits);
    forall m {:trigger Idx(m, bits)} | base <= m < base + Pow2(bits)
      ensures Shows(after[Idx(m, bits)], m, base, cells)
    {
      if m == n {
        var p := n - Pow2(bits);
        IdxPeriodic(p, bits);
        assert p + Pow2(bits) == n;
        assert after[Idx(p, bits)] == Slot(Wrap(p), Gap(now));
        WrapDistinct(p, n);
        assert cells[m - base] == M.Lapped;
      } else {
        assert cells[m - base] == M.Gap(now);
      }
    }
  }

  class ReorderBuffer {
    const slots: array<Slot>
    const capacity: int
    const bits: nat
    const bufferTime: nat
    var baseSeq: Option<U16>
    var highestSeq: Option<U16>
    ghost var window: M.Window

    predicate Sized() {
      capacity == Pow2(bits) && 6 <= bits <= 14 && slots.Length == capacity
    }

    ghost predicate Valid()
      reads this, slots
    {
      && Sized()
      && match window
         case Fresh =>
           baseSeq.None? && highestSeq.None? && AllEmpty(slots[..])
         case Window(base, cells) =>
           && baseSeq == Some(Wrap(base)) && highestSeq == Some(Wrap(base + |cells| - 1))
           && Ring(slots[..], base, cells, bits)
    }

    /** Rounded up to a power of two and to at least 64. The ring works for requests of up to 16384 slots. */
    constructor (bufferTime: nat, requested: nat)
      ensures fresh(slots) && (requested <= 16384 ==> Valid())
      ensures window == M.Fresh && this.bufferTime == bufferTime
      ensures capacity >= requested && capacity >= 64 && (capacity > 64 ==> capacity < 2 * requested)
    {
      var r := RingBits(requested);
      if requested <= 16384 {
        RingBitsSmall(requested);
      }
      bits := if r < 6 then 6 else r;
      capacity := Pow2(if r < 6 then 6 else r);
      slots := new Slot[Pow2(if r < 6 then 6 else r)](_ => EMPTY);
      this.bufferTime := bufferTime;
      baseSeq, highestSeq, window := None, None, M.Fresh;
      new;
      assert Pow2(6) == 64;
      if r < 6 {
        Pow2Monotone(r, 6);
      } else {
        Pow2Monotone(6, r);
      }
    }

    /** Inserting is what the queue does for the number nearest the base, outcome included. */
    method Insert(wire: U16, data: Bytes, now: nat, ghost start: int) returns (o: M.Outcome)
      requires Valid() && Wrap(start) == wire
      modifies this, slots
      ensures Valid()
      ensures (window, o) == M.Insert(old(window), Number(old(window), wire, start), data, now, capacity)
    {
      ghost var n := Number(window, wire, start);
      if baseSeq.None? || highestSeq.None? {
        Restart(wire, data, now, n);
        return M.PLAIN;
      }
      UnwrapIsNearest(window.base, wire, n);
      o := InsertNear(baseSeq.value, highestSeq.value, wire, data, now, n);
    }

    /** Inserting into a window under a number within half the space of its base. */
    method InsertNear(base: U16, highest: U16, wire: U16, data: Bytes, now: nat, ghost n: int) returns (o: M.Outcome)
      requires Valid() && window.Window? && baseSeq == Some(base) && highestSeq == Some(highest)
      requires wire == Wrap(n) && -0x8000 <= n - window.base < 0x8000
      modifies this, slots
      ensures Valid() && Inserts(old(window), n, data, now, Pow2(bits), window, o)
    {
      ghost var b, cells, lo := window.base, window.cells, window.base + |window.cells| - 1;
      DiffOfWires(wire, n, base, b);
      var fromBase := SignedDiff(wire, base);
      if fromBase < 0 {
        return M.PLAIN.(stale := true);
      }
      RingBounds(bits);
      if fromBase > capacity - 1 {
        var flushed, restarted := MakeRoom(base, highest, fromBase, wire, data, now, n);
        if restarted {
          return M.PLAIN.(flushed := flushed);
        }
        o := Settle(highest, wire, data, now, flushed, n, n - (Pow2(bits) - 1), lo);
      } else {
        NothingFlushed(slots[..], b, cells, bits);
        o := Settle(highest, wire, data, now, 0, n, b, lo);
      }
    }

    /** With room made, store the packet and take note of the new window. */
    method Settle(highest: U16, wire: U16, data: Bytes, now: nat, flushed: nat,
                  ghost n: int, ghost b: int, ghost lo: int) returns (o: M.Outcome)
      requires Sized() && window.Window? && Roomy(window, n, b, Pow2(bits))
      requires FlushedTo(slots[..], b, window.cells, b - window.base, flushed, bits)
      requires baseSeq == Some(Wrap(b)) && wire == Wrap(n)
      requires highestSeq == Some(highest) && highest == Wrap(lo) && lo == window.base + |window.cells| - 1
      modifies this, slots
      ensures Valid() && Inserts(old(window), n, data, now, Pow2(bits), window, o)
    {
      ghost var cells := Drop(window.cells, b - window.base);
      RoomFor(window, n, b, bits);
      o := Store(wire, highest, data, now, n, b, cells, lo);
      o := o.(flushed := flushed);
      StoredIsInserted(window, n, data, now, b, Pow2(bits));
      window := Stored(b, cells, n, data, now, lo, Pow2(bits)).0;
    }

    /** The packet lies beyond the ring: flush the oldest, or everything if that is not enough. */
    method MakeRoom(base: U16, highest: U16, fromBase: int, wire: U16, data: Bytes, now: nat, ghost n: int)
      returns (flushed: nat, restarted: bool)
      requires Valid() && window.Window? && wire == Wrap(n)
      requires baseSeq == Some(base) && highestSeq == Some(highest)
      requires fromBase == n - window.base && capacity <= fromBase < 0x8000
      modifies this, slots
      ensures restarted ==>
                Valid() && Inserts(old(window), n, data, now, Pow2(bits), window, M.PLAIN.(flushed := flushed))
      ensures !restarted ==>
                var b := n - (Pow2(bits) - 1);
                && window == old(window) && highestSeq == old(highestSeq) && baseSeq == Some(Wrap(b))
                && Roomy(window, n, b, Pow2(bits))
                && FlushedTo(slots[..], b, window.cells, b - window.base, flushed, bits)
    {
      var advance := fromBase - (capacity - 1);
      ghost var b := n - (Pow2(bits) - 1);
      var newBase := WrappingAdd(base, advance);
      WrapOfNext(base, window.base, advance, b);
      var highestOffset := WrappingSub(highest, base);
      RingBounds(bits);
      OffsetOfHighest(highest, base, window.base, |window.cells|);
      restarted := advance >= capacity || highestOffset < advance;
      OverflowTest(window, n, highestOffset, advance, Pow2(bits));
      if restarted {
        flushed := StartOver(wire, data, now, n);
      } else {
        flushed := FlushOldest(base, advance, window.base, window.cells, b);
        baseSeq := Some(newBase);
      }
    }

    /** Nothing held is worth keeping: flush it all and begin again with this packet. */
    method StartOver(wire: U16, data: Bytes, now: nat, ghost n: int) returns (flushed: nat)
      requires Valid() && window.Window? && wire == Wrap(n) && Hopeless(window, n, Pow2(bits))
      modifies this, slots
      ensures Valid() && Inserts(old(window), n, data, now, Pow2(bits), window, M.PLAIN.(flushed := flushed))
    {
      OccupiedAreFilled(slots[..], window.base, window.cells, bits);
      RestartIsInsert(window, n, data, now, Pow2(bits));
      flushed := FlushAll();
      Restart(wire, data, now, n);
    }

    /** Start a new window at `wire` in an empty ring. */
    method Restart(wire: U16, data: Bytes, now: nat, ghost n: int)
      requires Sized() && wire == Wrap(n) && AllEmpty(slots[..])
      modifies this, slots
      ensures Valid() && window == M.Window(n, [M.Filled(data, now)])
    {
      ghost var ring := slots[..];
      IdxOfWrap(n, bits);
      slots[Idx(wire, bits)] := Slot(wire, Filled(data, now));
      baseSeq, highestSeq := Some(wire), Some(wire);
      window := M.Window(n, [M.Filled(data, now)]);
      EmptyRing(ring, n, bits);
      RingStored(ring, n, [], n, M.Filled(data, now), Slot(wire, Filled(data, now)), bits);
      assert slots[..] == ring[Idx(n, bits) := Slot(wire, Filled(data, now))];
      assert [] + [M.Filled(data, now)] == [M.Filled(data, now)];
    }

    /** Empty every slot, counting the packets thrown away. */
    method FlushAll() returns (flushed: nat)
      requires Sized()
      modifies slots
      ensures flushed == Count(old(slots[..]), Occupied)
      ensures AllEmpty(slots[..])
    {
      flushed := 0;
      ghost var ring := slots[..];
      for i := 0 to capacity
        invariant slots[i..] == ring[i..]
        invariant forall j :: 0 <= j < i ==> slots[j] == EMPTY
        invariant flushed == Count(ring[..i], Occupied)
      {
        CountSplit(ring[..i + 1], i, Occupied);
        assert ring[..i + 1][..i] == ring[..i] && ring[..i + 1][i..] == [ring[i]];
        assert slots[i] == slots[i..][0];
        if slots[i].state.Filled? {
          flushed := flushed + 1;
        }
        slots[i] := EMPTY;
      }
      assert ring[..capacity] == ring;
    }

    /** Empty the slots of `b .. b + advance - 1`, counting the packets thrown away. */
    method FlushOldest(base: U16, advance: U16, ghost b: int, ghost cells: seq<M.Cell>, ghost end: int)
      returns (flushed: nat)
      requires Sized()
      requires base == Wrap(b) && Ring(slots[..], b, cells, bits) && end == b + advance
      modifies slots
      ensures FlushedTo(slots[..], end, cells, advance, flushed, bits)
    {
      flushed := 0;
      NothingFlushed(slots[..], b, cells, bits);
      ghost var p := b;
      for i := 0 to advance
        invariant p == b + i && FlushedTo(slots[..], p, cells, i, flushed, bits)
      {
        var s := WrappingAdd(base, i);
        WrapOfNext(base, b, i, p);
        flushed := FlushSlot(s, flushed, p, cells, i);
        p := p + 1;
      }
      assert p == end;
    }

    /** Empty the slot of `p`, counting the packet it holds under that number. */
    method FlushSlot(s: U16, flushed: nat, ghost p: int, ghost cells: seq<M.Cell>, ghost i: nat) returns (flushed': nat)
      requires Sized() && s == Wrap(p) && FlushedTo(slots[..], p, cells, i, flushed, bits)
      modifies slots
      ensures FlushedTo(slots[..], p + 1, cells, i + 1, flushed', bits)
    {
      ghost var ring := slots[..];
      FlushStep(ring, p, cells, i, flushed, bits);
      IdxOfWrap(p, bits);
      var k := Idx(s, bits);
      flushed' := if slots[k].wire == s && slots[k].state.Filled? then flushed + 1 else flushed;
      slots[k] := EMPTY;
      assert slots[..] == ring[Idx(p, bits) := EMPTY];
    }

    /**
     Put the packet into its slot and mark every number it jumped over. `lo` is the
     highest number so far; on a drained window that overflowed it lies below `b - 1`.
     */
    method Store(wire: U16, highest: U16, data: Bytes, now: nat,
                 ghost n: int, ghost b: int, ghost cells: seq<M.Cell>, ghost lo: int) returns (o: M.Outcome)
      requires Sized()
      requires wire == Wrap(n) && highest == Wrap(lo) && highestSeq == Some(highest)
      requires Ring(slots[..], b, cells, bits) && Admits(lo, b, |cells|, n, Pow2(bits))
      modifies slots, `highestSeq
      ensures var r := Stored(b, cells, n, data, now, lo, Pow2(bits));
              r.1 == o && highestSeq == Some(Wrap(b + |r.0.cells| - 1)) && Ring(slots[..], b, r.0.cells, bits)
    {
      RingBounds(bits);
      DiffOfWires(wire, n, highest, lo);
      ghost var ring, arrived := slots[..], Slot(wire, Filled(data, now));
      assert Shows(ring[Idx(n, bits)], n, b, cells);
      o := PutSlot(wire, data, now, n);
      if o.duplicate {
        return;
      }
      ghost var stored := slots[..];
      var diff := SignedDiff(wire, highest);
      if diff > 0 {
        GapsAreFree(ring, b, cells, lo, n, arrived, bits);
        var marked := MarkGaps(highest, wire, now, lo, n);
        o := o.(newGaps := marked);
        highestSeq := Some(wire);
        if lo == b + |cells| - 1 {
          MarkedExtends(ring, slots[..], b, cells, n, data, now, bits);
        } else {
          MarkedLaps(stored, slots[..], lo, n, now, bits);
        }
      } else {
        RingStored(ring, b, cells, n, M.Filled(data, now), arrived, bits);
      }
    }

    /** Fill the slot of `n`, unless it holds that packet already. */
    method PutSlot(wire: U16, data: Bytes, now: nat, ghost n: int) returns (o: M.Outcome)
      requires Sized() && wire == Wrap(n)
      modifies slots
      ensures var was := old(slots[..])[Idx(n, bits)];
              && o == M.PLAIN.(duplicate := was.wire == wire && was.state.Filled?,
                               recovered := was.wire == wire && was.state.Gap?)
              && slots[..] == if o.duplicate then old(slots[..])
                              else old(slots[..])[Idx(n, bits) := Slot(wire, Filled(data, now))]
    {
      o := M.PLAIN;
      IdxOfWrap(n, bits);
      var idx := Idx(wire, bits);
      if slots[idx].wire == wire {
        match slots[idx].state {
          case Filled(_, _) =>
            return o.(duplicate := true);
          case Gap(_) =>
            o := o.(recovered := true);
            slots[idx] := Slot(slots[idx].wire, Filled(data, now));
          case Empty =>
            slots[idx] := Slot(slots[idx].wire, Filled(data, now));
        }
      } else {
        slots[idx] := Slot(wire, Filled(data, now));
      }
    }

    /** Mark `lo + 1 .. n - 1` as noticed gaps. */
    method MarkGaps(highest: U16, wire: U16, now: nat, ghost lo: int, ghost n: int) returns (marked: nat)
      requires Sized()
      requires highest == Wrap(lo) && wire == Wrap(n) && lo < n < lo + 0x8000
      requires Unmarked(slots[..], lo, n, bits)
      modifies slots
      ensures marked == n - lo - 1
      ensures Marked(old(slots[..]), slots[..], lo, n, now, bits)
    {
      marked := 0;
      DiffOfWires(wire, n, highest, lo);
      var diff := SignedDiff(wire, highest);
      ghost var before, ring, g := slots[..], slots[..], lo + 1;
      for i := 1 to diff + 1
        invariant slots[..] == ring && |ring| == Pow2(bits)
        invariant g == (if i <= diff then lo + i else n) && marked == g - lo - 1
        invariant Marked(before, ring, lo, g, now, bits)
      {
        var gap := WrappingAdd(highest, i);
        WrapOfNext(highest, lo, i, g);
        WrapDistinct(g, n);
        if gap != wire {
          IdxOfWrap(g, bits);
          var k := Idx(gap, bits);
          assert k == Idx(g, bits);
          NextGapIsFree(before, ring, lo, g, n, now, bits);
          MarkStep(before, ring, lo, g, now, bits);
          if slots[k].state.Empty? || slots[k].wire != gap {
            slots[k] := Slot(gap, Gap(now));
            marked := marked + 1;
          }
          ring, g := ring[k := Slot(gap, Gap(now))], g + 1;
        }
      }
    }

    /** Draining is what the queue does, item for item. */
    method DrainReady(now: nat, out: seq<DrainItem>) returns (out': seq<DrainItem>)
      requires Valid()
      modifies this, slots
      ensures Valid()
      ensures window == M.Drain(old(window), now, bufferTime).0
      ensures out' == out + ToWireAll(M.Drain(old(window), now, bufferTime).1)
    {
      out' := out;
      ghost var done: seq<M.Item> := [];
      assert out == out + ToWireAll(done);
      while true
        invariant Valid()
        invariant out' == out + ToWireAll(done)
        invariant M.Drain(old(window), now, bufferTime).0 == M.Drain(window, now, bufferTime).0
        invariant M.Drain(old(window), now, bufferTime).1 == done + M.Drain(window, now, bufferTime).1
        decreases if window.Fresh? then 0 else |window.cells|
      {
        ghost var w := window;
        var item := DrainHead(now);
        if item.None? {
          return;
        }
        out' := out' + [item.value];
        ghost var head := M.ItemOf(w.cells[0], w.base);
        assert ToWireAll(done + [head]) == ToWireAll(done) + [ToWire(head)];
        done := done + [head];
      }
    }

    /**
     One round of the drain loop. A non-empty window never shows an empty head slot, and
     shows a foreign number in it only when the head was lapped.
     */
    method DrainHead(now: nat) returns (item: Option<DrainItem>)
      requires Valid()
      modifies this, slots
      ensures Valid()
      ensures item.None? ==> window == old(window)
      ensures item.None?
              <==> old(window).Fresh? || old(window.cells) == [] || !M.Due(old(window.cells)[0], now, bufferTime)
      ensures item.Some? ==>
                && old(window).Window? && old(window.cells) != []
                && item.value == ToWire(M.ItemOf(old(window.cells)[0], old(window.base)))
                && window == M.Window(old(window.base) + 1, old(window.cells)[1..])
    {
      if baseSeq.None? || highestSeq.None? {
        return None;
      }
      var base := baseSeq.value;
      ghost var b, cells, ring := window.base, window.cells, slots[..];
      RingBounds(bits);
      SignedDiffOfNear(b, b + |cells| - 1);
      if SignedDiff(base, highestSeq.value) > 0 {
        return None;
      }
      IdxOfWrap(b, bits);
      var idx := Idx(base, bits);
      assert idx == Idx(b, bits) && Shows(ring[idx], b, b, cells);
      var slot := slots[idx];
      var cleared := EMPTY;
      item := Some(Lost);
      if slot.wire == base {
        var stamp := 0;
        match slot.state {
          case Filled(data, arrival) =>
            item, stamp := Some(Delivered(data, base, arrival)), arrival;
          case Gap(noticed) =>
            stamp := noticed;
          case Empty =>
            assert false;
        }
        if !M.Aged(stamp, now, bufferTime) {
          return None;
        }
        cleared := slot.(state := Empty);
      }
      slots[idx] := cleared;
      WrapOfNext(base, b, 1, b + 1);
      baseSeq := Some(WrappingAdd(base, 1));
      window := M.Window(b + 1, cells[1..]);
      RingAdvanced(ring, b, cells, cleared, bits);
      assert slots[..] == ring[idx := cleared];
      assert b + |cells| - 1 == window.base + |window.cells| - 1;
    }

    /**
     The wake-up time. It tells the truth about every later drain unless the window is drained; a
     drained window answers "now", wrongly, except where the next number is sent as 0 and its slot
     has been wiped.
     */
    method NextDrainTime(now: nat) returns (r: Option<nat>)
      requires Valid()
      ensures M.StampedBy(window, now) ==>
                (TellsTruth(window, r, now, bufferTime)
                 <==> (Drained(window) ==> Wrap(window.base) == 0 && slots[Idx(window.base, bits)] == EMPTY))
      ensures Drained(window) && Wrap(window.base) != 0 ==> r == Some(now)
      ensures window.Window? && window.cells != [] && !window.cells[0].Lapped? ==>
                r == Some(M.Deadline(window.cells[0], bufferTime))
    {
      if baseSeq.None? {
        r := None;
      } else {
        IdxOfWrap(window.base, bits);
        var slot := slots[Idx(baseSeq.value, bits)];
        assert Shows(slot, window.base, window.base, window.cells);
        if slot.wire != baseSeq.value {
          r := Some(now);
        } else {
          r := match slot.state
            case Filled(_, arrival) => Some(arrival + bufferTime)
            case Gap(noticed) => Some(noticed + bufferTime)
            case Empty => None;
        }
      }
      if M.StampedBy(window, now) {
        WakeTruth(window, r, now, bufferTime);
      }
    }
  }

  /** What the window becomes once a packet has been stored and the jump below it marked. */
  function Stored(b: int, cells: seq<M.Cell>, n: int, data: Bytes, now: nat, lo: int, cap: int)
    : (r: (M.Window, M.Outcome))
    requires b <= n && cap > 0 && (lo == b + |cells| - 1 || lo < n)
    ensures r.0.Window? && r.0.base == b
  {
    if lo == b + |cells| - 1 then M.Place(b, cells, n, data, now, 0)
    else (M.Window(b, M.Gaps(cap - 1, now) + [M.Lapped]), M.PLAIN.(newGaps := n - lo - 1))
  }

  ghost predicate Inserts(w: M.Window, n: int, data: Bytes, now: nat, cap: nat, w': M.Window, o: M.Outcome) {
    cap > 0 && (w', o) == M.Insert(w, n, data, now, cap)
  }

  /** The window moves up to `b`, just far enough for `n`, without leaving everything behind. */
  ghost predicate Roomy(w: M.Window, n: int, b: int, cap: int)
    requires w.Window?
  {
    && w.base <= n && b == (if n - w.base < cap then w.base else n - (cap - 1))
    && 0 <= b - w.base < cap && |w.cells| <= cap && (b == w.base || w.cells == [] || b - w.base < |w.cells|)
  }

  /** `n` is inside the ring at `b`; only an overflow of a drained window leaves `lo` below its usual place. */
  ghost predicate Admits(lo: int, b: int, k: nat, n: int, cap: int) {
    && b <= n < b + cap
    && (lo == b + k - 1 || (k == 0 && lo < b - 1 && n == b + cap - 1 && n < lo + 0x8000))
  }

  lemma RoomFor(w: M.Window, n: int, b: int, bits: nat)
    requires 6 <= bits <= 14 && w.Window? && Roomy(w, n, b, Pow2(bits))
    ensures Admits(w.base + |w.cells| - 1, b, |Drop(w.cells, b - w.base)|, n, Pow2(bits))
  {
    RingBounds(bits);
  }

  /** Making room and storing is inserting. */
  lemma StoredIsInserted(w: M.Window, n: int, data: Bytes, now: nat, b: int, cap: int)
    requires w.Window? && Roomy(w, n, b, cap)
    ensures var r := Stored(b, Drop(w.cells, b - w.base), n, data, now, w.base + |w.cells| - 1, cap);
            Inserts(w, n, data, now, cap, r.0, r.1.(flushed := Count(Take(w.cells, b - w.base), M.IsFilled)))
  {
  }

  /** `n` overflows the ring so far that nothing of the window would stay. */
  ghost predicate Hopeless(w: M.Window, n: int, cap: int)
    requires w.Window?
  {
    var advance := n - w.base - (cap - 1);
    0 < cap <= n - w.base && (advance >= cap || (w.cells != [] && |w.cells| <= advance))
  }

  /** The code's test for starting over, and what holds when it fails. */
  lemma OverflowTest(w: M.Window, n: int, highestOffset: U16, advance: int, cap: int)
    requires w.Window? && 0 < cap <= n - w.base < 0x8000 && |w.cells| <= cap && advance == n - w.base - (cap - 1)
    requires highestOffset == if w.cells == [] then 0xFFFF else |w.cells| - 1
    ensures (advance >= cap || highestOffset < advance) <==> Hopeless(w, n, cap)
    ensures !Hopeless(w, n, cap) ==> Roomy(w, n, n - (cap - 1), cap)
  {
  }

  lemma RestartIsInsert(w: M.Window, n: int, data: Bytes, now: nat, cap: int)
    requires w.Window? && Hopeless(w, n, cap)
    ensures Inserts(w, n, data, now, cap, M.Window(n, [M.Filled(data, now)]),
                    M.PLAIN.(flushed := Count(w.cells, M.IsFilled)))
  {
  }

  /** `highest - base` in 16 bits: 65535 on a drained window. */
  lemma OffsetOfHighest(highest: U16, base: U16, b: int, k: nat)
    requires k <= 0x1_0000 && base == Wrap(b) && highest == Wrap(b + k - 1)
    ensures WrappingSub(highest, base) == if k == 0 then 0xFFFF else k - 1
  {
  }

  ghost predicate Drained(w: M.Window) {
    w.Window? && w.cells == []
  }

  /** From `now` on, a drain yields output exactly from the answered time onwards. */
  ghost predicate TellsTruth(w: M.Window, r: Option<nat>, now: nat, hold: nat) {
    forall t: nat :: t >= now ==> (M.Drain(w, t, hold).1 != [] <==> r.Some? && t >= r.value)
  }

  lemma WakeTruth(w: M.Window, r: Option<nat>, now: nat, hold: nat)
    requires M.StampedBy(w, now)
    requires w.Window? && w.cells != [] && !w.cells[0].Lapped? ==> r == Some(M.Deadline(w.cells[0], hold))
    requires w.Window? && w.cells != [] && w.cells[0].Lapped? ==> r == Some(now)
    requires w.Window? && w.cells == [] && r.Some? ==> r == Some(now)
    requires w.Fresh? ==> r.None?
    ensures TellsTruth(w, r, now, hold) <==> (w.Window? && w.cells == [] ==> r.None?)
  {
    if w.Window? && w.cells == [] && r.Some? {
      assert M.Drain(w, now, hold).1 == [];
    } else if w.Window? && w.cells != [] && !w.cells[0].Lapped? {
      forall t: nat | t >= now
        ensures M.Drain(w, t, hold).1 != [] <==> t >= r.value
      {
        M.DeadlineIsExact(w, t, hold);
      }
    }
  }

  lemma RingBitsSmall(requested: nat)
    requires requested <= 16384
    ensures RingBits(requested) <= 14
  {
    var r := RingBits(requested);
    Pow2Of14(14);
    if r > 14 {
      Pow2Monotone(14, r - 1);
      assert false;
    }
  }

  lemma Pow2Of14(bits: nat)
    requires bits == 14
    ensures Pow2(bits) == 16384
  {
    assert Pow2(5) == 32;
    assert Pow2(10) == 1024;
    assert Pow2(14) == 16384;
  }

  /**
   A packet above a drained window is seen to be ahead of the highest number exactly when it is less
   than 32767 ahead of the base. A ring of 32768 slots admits one more: there the distance reads as
   -32768, nothing is marked and the highest number does not move.
   */
  lemma JumpIsSeenIff(base: int, n: int)
    requires base <= n <= base + 0x7FFF
    ensures SignedDiff(Wrap(n), Wrap(base - 1)) == (if n == base + 0x7FFF then -0x8000 else n - base + 1)
  {
    if n < base + 0x7FFF {
      SignedDiffOfNear(n, base - 1);
    } else {
      UnwrapIsNearest(base - 1, Wrap(n), n - 0x1_0000);
    }
  }

  /** Every slot of a ring with an empty window is empty, whatever number it is looked up for. */
  lemma DrainedIsEmpty(ring: seq<Slot>, b: int, n: int, bits: nat)
    requires |ring| == Pow2(bits) && Ring(ring, b, [], bits)
    ensures ring[Idx(n, bits)].state.Empty?
  {
    IdxOwner(n, b, bits);
    var m := b + Idx(n - b, bits);
    assert Idx(m, bits) == Idx(n, bits);
  }

  /** Between the highest number and a new one, no slot shows a gap's own number yet. */
  lemma GapsAreFree(ring: seq<Slot>, b: int, cells: seq<M.Cell>, lo: int, n: int, s: Slot, bits: nat)
    requires 6 <= bits <= 14 && |ring| == Pow2(bits) && Ring(ring, b, cells, bits)
    requires b <= n < b + Pow2(bits) && s.wire == Wrap(n) && lo < n < lo + 0x8000
    requires lo == b + |cells| - 1 || (cells == [] && lo < b - 1)
    ensures Unmarked(ring[Idx(n, bits) := s], lo, n, bits)
  {
    RingBounds(bits);
    forall m {:trigger Idx(m, bits)} | lo < m < n && m <= lo + Pow2(bits)
      ensures var slot := ring[Idx(n, bits) := s][Idx(m, bits)];
              slot.state.Empty? || slot.wire != Wrap(m)
    {
      WrapDistinct(m, n);
      if cells == [] {
        DrainedIsEmpty(ring, b, m, bits);
      }
    }
  }

  /**
   A buffer that answers wrongly, reached from the constructor: one packet arrives and is drained.
   Whatever its number, unless the next one is sent as 0, the buffer then says that it can be
   drained now, although no drain yields anything however long one waits.
   */
  method DrainedBufferSpins(wire: U16, data: Bytes, arrived: nat, hold: nat)
    returns (buffer: ReorderBuffer, items: seq<DrainItem>, answer: Option<nat>)
    ensures buffer.Valid() && Drained(buffer.window) && items == [Delivered(data, wire, arrived)]
    ensures wire != 0xFFFF ==>
              && answer == Some(arrived + hold)
              && (forall t: nat :: M.Drain(buffer.window, t, hold).1 == [])
              && !TellsTruth(buffer.window, answer, arrived + hold, hold)
  {
    buffer := new ReorderBuffer(hold, 64);
    var _ := buffer.Insert(wire, data, arrived, wire);
    M.DrainOne(wire, data, arrived, hold);
    items := buffer.DrainReady(arrived + hold, []);
    assert ToWireAll([M.Delivered(wire, data, arrived)]) == [Delivered(data, wire, arrived)];
    answer := buffer.NextDrainTime(arrived + hold);
  }
}
