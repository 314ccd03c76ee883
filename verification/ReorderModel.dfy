/**
 The reorder buffer without its ring: a queue of cells for the unwrapped numbers
 `base, base + 1, ...`, with no slots, no 16-bit arithmetic and no aliasing.

 A cell is `Lapped` when the ring slot of its number holds another number. The
 ring gets into that state in one way only (`OwnsItsWindow`: by a `DrainedOverflow`),
 so the queue describes the ring in every reachable state.
 */
module ReorderModel {
  import opened Seq16
  import opened Sequences

  datatype Cell = Filled(data: Bytes, arrival: nat) | Gap(noticed: nat) | Lapped

  datatype Window = Fresh | Window(base: int, cells: seq<Cell>)

  datatype Outcome = Outcome(stale: bool, duplicate: bool, recovered: bool, newGaps: nat, flushed: nat)

  datatype Item = Delivered(n: int, data: Bytes, arrival: nat) | Lost(n: int)

  const PLAIN := Outcome(false, false, false, 0, 0)

  predicate IsFilled(c: Cell) { c.Filled? }

  function Gaps(k: nat, now: nat): (g: seq<Cell>)
    ensures |g| == k
    ensures Count(g, IsFilled) == 0
  {
    var g := seq(k, _ => Gap(now));
    CountNone(g, IsFilled);
    g
  }

  ghost predicate Fits(w: Window, cap: nat) {
    w.Window? ==> |w.cells| <= cap
  }

  /** The one arrival pattern that makes the ring overwrite the packet it has just stored. */
  predicate DrainedOverflow(w: Window, n: int, cap: nat) {
    w.Window? && w.cells == [] && cap <= n - w.base <= 2 * cap - 2
  }

  predicate Overflows(w: Window, n: int, cap: nat) {
    w.Window? && n - w.base >= cap
  }

  function Insert(w: Window, n: int, data: Bytes, now: nat, cap: nat): (Window, Outcome)
    requires cap > 0
  {
    match w
    case Fresh => (Window(n, [Filled(data, now)]), PLAIN)
    case Window(base, cells) =>
      if n < base then (w, PLAIN.(stale := true))
      else if n - base < cap then Place(base, cells, n, data, now, 0)
      else
        var advance := n - base - (cap - 1);
        if advance >= cap || (cells != [] && |cells| <= advance) then
          (Window(n, [Filled(data, now)]), PLAIN.(flushed := Count(cells, IsFilled)))
        else if cells == [] then
          (Window(base + advance, Gaps(cap - 1, now) + [Lapped]), PLAIN.(newGaps := n - base))
        else
          Place(base + advance, cells[advance..], n, data, now, Count(cells[..advance], IsFilled))
  }

  function Place(base: int, cells: seq<Cell>, n: int, data: Bytes, now: nat, flushed: nat): (Window, Outcome)
    requires base <= n
  {
    var i, o := n - base, PLAIN.(flushed := flushed);
    if i >= |cells| then
      (Window(base, cells + Gaps(i - |cells|, now) + [Filled(data, now)]), o.(newGaps := i - |cells|))
    else if cells[i].Filled? then
      (Window(base, cells), o.(duplicate := true))
    else
      (Window(base, cells[i := Filled(data, now)]), o.(recovered := cells[i].Gap?))
  }

  /** `now.saturating_duration_since(t) >= hold`. */
  predicate Aged(t: nat, now: nat, hold: nat) {
    (if now > t then now - t else 0) >= hold
  }

  predicate Due(c: Cell, now: nat, hold: nat) {
    match c
    case Lapped => true
    case Gap(t) => Aged(t, now, hold)
    case Filled(_, t) => Aged(t, now, hold)
  }

  function ItemOf(c: Cell, n: int): Item {
    if c.Filled? then Delivered(n, c.data, c.arrival) else Lost(n)
  }

  function Drain(w: Window, now: nat, hold: nat): (Window, seq<Item>)
    decreases if w.Fresh? then 0 else |w.cells|
  {
    if w.Fresh? || w.cells == [] || !Due(w.cells[0], now, hold) then (w, [])
    else
      var (w', rest) := Drain(Window(w.base + 1, w.cells[1..]), now, hold);
      (w', [ItemOf(w.cells[0], w.base)] + rest)
  }

  // ---- one step ----

  lemma InsertFits(w: Window, n: int, data: Bytes, now: nat, cap: nat)
    requires cap > 0 && Fits(w, cap)
    ensures Fits(Insert(w, n, data, now, cap).0, cap)
    ensures Insert(w, n, data, now, cap).0.Window?
    ensures w.Window? ==> w.base <= Insert(w, n, data, now, cap).0.base
  {
  }

  /** Number `n` is in the window. */
  predicate InWindow(w: Window, n: int) {
    w.Window? && w.base <= n < w.base + |w.cells|
  }

  /** The window holds `data`, arrived at `t`, under number `n`. */
  ghost predicate Holds(w: Window, n: int, data: Bytes, t: nat) {
    InWindow(w, n) && w.cells[n - w.base] == Filled(data, t)
  }

  /**
   After `Insert` a packet is held under its number exactly when it is not stale and did not
   hit a drained window from `cap` to `2*cap - 2` ahead: this arrival, or for a duplicate the
   one that was there before.
   */
  lemma ArrivalIsHeldIff(w: Window, n: int, data: Bytes, now: nat, cap: nat)
    requires cap > 0 && Fits(w, cap)
    ensures var (w', o) := Insert(w, n, data, now, cap);
            && (InWindow(w', n) && w'.cells[n - w'.base].Filled?
                <==> !(w.Window? && n < w.base) && !DrainedOverflow(w, n, cap))
            && (!o.stale && !o.duplicate && !DrainedOverflow(w, n, cap) ==> Holds(w', n, data, now))
            && (o.duplicate ==> InWindow(w, n) && w'.cells[n - w'.base] == w.cells[n - w.base])
  {
  }

  /** `Drain` pops the longest due prefix, in order, and nothing else. */
  lemma {:induction false} DrainTakesDuePrefix(w: Window, now: nat, hold: nat)
    requires w.Window?
    ensures var (w', items) := Drain(w, now, hold);
            var k := |items|;
            && k <= |w.cells|
            && w' == Window(w.base + k, w.cells[k..])
            && (forall i :: 0 <= i < k ==> items[i] == ItemOf(w.cells[i], w.base + i) && Due(w.cells[i], now, hold))
            && (k < |w.cells| ==> !Due(w.cells[k], now, hold))
    decreases |w.cells|
  {
    if w.cells != [] && Due(w.cells[0], now, hold) {
      var rest := Window(w.base + 1, w.cells[1..]);
      DrainTakesDuePrefix(rest, now, hold);
      var (w', items) := Drain(rest, now, hold);
      var k := |items|;
      assert w.cells[1..][k..] == w.cells[k + 1..];
      forall i | 0 <= i < k + 1
        ensures ([ItemOf(w.cells[0], w.base)] + items)[i] == ItemOf(w.cells[i], w.base + i)
        ensures Due(w.cells[i], now, hold)
      {
        if i > 0 {
          assert items[i - 1] == ItemOf(rest.cells[i - 1], rest.base + i - 1);
        }
      }
    }
  }

  // ---- whole runs ----

  datatype Event = Arrive(n: int, data: Bytes, now: nat) | Release(now: nat)

  /** What became of a number the window has moved past. */
  datatype Fate = Played(data: Bytes, arrival: nat) | TimedOut | Flushed(data: Bytes) | Skipped

  /**
   A run with its books: `ledger[i]` is the fate of number `first + i`, `out` is what
   the drain steps handed over, and the counters add up the reported outcomes.
   */
  datatype Run = Run(window: Window, first: int, ledger: seq<Fate>, out: seq<Item>,
                     accepted: nat, flushed: nat, lapped: nat)

  const START := Run(Fresh, 0, [], [], 0, 0, 0)

  predicate IsPlayed(f: Fate) { f.Played? }
  predicate IsFlushed(f: Fate) { f.Flushed? }

  function PassedOver(cells: seq<Cell>, k: nat): (f: seq<Fate>)
    ensures |f| == k
  {
    seq(k, i => if 0 <= i < |cells| && cells[i].Filled? then Flushed(cells[i].data) else Skipped)
  }

  function FateOf(item: Item): Fate {
    if item.Delivered? then Played(item.data, item.arrival) else TimedOut
  }

  function FatesOf(items: seq<Item>): (f: seq<Fate>)
    ensures |f| == |items|
  {
    seq(|items|, i requires 0 <= i < |items| => FateOf(items[i]))
  }

  /** The books after an arrival under number `n`. */
  function Booked(r: Run, n: int, w': Window, o: Outcome, lapped: nat): Run
    requires w'.Window? && (r.window.Window? ==> r.window.base <= w'.base)
  {
    Run(w',
        if r.window.Fresh? then n else r.first,
        if r.window.Fresh? then [] else r.ledger + PassedOver(r.window.cells, w'.base - r.window.base),
        r.out,
        r.accepted + (if o.stale || o.duplicate then 0 else 1),
        r.flushed + o.flushed,
        r.lapped + lapped)
  }

  function Step(r: Run, e: Event, cap: nat, hold: nat): Run
    requires cap > 0 && Fits(r.window, cap)
  {
    match e
    case Arrive(n, data, now) =>
      InsertFits(r.window, n, data, now, cap);
      var (w', o) := Insert(r.window, n, data, now, cap);
      Booked(r, n, w', o, if DrainedOverflow(r.window, n, cap) then 1 else 0)
    case Release(now) =>
      var (w', items) := Drain(r.window, now, hold);
      r.(window := w', out := r.out + items, ledger := r.ledger + FatesOf(items))
  }

  lemma StepFits(r: Run, e: Event, cap: nat, hold: nat)
    requires cap > 0 && Fits(r.window, cap)
    ensures Fits(Step(r, e, cap, hold).window, cap)
  {
    match e
    case Arrive(n, data, now) => InsertFits(r.window, n, data, now, cap);
    case Release(now) => if r.window.Window? { DrainTakesDuePrefix(r.window, now, hold); }
  }

  ghost function RunOf(es: seq<Event>, cap: nat, hold: nat): (r: Run)
    requires cap > 0
    ensures Fits(r.window, cap)
  {
    if es == [] then START
    else
      var r := RunOf(es[..|es| - 1], cap, hold);
      StepFits(r, es[|es| - 1], cap, hold);
      Step(r, es[|es| - 1], cap, hold)
  }

  /** The output a ledger stands for: its played and timed-out entries, numbered. */
  function Reported(ledger: seq<Fate>, first: int): seq<Item>
  {
    if ledger == [] then []
    else
      var k := |ledger| - 1;
      var rest := Reported(ledger[..k], first);
      match ledger[k]
      case Played(d, a) => rest + [Delivered(first + k, d, a)]
      case TimedOut => rest + [Lost(first + k)]
      case _ => rest
  }

  /** Every accepted packet was played, flushed, is still held or was lapped. */
  ghost predicate Tallied(ledger: seq<Fate>, held: nat, accepted: nat, flushed: nat, lapped: nat) {
    && accepted == Count(ledger, IsPlayed) + Count(ledger, IsFlushed) + held + lapped
    && flushed == Count(ledger, IsFlushed)
  }

  /** The books balance. */
  ghost predicate Balanced(r: Run) {
    && (r.window.Fresh? ==> r == START)
    && (r.window.Window? ==>
        && |r.ledger| == r.window.base - r.first
        && Tallied(r.ledger, Count(r.window.cells, IsFilled), r.accepted, r.flushed, r.lapped)
        && r.out == Reported(r.ledger, r.first))
  }

  lemma {:induction false} PassedOverCounts(cells: seq<Cell>, k: nat)
    ensures Count(PassedOver(cells, k), IsPlayed) == 0
    ensures k >= |cells| ==> Count(PassedOver(cells, k), IsFlushed) == Count(cells, IsFilled)
    ensures k < |cells| ==> Count(PassedOver(cells, k), IsFlushed) == Count(cells[..k], IsFilled)
    decreases k
  {
    var f := PassedOver(cells, k);
    CountNone(f, IsPlayed);
    if k > 0 && cells != [] {
      assert f[1..] == PassedOver(cells[1..], k - 1);
      PassedOverCounts(cells[1..], k - 1);
      if k < |cells| {
        assert cells[..k][1..] == cells[1..][..k - 1];
      }
    } else if cells == [] {
      CountNone(f, IsFlushed);
    }
  }

  lemma {:induction false} ReportedSilent(ledger: seq<Fate>, more: seq<Fate>, first: int)
    requires forall i :: 0 <= i < |more| ==> more[i].Flushed? || more[i].Skipped?
    ensures Reported(ledger + more, first) == Reported(ledger, first)
    decreases |more|
  {
    if more == [] {
      assert ledger + more == ledger;
    } else {
      var k := |more| - 1;
      assert (ledger + more)[..|ledger| + k] == ledger + more[..k];
      ReportedSilent(ledger, more[..k], first);
    }
  }

  lemma {:induction false} ReportedItems(ledger: seq<Fate>, items: seq<Item>, first: int)
    requires forall i :: 0 <= i < |items| ==> items[i].n == first + |ledger| + i
    ensures Reported(ledger + FatesOf(items), first) == Reported(ledger, first) + items
    decreases |items|
  {
    var more := FatesOf(items);
    if items == [] {
      assert ledger + more == ledger;
    } else {
      var k := |items| - 1;
      assert more[..k] == FatesOf(items[..k]);
      assert (ledger + more)[..|ledger| + k] == ledger + FatesOf(items[..k]);
      ReportedItems(ledger, items[..k], first);
      assert items == items[..k] + [items[k]];
    }
  }

  /** Filled cells are conserved by one insertion: kept, flushed or lapped. */
  lemma InsertConserves(w: Window, n: int, data: Bytes, now: nat, cap: nat)
    requires cap > 0 && Fits(w, cap) && w.Window?
    ensures var (w', o) := Insert(w, n, data, now, cap);
            Conserves(w, w', o, if DrainedOverflow(w, n, cap) then 1 else 0)
  {
    PassedOverCounts(w.cells, Insert(w, n, data, now, cap).0.base - w.base);
    if n >= w.base + cap {
      OverflowConserves(w, n, data, now, cap);
    } else if n >= w.base {
      PlaceConserves(w.base, w.cells, n, data, now, 0);
    }
  }

  ghost predicate Conserves(w: Window, w': Window, o: Outcome, lapped: nat) {
    && w.Window? && w'.Window? && w'.base >= w.base
    && o.flushed == Count(PassedOver(w.cells, w'.base - w.base), IsFlushed)
    && Count(w.cells, IsFilled) + (if o.stale || o.duplicate then 0 else 1)
       == Count(w'.cells, IsFilled) + o.flushed + lapped
  }

  lemma OverflowConserves(w: Window, n: int, data: Bytes, now: nat, cap: nat)
    requires cap > 0 && Fits(w, cap) && w.Window? && n >= w.base + cap
    ensures var (w', o) := Insert(w, n, data, now, cap);
            Conserves(w, w', o, if DrainedOverflow(w, n, cap) then 1 else 0)
  {
    var advance := n - w.base - (cap - 1);
    if advance >= cap || (w.cells != [] && |w.cells| <= advance) {
      PassedOverCounts(w.cells, n - w.base);
    } else if w.cells == [] {
      PassedOverCounts(w.cells, advance);
      CountConcat(Gaps(cap - 1, now), [Lapped], IsFilled);
    } else {
      FlushConserves(w, advance, n, data, now);
    }
  }

  /** Flushing the oldest cells and placing the packet among the rest. */
  lemma FlushConserves(w: Window, advance: nat, n: int, data: Bytes, now: nat)
    requires w.Window? && advance < |w.cells| && w.base + advance <= n
    ensures var flushed := Count(w.cells[..advance], IsFilled);
            var (w', o) := Place(w.base + advance, w.cells[advance..], n, data, now, flushed);
            Conserves(w, w', o, 0)
  {
    PassedOverCounts(w.cells, advance);
    CountSplit(w.cells, advance, IsFilled);
    PlaceConserves(w.base + advance, w.cells[advance..], n, data, now, Count(w.cells[..advance], IsFilled));
  }

  lemma PlaceConserves(base: int, cells: seq<Cell>, n: int, data: Bytes, now: nat, flushed: nat)
    requires base <= n
    ensures var (w', o) := Place(base, cells, n, data, now, flushed);
            Count(cells, IsFilled) + (if o.duplicate then 0 else 1) == Count(w'.cells, IsFilled)
  {
    var i := n - base;
    if i >= |cells| {
      var g := Gaps(i - |cells|, now);
      CountConcat(cells + g, [Filled(data, now)], IsFilled);
      CountConcat(cells, g, IsFilled);
    } else {
      CountUpdate(cells, i, Filled(data, now), IsFilled);
    }
  }

  lemma {:induction false} DrainConserves(w: Window, now: nat, hold: nat)
    requires w.Window?
    ensures var (w', items) := Drain(w, now, hold);
            && w'.Window?
            && Count(w.cells, IsFilled) == Count(w'.cells, IsFilled) + Count(FatesOf(items), IsPlayed)
            && Count(FatesOf(items), IsFlushed) == 0
    decreases |w.cells|
  {
    var (w', items) := Drain(w, now, hold);
    CountNone(FatesOf(items), IsFlushed);
    if w.cells != [] && Due(w.cells[0], now, hold) {
      DrainConserves(Window(w.base + 1, w.cells[1..]), now, hold);
      assert FatesOf(items)[1..] == FatesOf(items[1..]);
    }
  }

  lemma ArriveBalanced(r: Run, n: int, data: Bytes, now: nat, cap: nat, hold: nat)
    requires cap > 0 && Fits(r.window, cap) && Balanced(r)
    ensures Balanced(Step(r, Arrive(n, data, now), cap, hold))
  {
    if r.window.Window? {
      InsertConserves(r.window, n, data, now, cap);
      var (w', o) := Insert(r.window, n, data, now, cap);
      BookedBalanced(r, n, w', o, if DrainedOverflow(r.window, n, cap) then 1 else 0);
    }
  }

  lemma BookedBalanced(r: Run, n: int, w': Window, o: Outcome, lapped: nat)
    requires Balanced(r) && Conserves(r.window, w', o, lapped)
    ensures Balanced(Booked(r, n, w', o, lapped))
  {
    PassedOverBooked(r.ledger, r.window.cells, w'.base - r.window.base, r.first, Count(r.window.cells, IsFilled),
                     r.accepted, r.flushed, r.lapped, Count(w'.cells, IsFilled),
                     if o.stale || o.duplicate then 0 else 1, lapped);
  }

  /** Numbers passed over add to the flushed ones and leave the output as it was. */
  lemma PassedOverBooked(ledger: seq<Fate>, cells: seq<Cell>, k: nat, first: int, held: nat, accepted: nat,
                         flushed: nat, lapped: nat, held': nat, added: nat, lapped': nat)
    requires Tallied(ledger, held, accepted, flushed, lapped)
    requires held + added == held' + Count(PassedOver(cells, k), IsFlushed) + lapped'
    ensures Tallied(ledger + PassedOver(cells, k), held', accepted + added,
                    flushed + Count(PassedOver(cells, k), IsFlushed), lapped + lapped')
    ensures Reported(ledger + PassedOver(cells, k), first) == Reported(ledger, first)
  {
    var more := PassedOver(cells, k);
    PassedOverCounts(cells, k);
    ReportedSilent(ledger, more, first);
    CountConcat(ledger, more, IsPlayed);
    CountConcat(ledger, more, IsFlushed);
  }

  lemma ReleaseBalanced(r: Run, now: nat, cap: nat, hold: nat)
    requires cap > 0 && Fits(r.window, cap) && Balanced(r)
    ensures Balanced(Step(r, Release(now), cap, hold))
  {
    if r.window.Window? {
      DrainTakesDuePrefix(r.window, now, hold);
      DrainConserves(r.window, now, hold);
      var items := Drain(r.window, now, hold).1;
      ReportedItems(r.ledger, items, r.first);
      CountConcat(r.ledger, FatesOf(items), IsPlayed);
      CountConcat(r.ledger, FatesOf(items), IsFlushed);
    }
  }

  lemma StepBalanced(r: Run, e: Event, cap: nat, hold: nat)
    requires cap > 0 && Fits(r.window, cap) && Balanced(r)
    ensures Balanced(Step(r, e, cap, hold))
  {
    match e
    case Arrive(n, data, now) => ArriveBalanced(r, n, data, now, cap, hold);
    case Release(now) => ReleaseBalanced(r, now, cap, hold);
  }

  /**
   Conservation over every run. Each number from the first one up to `base` has one
   ledger entry; the output is exactly the ledger's played and timed-out entries in
   number order; and every packet that was neither stale nor duplicate was delivered,
   counted as flushed, is still buffered, or was lapped by a drained overflow.
   */
  lemma {:induction false} Conservation(es: seq<Event>, cap: nat, hold: nat)
    requires cap > 0
    ensures Balanced(RunOf(es, cap, hold))
    decreases |es|
  {
    if es != [] {
      var k := |es| - 1;
      Conservation(es[..k], cap, hold);
      StepBalanced(RunOf(es[..k], cap, hold), es[k], cap, hold);
    }
  }

  // ---- order and provenance ----

  /** `out` names numbers in strictly increasing order and agrees with the ledger about each. */
  ghost predicate Faithful(out: seq<Item>, ledger: seq<Fate>, first: int) {
    && (forall i :: 0 <= i < |out| ==> first <= out[i].n < first + |ledger|)
    && (forall i, j :: 0 <= i < j < |out| ==> out[i].n < out[j].n)
    && (forall i :: 0 <= i < |out| ==> ledger[out[i].n - first] == FateOf(out[i]))
  }

  lemma {:induction false} ReportedIsFaithful(ledger: seq<Fate>, first: int)
    ensures Faithful(Reported(ledger, first), ledger, first)
    decreases |ledger|
  {
    if ledger != [] {
      var k := |ledger| - 1;
      ReportedIsFaithful(ledger[..k], first);
      var rest, out := Reported(ledger[..k], first), Reported(ledger, first);
      assert out == rest
          || (out == rest + [out[|rest|]] && FateOf(out[|rest|]) == ledger[k] && out[|rest|].n == first + k);
    }
  }

  /** Every packet held was put there by an arrival with that number, bytes and time. */
  ghost predicate HeldFrom(base: int, cells: seq<Cell>, es: seq<Event>) {
    forall i :: 0 <= i < |cells| && cells[i].Filled? ==> Arrive(base + i, cells[i].data, cells[i].arrival) in es
  }

  ghost predicate PlayedFrom(first: int, ledger: seq<Fate>, es: seq<Event>) {
    forall i :: 0 <= i < |ledger| && ledger[i].Played? ==> Arrive(first + i, ledger[i].data, ledger[i].arrival) in es
  }

  ghost predicate Traceable(r: Run, es: seq<Event>) {
    && (r.window.Window? ==> HeldFrom(r.window.base, r.window.cells, es))
    && PlayedFrom(r.first, r.ledger, es)
  }

  lemma PlaceTraceable(base: int, cells: seq<Cell>, n: int, data: Bytes, now: nat, flushed: nat, es: seq<Event>)
    requires base <= n && HeldFrom(base, cells, es) && Arrive(n, data, now) in es
    ensures HeldFrom(base, Place(base, cells, n, data, now, flushed).0.cells, es)
  {
  }

  lemma InsertTraceable(w: Window, n: int, data: Bytes, now: nat, cap: nat, es: seq<Event>)
    requires cap > 0 && w.Window? && HeldFrom(w.base, w.cells, es) && Arrive(n, data, now) in es
    ensures var w' := Insert(w, n, data, now, cap).0;
            w'.Window? && HeldFrom(w'.base, w'.cells, es)
  {
    if 0 <= n - w.base < cap {
      PlaceTraceable(w.base, w.cells, n, data, now, 0, es);
    } else if n >= w.base {
      var advance := n - w.base - (cap - 1);
      if advance < cap && advance < |w.cells| {
        var kept := w.cells[advance..];
        assert HeldFrom(w.base + advance, kept, es) by {
          forall i | 0 <= i < |kept| && kept[i].Filled?
            ensures Arrive(w.base + advance + i, kept[i].data, kept[i].arrival) in es
          {
            assert kept[i] == w.cells[advance + i];
          }
        }
        PlaceTraceable(w.base + advance, kept, n, data, now, Count(w.cells[..advance], IsFilled), es);
      }
    }
  }

  /** What a drain leaves was there before. */
  lemma DrainKeepsHeld(w: Window, now: nat, hold: nat, es: seq<Event>)
    requires w.Window? && HeldFrom(w.base, w.cells, es)
    ensures var w' := Drain(w, now, hold).0;
            w'.Window? && HeldFrom(w'.base, w'.cells, es)
  {
    DrainTakesDuePrefix(w, now, hold);
    var (w', items) := Drain(w, now, hold);
    forall i | 0 <= i < |w'.cells| && w'.cells[i].Filled?
      ensures Arrive(w'.base + i, w'.cells[i].data, w'.cells[i].arrival) in es
    {
      assert w'.cells[i] == w.cells[|items| + i];
    }
  }

  /** What a drain plays was held. */
  lemma DrainPlaysHeld(w: Window, now: nat, hold: nat, es: seq<Event>)
    requires w.Window? && HeldFrom(w.base, w.cells, es)
    ensures PlayedFrom(w.base, FatesOf(Drain(w, now, hold).1), es)
  {
    DrainTakesDuePrefix(w, now, hold);
    var items := Drain(w, now, hold).1;
    forall j | 0 <= j < |items| && FatesOf(items)[j].Played?
      ensures Arrive(w.base + j, FatesOf(items)[j].data, FatesOf(items)[j].arrival) in es
    {
      assert items[j] == ItemOf(w.cells[j], w.base + j);
    }
  }

  lemma PlayedConcat(first: int, a: seq<Fate>, b: seq<Fate>, es: seq<Event>)
    requires PlayedFrom(first, a, es) && PlayedFrom(first + |a|, b, es)
    ensures PlayedFrom(first, a + b, es)
  {
    forall i | 0 <= i < |a + b| && (a + b)[i].Played?
      ensures Arrive(first + i, (a + b)[i].data, (a + b)[i].arrival) in es
    {
      if i >= |a| {
        assert (a + b)[i] == b[i - |a|] && first + |a| + (i - |a|) == first + i;
      }
    }
  }

  lemma ReleaseTraceable(r: Run, now: nat, cap: nat, hold: nat, es: seq<Event>)
    requires cap > 0 && Fits(r.window, cap) && Balanced(r) && Traceable(r, es) && r.window.Window?
    ensures Traceable(Step(r, Release(now), cap, hold), es)
  {
    DrainKeepsHeld(r.window, now, hold, es);
    DrainPlaysHeld(r.window, now, hold, es);
    assert r.first + |r.ledger| == r.window.base;
    PlayedConcat(r.first, r.ledger, FatesOf(Drain(r.window, now, hold).1), es);
  }

  lemma ArriveTraceable(r: Run, n: int, data: Bytes, now: nat, cap: nat, hold: nat, es: seq<Event>)
    requires cap > 0 && Fits(r.window, cap) && Traceable(r, es) && r.window.Window?
    requires Arrive(n, data, now) in es
    ensures Traceable(Step(r, Arrive(n, data, now), cap, hold), es)
  {
    InsertFits(r.window, n, data, now, cap);
    InsertTraceable(r.window, n, data, now, cap, es);
    var w' := Insert(r.window, n, data, now, cap).0;
    var more := PassedOver(r.window.cells, w'.base - r.window.base);
    assert forall i :: 0 <= i < |more| ==> !more[i].Played?;
    assert PlayedFrom(r.first, r.ledger + more, es);
  }

  lemma StepTraceable(r: Run, e: Event, cap: nat, hold: nat, es: seq<Event>)
    requires cap > 0 && Fits(r.window, cap) && Balanced(r) && Traceable(r, es) && e in es
    ensures Traceable(Step(r, e, cap, hold), es)
  {
    if r.window.Window? {
      match e
      case Arrive(n, data, now) => ArriveTraceable(r, n, data, now, cap, hold, es);
      case Release(now) => ReleaseTraceable(r, now, cap, hold, es);
    }
  }

  lemma {:induction false} RunTraceable(es: seq<Event>, k: nat, cap: nat, hold: nat)
    requires cap > 0 && k <= |es|
    ensures Traceable(RunOf(es[..k], cap, hold), es)
  {
    if k > 0 {
      RunTraceable(es, k - 1, cap, hold);
      Conservation(es[..k - 1], cap, hold);
      assert es[..k][..k - 1] == es[..k - 1];
      StepTraceable(RunOf(es[..k - 1], cap, hold), es[k - 1], cap, hold, es);
    }
  }

  ghost predicate Increasing(out: seq<Item>) {
    forall i, j :: 0 <= i < j < |out| ==> out[i].n < out[j].n
  }

  ghost predicate FromArrivals(out: seq<Item>, es: seq<Event>) {
    forall i :: 0 <= i < |out| && out[i].Delivered? ==> Arrive(out[i].n, out[i].data, out[i].arrival) in es
  }

  /**
   Over every run the output numbers strictly increase, so nothing is reported twice,
   and every delivered packet carries the bytes and the time of an arrival with its number.
   */
  lemma InOrderFromArrivals(es: seq<Event>, cap: nat, hold: nat)
    requires cap > 0
    ensures Increasing(RunOf(es, cap, hold).out) && FromArrivals(RunOf(es, cap, hold).out, es)
  {
    var r := RunOf(es, cap, hold);
    Conservation(es, cap, hold);
    assert es[..|es|] == es;
    RunTraceable(es, |es|, cap, hold);
    ReportedIsFaithful(r.ledger, r.first);
    FaithfulFromArrivals(r.out, r.ledger, r.first, es);
  }

  lemma FaithfulFromArrivals(out: seq<Item>, ledger: seq<Fate>, first: int, es: seq<Event>)
    requires Faithful(out, ledger, first) && PlayedFrom(first, ledger, es)
    ensures Increasing(out) && FromArrivals(out, es)
  {
    forall i | 0 <= i < |out| && out[i].Delivered?
      ensures Arrive(out[i].n, out[i].data, out[i].arrival) in es
    {
      assert ledger[out[i].n - first] == FateOf(out[i]);
    }
  }

  // ---- completeness without overflow ----

  ghost predicate NeverOverflows(es: seq<Event>, cap: nat, hold: nat)
    requires cap > 0
  {
    forall k :: 0 <= k < |es| ==> !OverflowsAt(es, k, cap, hold)
  }

  /** Event `k` is an arrival at least a ring ahead of the window's base. */
  ghost predicate OverflowsAt(es: seq<Event>, k: nat, cap: nat, hold: nat)
    requires cap > 0 && k < |es|
  {
    es[k].Arrive? && Overflows(RunOf(es[..k], cap, hold).window, es[k].n, cap)
  }

  ghost predicate AllReported(ledger: seq<Fate>) {
    forall i :: 0 <= i < |ledger| ==> ledger[i].Played? || ledger[i].TimedOut?
  }

  lemma {:induction false} ReportedAll(ledger: seq<Fate>, first: int)
    requires AllReported(ledger)
    ensures var out := Reported(ledger, first);
            |out| == |ledger| && forall i :: 0 <= i < |out| ==> out[i].n == first + i
    decreases |ledger|
  {
    if ledger != [] {
      ReportedAll(ledger[..|ledger| - 1], first);
    }
  }

  lemma {:induction false} NoOverflowLedger(es: seq<Event>, k: nat, cap: nat, hold: nat)
    requires cap > 0 && k <= |es| && NeverOverflows(es, cap, hold)
    ensures AllReported(RunOf(es[..k], cap, hold).ledger)
    ensures RunOf(es[..k], cap, hold).lapped == 0
  {
    if k > 0 {
      NoOverflowLedger(es, k - 1, cap, hold);
      assert es[..k][..k - 1] == es[..k - 1];
      Conservation(es[..k - 1], cap, hold);
      var r := RunOf(es[..k - 1], cap, hold);
      assert !OverflowsAt(es, k - 1, cap, hold);
      StepAllReported(r, es[k - 1], cap, hold);
    }
  }

  lemma StepAllReported(r: Run, e: Event, cap: nat, hold: nat)
    requires cap > 0 && Fits(r.window, cap) && Balanced(r) && AllReported(r.ledger)
    requires e.Arrive? ==> !Overflows(r.window, e.n, cap)
    ensures AllReported(Step(r, e, cap, hold).ledger)
    ensures Step(r, e, cap, hold).lapped == r.lapped
  {
    if e.Arrive? {
      InsertFits(r.window, e.n, e.data, e.now, cap);
    }
  }

  /**
   If no arrival overflowed the window, each number from the first one to `base - 1`
   was reported exactly once, in order, as delivered or lost, and nothing was flushed.
   */
  lemma EachReportedOnce(es: seq<Event>, cap: nat, hold: nat)
    requires cap > 0 && NeverOverflows(es, cap, hold)
    ensures var r := RunOf(es, cap, hold);
            && r.lapped == 0
            && (r.window.Window? ==>
                && |r.out| == r.window.base - r.first
                && r.flushed == 0
                && forall i :: 0 <= i < |r.out| ==> r.out[i].n == r.first + i)
  {
    var r := RunOf(es, cap, hold);
    assert es[..|es|] == es;
    Conservation(es, cap, hold);
    NoOverflowLedger(es, |es|, cap, hold);
    ReportedAll(r.ledger, r.first);
    CountNone(r.ledger, IsFlushed);
  }

  // ---- laps ----

  /** Some arrival of the run hits a drained window from `cap` to `2*cap - 2` ahead. */
  ghost predicate OverflowsDrained(es: seq<Event>, cap: nat, hold: nat)
    requires cap > 0
  {
    exists k :: 0 <= k < |es| && OverflowsDrainedAt(es, k, cap, hold)
  }

  ghost predicate OverflowsDrainedAt(es: seq<Event>, k: nat, cap: nat, hold: nat)
    requires cap > 0 && k < |es|
  {
    es[k].Arrive? && DrainedOverflow(RunOf(es[..k], cap, hold).window, es[k].n, cap)
  }

  ghost predicate Unlapped(r: Run) {
    r.lapped == 0 && (r.window.Window? ==> forall i :: 0 <= i < |r.window.cells| ==> !r.window.cells[i].Lapped?)
  }

  lemma StepUnlapped(r: Run, e: Event, cap: nat, hold: nat)
    requires cap > 0 && Fits(r.window, cap) && Unlapped(r)
    requires e.Arrive? ==> !DrainedOverflow(r.window, e.n, cap)
    ensures Unlapped(Step(r, e, cap, hold))
  {
    if e.Release? && r.window.Window? {
      DrainTakesDuePrefix(r.window, e.now, hold);
    }
  }

  lemma {:induction false} RunUnlapped(es: seq<Event>, m: nat, cap: nat, hold: nat)
    requires cap > 0 && m <= |es| && !OverflowsDrained(es, cap, hold)
    ensures Unlapped(RunOf(es[..m], cap, hold))
  {
    if m > 0 {
      RunUnlapped(es, m - 1, cap, hold);
      assert !OverflowsDrainedAt(es, m - 1, cap, hold);
      RunOfSnoc(es, m - 1, cap, hold);
      StepUnlapped(RunOf(es[..m - 1], cap, hold), es[m - 1], cap, hold);
    }
  }

  lemma RunOfSnoc(es: seq<Event>, m: nat, cap: nat, hold: nat)
    requires cap > 0 && m < |es|
    ensures RunOf(es[..m + 1], cap, hold) == Step(RunOf(es[..m], cap, hold), es[m], cap, hold)
  {
    assert es[..m + 1][..m] == es[..m];
  }

  /**
   A ring that never overflows while drained owns every number of its window as a packet or a gap,
   so the branch of the drain for slots that were lapped never fires; and every accepted packet
   was delivered, counted as flushed, or is still held.
   */
  lemma OwnsItsWindow(es: seq<Event>, cap: nat, hold: nat)
    requires cap > 0 && !OverflowsDrained(es, cap, hold)
    ensures var r := RunOf(es, cap, hold);
            && Unlapped(r)
            && (r.window.Window? ==>
                r.accepted == Count(r.ledger, IsPlayed) + r.flushed + Count(r.window.cells, IsFilled))
  {
    assert es[..|es|] == es;
    RunUnlapped(es, |es|, cap, hold);
    Conservation(es, cap, hold);
  }

  // ---- every accepted packet ----

  /** Event `i` is an arrival that was neither stale nor a duplicate, and did not overflow a drained window. */
  ghost predicate AcceptedAt(es: seq<Event>, i: nat, cap: nat, hold: nat)
    requires cap > 0
  {
    && i < |es| && es[i].Arrive?
    && var w := RunOf(es[..i], cap, hold).window;
       var o := Insert(w, es[i].n, es[i].data, es[i].now, cap).1;
       !o.stale && !o.duplicate && !DrainedOverflow(w, es[i].n, cap)
  }

  /** The books know the packet: it is held in its own cell, was played, or was flushed. */
  ghost predicate Accounted(r: Run, n: int, data: Bytes, t: nat) {
    && r.window.Window? && r.first <= n && |r.ledger| == r.window.base - r.first
    && if n < r.window.base then r.ledger[n - r.first] in {Played(data, t), Flushed(data)}
       else Holds(r.window, n, data, t)
  }

  /** A held packet stays held under its number or is among those passed over. */
  lemma InsertKeepsHeld(w: Window, k: int, other: Bytes, now: nat, cap: nat, n: int, data: Bytes, t: nat)
    requires cap > 0 && Fits(w, cap) && Holds(w, n, data, t)
    ensures var w' := Insert(w, k, other, now, cap).0;
            && w'.Window? && w'.base >= w.base
            && if n < w'.base then PassedOver(w.cells, w'.base - w.base)[n - w.base] == Flushed(data)
               else Holds(w', n, data, t)
  {
  }

  lemma ArriveAccounted(r: Run, k: int, other: Bytes, now: nat, cap: nat, hold: nat, n: int, data: Bytes, t: nat)
    requires cap > 0 && Fits(r.window, cap) && Accounted(r, n, data, t)
    ensures Accounted(Step(r, Arrive(k, other, now), cap, hold), n, data, t)
  {
    InsertFits(r.window, k, other, now, cap);
    if n >= r.window.base {
      InsertKeepsHeld(r.window, k, other, now, cap, n, data, t);
    }
  }

  lemma ReleaseAccounted(r: Run, now: nat, cap: nat, hold: nat, n: int, data: Bytes, t: nat)
    requires cap > 0 && Fits(r.window, cap) && Accounted(r, n, data, t)
    ensures Accounted(Step(r, Release(now), cap, hold), n, data, t)
  {
    DrainTakesDuePrefix(r.window, now, hold);
    var (w', items) := Drain(r.window, now, hold);
    if r.window.base <= n < w'.base {
      assert items[n - r.window.base] == ItemOf(r.window.cells[n - r.window.base], n);
    }
  }

  lemma AcceptedAccounted(es: seq<Event>, i: nat, cap: nat, hold: nat)
    requires cap > 0 && AcceptedAt(es, i, cap, hold)
    ensures AccountedAt(es, i + 1, es[i], cap, hold)
  {
    var r, e := RunOf(es[..i], cap, hold), es[i];
    RunOfSnoc(es, i, cap, hold);
    Conservation(es[..i], cap, hold);
    ArrivalIsHeldIff(r.window, e.n, e.data, e.now, cap);
    InsertFits(r.window, e.n, e.data, e.now, cap);
  }

  ghost predicate AccountedAt(es: seq<Event>, m: nat, e: Event, cap: nat, hold: nat)
    requires cap > 0 && e.Arrive?
  {
    m <= |es| && Accounted(RunOf(es[..m], cap, hold), e.n, e.data, e.now)
  }

  lemma NextAccounted(es: seq<Event>, m: nat, m': nat, e: Event, cap: nat, hold: nat)
    requires cap > 0 && e.Arrive? && m < |es| && AccountedAt(es, m, e, cap, hold) && m' == m + 1
    ensures AccountedAt(es, m', e, cap, hold)
  {
    RunOfSnoc(es, m, cap, hold);
    var r := RunOf(es[..m], cap, hold);
    match es[m]
    case Arrive(k, other, now) => ArriveAccounted(r, k, other, now, cap, hold, e.n, e.data, e.now);
    case Release(now) => ReleaseAccounted(r, now, cap, hold, e.n, e.data, e.now);
  }

  /**
   Every accepted packet, followed through the rest of every run: at each later point it is held in
   its own cell with its own bytes and time, or its number was played with these, or it was flushed.
   */
  lemma EachPacketAccounted(es: seq<Event>, i: nat, m: nat, cap: nat, hold: nat)
    requires cap > 0 && AcceptedAt(es, i, cap, hold) && i < m <= |es|
    ensures AccountedAt(es, m, es[i], cap, hold)
  {
    AcceptedAccounted(es, i, cap, hold);
    StaysAccounted(es, i + 1, m, es[i], cap, hold);
  }

  lemma {:induction false} StaysAccounted(es: seq<Event>, from: nat, m: nat, e: Event, cap: nat, hold: nat)
    requires cap > 0 && e.Arrive? && from <= m <= |es| && AccountedAt(es, from, e, cap, hold)
    ensures AccountedAt(es, m, e, cap, hold)
    decreases m
  {
    if from < m {
      StaysAccounted(es, from, m - 1, e, cap, hold);
      NextAccounted(es, m - 1, m, e, cap, hold);
    }
  }

  /** The ledger's entries are what the output says about each number. */
  lemma {:induction false} ReportedIsComplete(ledger: seq<Fate>, first: int, k: nat)
    requires k < |ledger| && ledger[k].Played?
    ensures Delivered(first + k, ledger[k].data, ledger[k].arrival) in Reported(ledger, first)
    decreases |ledger|
  {
    if k < |ledger| - 1 {
      ReportedIsComplete(ledger[..|ledger| - 1], first, k);
    }
  }

  /** Never reported lost; held until passed, and then delivered with these bytes and this time unless flushed. */
  ghost predicate DeliveredUnlessFlushed(r: Run, n: int, data: Bytes, t: nat) {
    && r.window.Window? && r.first <= n && |r.ledger| == r.window.base - r.first
    && Lost(n) !in r.out
    && if n < r.window.base then Delivered(n, data, t) in r.out || r.ledger[n - r.first] == Flushed(data)
       else Holds(r.window, n, data, t)
  }

  lemma AccountedIsDelivered(r: Run, n: int, data: Bytes, t: nat)
    requires Balanced(r) && Accounted(r, n, data, t)
    ensures DeliveredUnlessFlushed(r, n, data, t)
  {
    ReportedIsFaithful(r.ledger, r.first);
    LostIsTimedOut(r.out, r.ledger, r.first, n);
    if n < r.window.base && r.ledger[n - r.first].Played? {
      ReportedIsComplete(r.ledger, r.first, n - r.first);
    }
  }

  /**
   So an accepted packet is never reported lost; and once the window has moved past it, it has been
   delivered with its own bytes and time, unless an overflow flushed it.
   */
  lemma AcceptedIsDelivered(es: seq<Event>, i: nat, cap: nat, hold: nat)
    requires cap > 0 && AcceptedAt(es, i, cap, hold)
    ensures DeliveredUnlessFlushed(RunOf(es, cap, hold), es[i].n, es[i].data, es[i].now)
  {
    assert es[..|es|] == es;
    EachPacketAccounted(es, i, |es|, cap, hold);
    Conservation(es, cap, hold);
    AccountedIsDelivered(RunOf(es, cap, hold), es[i].n, es[i].data, es[i].now);
  }

  /** A drain a whole hold time after the latest stamp empties the window. */
  lemma DrainsAll(w: Window, clock: nat, t: nat, hold: nat)
    requires StampedBy(w, clock) && t >= clock + hold
    ensures Drain(w, t, hold).0.Window? ==> Drain(w, t, hold).0.cells == []
  {
    if w.Window? {
      DrainTakesDuePrefix(w, t, hold);
      var k := |Drain(w, t, hold).1|;
      if k < |w.cells| {
        assert Due(w.cells[k], t, hold);
      }
    }
  }

  /**
   Without overflow, an accepted packet has been delivered once a drain comes a whole hold time
   after the latest arrival.
   */
  lemma DrainedIsDelivered(es: seq<Event>, i: nat, clock: nat, t: nat, cap: nat, hold: nat)
    requires cap > 0 && AcceptedAt(es, i, cap, hold) && NeverOverflows(es, cap, hold)
    requires es[|es| - 1] == Release(t) && t >= clock + hold
    requires forall k :: 0 <= k < |es| && es[k].Arrive? ==> es[k].now <= clock
    ensures Delivered(es[i].n, es[i].data, es[i].now) in RunOf(es, cap, hold).out
  {
    AcceptedIsDelivered(es, i, cap, hold);
    assert es[..|es|] == es;
    NoOverflowLedger(es, |es|, cap, hold);
    LateDrainEmpties(es, |es| - 1, clock, t, cap, hold);
    DeliveredByNow(RunOf(es, cap, hold), es[i].n, es[i].data, es[i].now);
  }

  lemma LateDrainEmpties(es: seq<Event>, m: nat, clock: nat, t: nat, cap: nat, hold: nat)
    requires cap > 0 && |es| == m + 1 && es[m] == Release(t) && t >= clock + hold
    requires forall k :: 0 <= k < |es| && es[k].Arrive? ==> es[k].now <= clock
    ensures RunOf(es, cap, hold).window.Window? ==> RunOf(es, cap, hold).window.cells == []
  {
    assert es[..m + 1] == es;
    RunOfSnoc(es, m, cap, hold);
    RunStamped(es[..m], cap, hold, clock);
    DrainsAll(RunOf(es[..m], cap, hold).window, clock, t, hold);
  }

  lemma DeliveredByNow(r: Run, n: int, data: Bytes, t: nat)
    requires DeliveredUnlessFlushed(r, n, data, t) && r.window.cells == [] && AllReported(r.ledger)
    ensures Delivered(n, data, t) in r.out
  {
  }

  lemma LostIsTimedOut(out: seq<Item>, ledger: seq<Fate>, first: int, n: int)
    requires Faithful(out, ledger, first)
    ensures Lost(n) in out ==> first <= n < first + |ledger| && ledger[n - first] == TimedOut
  {
  }

  // ---- timing ----

  /** The deadline `next_drain_time` reads off a head that still owns its slot. */
  function Deadline(c: Cell, hold: nat): nat
    requires !c.Lapped?
  {
    (if c.Filled? then c.arrival else c.noticed) + hold
  }

  /**
   While the window holds a head that owns its slot, its deadline is exactly the least
   time, not before the head's own stamp, at which a drain yields output.
   */
  lemma DeadlineIsExact(w: Window, now: nat, hold: nat)
    requires w.Window? && w.cells != [] && !w.cells[0].Lapped?
    requires now + hold >= Deadline(w.cells[0], hold)
    ensures Drain(w, now, hold).1 != [] <==> now >= Deadline(w.cells[0], hold)
  {
    DrainTakesDuePrefix(w, now, hold);
  }

  /** Nothing leaves before it has been held for the full time, except a lapped number. */
  lemma NothingEarly(w: Window, now: nat, hold: nat)
    requires w.Window?
    ensures var items := Drain(w, now, hold).1;
            forall i :: 0 <= i < |items| && items[i].Delivered? && hold > 0 ==> now >= items[i].arrival + hold
  {
    DrainTakesDuePrefix(w, now, hold);
    var items := Drain(w, now, hold).1;
    forall i | 0 <= i < |items| && items[i].Delivered? && hold > 0
      ensures now >= items[i].arrival + hold
    {
      assert items[i] == ItemOf(w.cells[i], w.base + i) && Due(w.cells[i], now, hold);
    }
  }

  /** No cell carries a time later than `now`. */
  ghost predicate StampedBy(w: Window, now: nat) {
    w.Window? ==> forall i :: 0 <= i < |w.cells| ==>
      match w.cells[i]
      case Filled(_, t) => t <= now
      case Gap(t) => t <= now
      case Lapped => true
  }


  lemma {:induction false} DrainStamped(w: Window, now: nat, hold: nat, clock: nat)
    requires StampedBy(w, clock)
    ensures StampedBy(Drain(w, now, hold).0, clock)
  {
    if w.Window? {
      DrainTakesDuePrefix(w, now, hold);
    }
  }

  /** Under a monotone clock no cell is ever stamped in the future. */
  lemma {:induction false} RunStamped(es: seq<Event>, cap: nat, hold: nat, clock: nat)
    requires cap > 0 && forall k :: 0 <= k < |es| && es[k].Arrive? ==> es[k].now <= clock
    ensures StampedBy(RunOf(es, cap, hold).window, clock)
    decreases |es|
  {
    if es != [] {
      var k := |es| - 1;
      RunStamped(es[..k], cap, hold, clock);
      var w := RunOf(es[..k], cap, hold).window;
      match es[k]
      case Arrive(n, data, now) => InsertStamped(w, n, data, now, cap, clock);
      case Release(now) => DrainStamped(w, now, hold, clock);
    }
  }

  lemma InsertStamped(w: Window, n: int, data: Bytes, now: nat, cap: nat, clock: nat)
    requires cap > 0 && Fits(w, cap) && StampedBy(w, clock) && now <= clock
    ensures StampedBy(Insert(w, n, data, now, cap).0, clock)
  {
    var w' := Insert(w, n, data, now, cap).0;
    if w.Window? {
      forall i | 0 <= i < |w'.cells|
        ensures w'.cells[i].Lapped? || Deadline(w'.cells[i], 0) <= clock
      {
        if w'.base <= w.base + |w.cells| && 0 <= w'.base - w.base + i < |w.cells| {
          var c := w.cells[w'.base - w.base + i];
          assert c.Lapped? || Deadline(c, 0) <= clock;
        }
      }
    }
  }

  // ---- the failing run ----

  /**
   A drained overflow loses its packet without a trace. With 64 slots: number 9 arrives and is
   drained, then number 74 arrives. It is accepted, its gap marking overwrites it, and the next
   drain reports 64 losses and nothing else.
   */
  lemma DrainedOverflowLosesPacket(data: Bytes, lost: Bytes, hold: nat, t: nat)
    requires t >= hold
    ensures var es := [Arrive(9, data, 0), Release(hold), Arrive(74, lost, t), Release(t + hold)];
            var r := RunOf(es, 64, hold);
            && r.accepted == 2 && r.lapped == 1 && r.flushed == 0 && r.window == Window(75, [])
            && |r.out| == 65 && r.out[0] == Delivered(9, data, 0)
            && (forall i :: 0 < i < |r.out| ==> r.out[i] == Lost(10 + i))
  {
    var es := [Arrive(9, data, 0), Release(hold), Arrive(74, lost, t), Release(t + hold)];
    var r2 := Run(Window(10, []), 9, [Played(data, 0)], [Delivered(9, data, 0)], 1, 0, 0);
    DrainedAfterOne(es, data, hold);
    assert RunOf(es[..2], 64, hold) == r2;
    RunOfSnoc(es, 2, 64, hold);
    RunOfSnoc(es, 3, 64, hold);
    LapsAndLoses(r2, lost, hold, t);
    assert es[..4] == es;
  }

  lemma DrainOne(n: int, data: Bytes, t: nat, hold: nat)
    ensures Drain(Window(n, [Filled(data, t)]), t + hold, hold) == (Window(n + 1, []), [Delivered(n, data, t)])
  {
    var w := Window(n, [Filled(data, t)]);
    var (w', items) := Drain(w, t + hold, hold);
    DrainTakesDuePrefix(w, t + hold, hold);
    assert |items| == 1 && items[0] == Delivered(n, data, t);
    assert items == [Delivered(n, data, t)] && w.cells[1..] == [];
  }

  lemma DrainedAfterOne(es: seq<Event>, data: Bytes, hold: nat)
    requires |es| >= 2 && es[0] == Arrive(9, data, 0) && es[1] == Release(hold)
    ensures RunOf(es[..2], 64, hold) == Run(Window(10, []), 9, [Played(data, 0)], [Delivered(9, data, 0)], 1, 0, 0)
  {
    RunOfSnoc(es, 0, 64, hold);
    RunOfSnoc(es, 1, 64, hold);
    assert es[..0] == [];
    DrainOne(9, data, 0, hold);
    assert FatesOf([Delivered(9, data, 0)]) == [Played(data, 0)];
  }

  lemma LapsAndLoses(r: Run, lost: Bytes, hold: nat, t: nat)
    requires r.window == Window(10, []) && |r.out| == 1
    ensures var r3 := Step(r, Arrive(74, lost, t), 64, hold);
            Fits(r3.window, 64)
            && var r4 := Step(r3, Release(t + hold), 64, hold);
            && r4.accepted == r.accepted + 1 && r4.lapped == r.lapped + 1 && r4.flushed == r.flushed
            && r4.window == Window(75, []) && |r4.out| == 65 && r4.out[0] == r.out[0]
            && (forall i :: 0 < i < |r4.out| ==> r4.out[i] == Lost(10 + i))
  {
    var r3 := Step(r, Arrive(74, lost, t), 64, hold);
    var w := r3.window;
    assert w == Window(11, Gaps(63, t) + [Lapped]);
    assert forall i :: 0 <= i < |w.cells| ==> Due(w.cells[i], t + hold, hold) && !w.cells[i].Filled?;
    DrainTakesDuePrefix(w, t + hold, hold);
  }

  // ---- a run with a recovered packet ----

  /** Numbers 0 and 2 arrive, then 1. */
  function Recovering(a: Bytes, b: Bytes, d: Bytes): (es: seq<Event>)
    ensures |es| == 3
  {
    [Arrive(0, a, 0), Arrive(2, d, 0), Arrive(1, b, 0)]
  }

  /** After `k` events of the run the window is `w`. */
  ghost predicate Shows(es: seq<Event>, k: nat, w: Window, cap: nat, hold: nat)
    requires cap > 0
  {
    k <= |es| && RunOf(es[..k], cap, hold).window == w
  }

  lemma NextWindow(es: seq<Event>, k: nat, w: Window, w': Window, cap: nat, hold: nat)
    requires cap > 0 && k < |es| && es[k].Arrive? && Shows(es, k, w, cap, hold)
    requires Insert(w, es[k].n, es[k].data, es[k].now, cap).0 == w'
    ensures Shows(es, k + 1, w', cap, hold)
  {
    RunOfSnoc(es, k, cap, hold);
  }

  lemma SecondInsert(a: Bytes, d: Bytes, cap: nat)
    requires cap >= 64
    ensures Insert(Window(0, [Filled(a, 0)]), 2, d, 0, cap).0 == Window(0, [Filled(a, 0), Gap(0), Filled(d, 0)])
  {
    assert Gaps(1, 0) == [Gap(0)];
    assert [Filled(a, 0)] + [Gap(0)] + [Filled(d, 0)] == [Filled(a, 0), Gap(0), Filled(d, 0)];
  }

  lemma ThirdInsert(a: Bytes, b: Bytes, d: Bytes, cap: nat)
    requires cap >= 64
    ensures Insert(Window(0, [Filled(a, 0), Gap(0), Filled(d, 0)]), 1, b, 0, cap).0
            == Window(0, [Filled(a, 0), Filled(b, 0), Filled(d, 0)])
  {
    assert [Filled(a, 0), Gap(0), Filled(d, 0)][1 := Filled(b, 0)] == [Filled(a, 0), Filled(b, 0), Filled(d, 0)];
  }

  lemma RecoveringWindows(es: seq<Event>, a: Bytes, b: Bytes, d: Bytes, cap: nat, hold: nat)
    requires cap >= 64 && |es| >= 3 && es[..3] == Recovering(a, b, d)
    ensures Shows(es, 0, Fresh, cap, hold)
    ensures Shows(es, 1, Window(0, [Filled(a, 0)]), cap, hold)
    ensures Shows(es, 2, Window(0, [Filled(a, 0), Gap(0), Filled(d, 0)]), cap, hold)
    ensures Shows(es, 3, Window(0, [Filled(a, 0), Filled(b, 0), Filled(d, 0)]), cap, hold)
  {
    assert es[0] == es[..3][0] && es[1] == es[..3][1] && es[2] == es[..3][2];
    assert es[..0] == [];
    NextWindow(es, 0, Fresh, Window(0, [Filled(a, 0)]), cap, hold);
    SecondInsert(a, d, cap);
    NextWindow(es, 1, Window(0, [Filled(a, 0)]), Window(0, [Filled(a, 0), Gap(0), Filled(d, 0)]), cap, hold);
    ThirdInsert(a, b, d, cap);
    NextWindow(es, 2, Window(0, [Filled(a, 0), Gap(0), Filled(d, 0)]),
               Window(0, [Filled(a, 0), Filled(b, 0), Filled(d, 0)]), cap, hold);
  }

  lemma RecoveringFits(es: seq<Event>, a: Bytes, b: Bytes, d: Bytes, cap: nat, hold: nat)
    requires cap >= 64 && |es| == 4 && es[..3] == Recovering(a, b, d) && es[3].Release?
    ensures NeverOverflows(es, cap, hold)
  {
    RecoveringWindows(es, a, b, d, cap, hold);
    assert es[0] == es[..3][0] && es[1] == es[..3][1] && es[2] == es[..3][2];
    assert !OverflowsAt(es, 0, cap, hold) && !OverflowsAt(es, 1, cap, hold);
    assert !OverflowsAt(es, 2, cap, hold) && !OverflowsAt(es, 3, cap, hold);
  }

  // ---- what an insertion answers ----

  /** The number right above the window. */
  function Above(w: Window): int
    requires w.Window?
  {
    w.base + |w.cells|
  }

  /** Number `n` is so far ahead that a ring ending at it keeps nothing of the window. */
  predicate LeavesAll(w: Window, n: int, cap: nat) {
    w.Window? && n >= w.base + cap && n - (cap - 1) >= (if w.cells == [] then w.base + cap else Above(w))
  }

  /**
   The flags and counts of an insertion. A number below the base is stale; a number of the window that is
   held is a duplicate and one that is a gap is recovered; a number above the window opens a gap for each
   number between, unless the window starts over; and what is flushed are the packets below the new base.
   */
  lemma OutcomeIs(w: Window, n: int, data: Bytes, now: nat, cap: nat)
    requires cap > 0 && Fits(w, cap)
    ensures var (w', o) := Insert(w, n, data, now, cap);
            && (o.stale <==> w.Window? && n < w.base)
            && (o.duplicate <==> InWindow(w, n) && w.cells[n - w.base].Filled?)
            && (o.recovered <==> InWindow(w, n) && w.cells[n - w.base].Gap?)
            && o.newGaps == (if w.Fresh? || n < Above(w) || LeavesAll(w, n, cap) then 0 else n - Above(w))
            && (w.Window? ==> w'.Window? && w'.base >= w.base)
            && o.flushed == if w.Fresh? then 0 else Count(Take(w.cells, w'.base - w.base), IsFilled)
  {
    if w.Window? {
      assert Take(w.cells, 0) == [];
      assert |w.cells| <= n - w.base ==> Take(w.cells, n - w.base) == w.cells;
    }
  }

  /**
   The window after an insertion. It ends at the higher of `n` and the old end, and starts where it did
   unless `n` would not fit the ring: then `cap - 1` below `n`, or at `n` itself if nothing is left. Each
   of its numbers is what it was, except that the arrival fills its own and every number jumped over is a
   gap noticed now; only a drained overflow leaves `n` without its packet.
   */
  lemma InsertIs(w: Window, n: int, data: Bytes, now: nat, cap: nat)
    requires cap > 0 && Fits(w, cap) && w.Window? && n >= w.base
    ensures var w' := Insert(w, n, data, now, cap).0;
            && w'.Window?
            && w'.base == (if n - w.base < cap then w.base else if LeavesAll(w, n, cap) then n else n - (cap - 1))
            && Above(w') == (if n < Above(w) then Above(w) else n + 1)
            && forall x :: InWindow(w', x) ==>
                 w'.cells[x - w'.base]
                 == if x == n then
                      if InWindow(w, n) && w.cells[n - w.base].Filled? then w.cells[n - w.base]
                      else if DrainedOverflow(w, n, cap) then Lapped else Filled(data, now)
                    else if x < Above(w) then w.cells[x - w.base] else Gap(now)
  {
  }

  // ---- when a gap was noticed ----

  /** Event `j` is the arrival, at time `t`, that jumped over `x`. */
  ghost predicate RevealedAt(es: seq<Event>, j: nat, x: int, t: nat, cap: nat, hold: nat)
    requires cap > 0
  {
    && j < |es| && es[j].Arrive? && es[j].now == t
    && var w := RunOf(es[..j], cap, hold).window;
       w.Window? && Above(w) <= x < es[j].n
  }

  ghost predicate Revealed(es: seq<Event>, x: int, t: nat, cap: nat, hold: nat)
    requires cap > 0
  {
    exists j: nat :: RevealedAt(es, j, x, t, cap, hold)
  }

  /** Every gap carries the time of the arrival that jumped over it. */
  ghost predicate GapsRevealed(es: seq<Event>, w: Window, cap: nat, hold: nat)
    requires cap > 0
  {
    forall x :: InWindow(w, x) && w.cells[x - w.base].Gap? ==> Revealed(es, x, w.cells[x - w.base].noticed, cap, hold)
  }

  lemma ArriveReveals(es: seq<Event>, m: nat, w: Window, w': Window, cap: nat, hold: nat)
    requires cap > 0 && m < |es| && es[m].Arrive? && Shows(es, m, w, cap, hold) && Fits(w, cap)
    requires w' == Insert(w, es[m].n, es[m].data, es[m].now, cap).0 && GapsRevealed(es, w, cap, hold)
    ensures GapsRevealed(es, w', cap, hold)
  {
    var e := es[m];
    if w.Window? && e.n >= w.base {
      InsertIs(w, e.n, e.data, e.now, cap);
      forall x | InWindow(w', x) && w'.cells[x - w'.base].Gap?
        ensures Revealed(es, x, w'.cells[x - w'.base].noticed, cap, hold)
      {
        if x < Above(w) {
          assert InWindow(w, x) && w.cells[x - w.base] == w'.cells[x - w'.base];
        } else {
          assert RevealedAt(es, m, x, e.now, cap, hold);
        }
      }
    }
  }

  lemma DrainReveals(es: seq<Event>, w: Window, now: nat, cap: nat, hold: nat)
    requires cap > 0 && GapsRevealed(es, w, cap, hold)
    ensures GapsRevealed(es, Drain(w, now, hold).0, cap, hold)
  {
    if w.Window? {
      DrainTakesDuePrefix(w, now, hold);
      var w' := Drain(w, now, hold).0;
      forall x | InWindow(w', x) && w'.cells[x - w'.base].Gap?
        ensures Revealed(es, x, w'.cells[x - w'.base].noticed, cap, hold)
      {
        assert InWindow(w, x) && w.cells[x - w.base] == w'.cells[x - w'.base];
      }
    }
  }

  ghost predicate RevealedUpTo(es: seq<Event>, m: nat, cap: nat, hold: nat)
    requires cap > 0
  {
    m <= |es| && GapsRevealed(es, RunOf(es[..m], cap, hold).window, cap, hold)
  }

  lemma RevealedNext(es: seq<Event>, m: nat, m': nat, cap: nat, hold: nat)
    requires cap > 0 && m < |es| && m' == m + 1 && RevealedUpTo(es, m, cap, hold)
    ensures RevealedUpTo(es, m', cap, hold)
  {
    var w := RunOf(es[..m], cap, hold).window;
    RunOfSnoc(es, m, cap, hold);
    match es[m]
    case Arrive(n, data, now) => ArriveReveals(es, m, w, Insert(w, n, data, now, cap).0, cap, hold);
    case Release(now) => DrainReveals(es, w, now, cap, hold);
  }

  /** Over every run, every gap of the window was noticed when an arrival first jumped over it. */
  lemma {:induction false} EveryGapRevealed(es: seq<Event>, m: nat, cap: nat, hold: nat)
    requires cap > 0 && m <= |es|
    ensures RevealedUpTo(es, m, cap, hold)
  {
    if m > 0 {
      EveryGapRevealed(es, m - 1, cap, hold);
      RevealedNext(es, m - 1, m, cap, hold);
    } else {
      assert es[..0] == [];
    }
  }

  /** What a drain reports lost is lapped, or a gap noticed a hold time ago. */
  lemma LostIsDue(w: Window, now: nat, hold: nat, x: int)
    requires Lost(x) in Drain(w, now, hold).1
    ensures InWindow(w, x) && (w.cells[x - w.base].Lapped? || w.cells[x - w.base].Gap?)
    ensures w.cells[x - w.base].Gap? && hold > 0 ==> now >= w.cells[x - w.base].noticed + hold
  {
    DrainTakesDuePrefix(w, now, hold);
    var items := Drain(w, now, hold).1;
    var i :| 0 <= i < |items| && items[i] == Lost(x);
    assert items[i] == ItemOf(w.cells[i], w.base + i);
  }

  /**
   So no number is given up early: when a drain reports it lost, the arrival that jumped over it is at
   least the hold time ago, unless its slot was lapped.
   */
  lemma NothingLostEarly(es: seq<Event>, now: nat, cap: nat, hold: nat, x: int)
    requires cap > 0 && Lost(x) in Drain(RunOf(es, cap, hold).window, now, hold).1
    ensures var w := RunOf(es, cap, hold).window;
            && InWindow(w, x)
            && (w.cells[x - w.base].Lapped?
                || exists j: nat, t: nat :: RevealedAt(es, j, x, t, cap, hold) && (hold == 0 || now >= t + hold))
  {
    var w := RunOf(es, cap, hold).window;
    assert es[..|es|] == es;
    EveryGapRevealed(es, |es|, cap, hold);
    LostIsDue(w, now, hold, x);
    if w.cells[x - w.base].Gap? {
      var t := w.cells[x - w.base].noticed;
      assert Revealed(es, x, t, cap, hold);
      var j: nat :| RevealedAt(es, j, x, t, cap, hold);
      assert RevealedAt(es, j, x, t, cap, hold) && (hold == 0 || now >= t + hold);
    }
  }
}
