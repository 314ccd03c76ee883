/**
 The receive task and the delivery thread together: every arrival goes to the reorder buffer and to
 the NACK scheduler, so what one is missing the other chases.
 */
module Receiver {
  import opened Seq16
  import R = ReorderModel
  import N = NackModel

  datatype Event =
    | Arrive(n: int, data: Bytes, now: nat)
    | Release(now: nat)
    | Poll(now: nat, rtt: Option<nat>)
    | SetDelay(delay: nat)

  datatype Setup = Setup(cap: nat, hold: nat, delay: nat, max: nat, bits: nat)

  /** Ring sizes for which both parts tell the numbers of a window apart. */
  ghost predicate Sized(p: Setup) {
    0 < p.cap <= 0x8000 && p.bits <= 16 && Pow2(p.bits) > N.MAX_TRACKABLE_GAP
  }

  function ForReorder(e: Event): seq<R.Event> {
    match e
    case Arrive(n, data, now) => [R.Arrive(n, data, now)]
    case Release(now) => [R.Release(now)]
    case _ => []
  }

  function ForNack(e: Event): seq<N.Event> {
    match e
    case Arrive(n, _, now) => [N.Packet(n, now)]
    case Poll(now, rtt) => [N.Tick(now, rtt)]
    case SetDelay(d) => [N.SetDelay(d)]
    case Release(_) => []
  }

  function Reorders(es: seq<Event>): seq<R.Event> {
    if es == [] then [] else Reorders(es[..|es| - 1]) + ForReorder(es[|es| - 1])
  }

  function Chases(es: seq<Event>): seq<N.Event> {
    if es == [] then [] else Chases(es[..|es| - 1]) + ForNack(es[|es| - 1])
  }

  ghost function WindowOf(es: seq<Event>, p: Setup): (w: R.Window)
    requires p.cap > 0
    ensures R.Fits(w, p.cap)
  {
    R.RunOf(Reorders(es), p.cap, p.hold).window
  }

  ghost function CoreOf(es: seq<Event>, p: Setup): (c: N.Core)
    ensures N.Wf(c.tracker, p.bits)
  {
    N.After(Chases(es), p.delay, p.max, p.bits)
  }

  /** What one event does to the window. */
  ghost function NextWindow(w: R.Window, e: Event, p: Setup): R.Window
    requires p.cap > 0
  {
    match e
    case Arrive(n, data, now) => R.Insert(w, n, data, now, p.cap).0
    case Release(now) => R.Drain(w, now, p.hold).0
    case _ => w
  }

  /** What one event does to the scheduler. */
  ghost function NextCore(c: N.Core, e: Event, p: Setup): N.Core
    requires N.Wf(c.tracker, p.bits)
  {
    if e.Release? then c else N.CoreStep(c, ForNack(e)[0], p.max, p.bits)
  }

  lemma WindowSnoc(es: seq<Event>, m: nat, p: Setup)
    requires p.cap > 0 && m < |es|
    ensures WindowOf(es[..m + 1], p) == NextWindow(WindowOf(es[..m], p), es[m], p)
  {
    var before, e := Reorders(es[..m]), es[m];
    assert es[..m + 1][..m] == es[..m];
    if e.Arrive? || e.Release? {
      var all := before + ForReorder(e);
      assert all[..|before|] == before && all[..|before| + 1] == all;
      R.RunOfSnoc(all, |before|, p.cap, p.hold);
    } else {
      assert before + [] == before;
    }
  }

  lemma CoreSnoc(es: seq<Event>, m: nat, p: Setup)
    requires m < |es|
    ensures CoreOf(es[..m + 1], p) == NextCore(CoreOf(es[..m], p), es[m], p)
  {
    var before, e := Chases(es[..m]), es[m];
    assert es[..m + 1][..m] == es[..m];
    if e.Release? {
      assert before + [] == before;
    } else {
      var all := before + ForNack(e);
      assert all[..|before|] == before && all[..|before| + 1] == all;
      N.AfterSnoc(all, |before| + 1, p.delay, p.max, p.bits);
    }
  }

  // ---- the two frontiers are one ----

  /** The scheduler expects the number right above the window. */
  ghost predicate InStep(w: R.Window, t: N.Tracker) {
    t.expected == if w.Fresh? then None else Some(w.base + |w.cells|)
  }

  lemma NextInStep(w: R.Window, c: N.Core, e: Event, p: Setup)
    requires p.cap > 0 && R.Fits(w, p.cap) && N.Wf(c.tracker, p.bits) && InStep(w, c.tracker)
    ensures InStep(NextWindow(w, e, p), NextCore(c, e, p).tracker)
  {
    match e
    case Arrive(n, data, now) =>
    case Release(now) =>
      if w.Window? {
        R.DrainTakesDuePrefix(w, now, p.hold);
      }
    case _ =>
  }

  ghost predicate InStepAt(es: seq<Event>, m: nat, p: Setup)
    requires p.cap > 0 && m <= |es|
  {
    InStep(WindowOf(es[..m], p), CoreOf(es[..m], p).tracker)
  }

  lemma InStepNext(es: seq<Event>, m: nat, m': nat, p: Setup)
    requires p.cap > 0 && m < |es| && m' == m + 1 && InStepAt(es, m, p)
    ensures InStepAt(es, m', p)
  {
    WindowSnoc(es, m, p);
    CoreSnoc(es, m, p);
    NextInStep(WindowOf(es[..m], p), CoreOf(es[..m], p), es[m], p);
  }

  lemma AtFirst(es: seq<Event>, p: Setup)
    requires p.cap > 0
    ensures WindowOf(es[..0], p) == R.Fresh && CoreOf(es[..0], p).tracker.expected == None
  {
    assert es[..0] == [];
  }

  /** Over every run the scheduler expects the number right above the window. */
  lemma {:induction false} AlwaysInStep(es: seq<Event>, m: nat, p: Setup)
    requires p.cap > 0 && m <= |es|
    ensures InStepAt(es, m, p)
  {
    if m > 0 {
      AlwaysInStep(es, m - 1, p);
      InStepNext(es, m - 1, m, p);
    } else {
      AtFirst(es, p);
    }
  }

  // ---- every gap is chased ----

  ghost predicate GapAt(w: R.Window, x: int) {
    match w
    case Fresh => false
    case Window(base, cells) => base <= x < base + |cells| && cells[x - base].Gap?
  }

  /** Why `x` is not chased: out of retries, its slot taken by a gap a ring later, skipped, or hidden. */
  ghost predicate Excuses(c: N.Core, e: Event, x: int, p: Setup)
    requires N.Wf(c.tracker, p.bits)
  {
    var t, i := c.tracker, Idx(x, p.bits);
    match e
    case Poll(now, _) => N.Tracks(t, x, p.bits) && N.Ripe(t.table[i], now) && t.table[i].count >= p.max
    case Arrive(k, _, now) =>
      && t.expected.Some?
      && var f := t.expected.value;
         || (N.Jump(t, k) && N.Tracks(t, x, p.bits) && N.Overtaken(x, f, k, p.bits))
         || (f <= x < k && k - f > N.MAX_TRACKABLE_GAP)
         || (f <= x < k && N.Jump(t, k) && N.Shadowed(N.Track(t, f, x, now + c.delay, p.bits).table, x, p.bits))
    case _ => false
  }

  /** A number between the frontier and an arrival at most 1000 ahead is tracked, unless it is hidden. */
  lemma JumpTracks(t: N.Tracker, k: int, at: nat, x: int, bits: nat)
    requires N.Jump(t, k) && t.expected.value <= x < k && Pow2(bits) > N.MAX_TRACKABLE_GAP
    ensures N.Tracks(N.OnPacket(t, k, at, bits), x, bits)
            || N.Shadowed(N.Track(t, t.expected.value, x, at, bits).table, x, bits)
  {
    var f := t.expected.value;
    if !N.Shadowed(N.Track(t, f, x, at, bits).table, x, bits) {
      var t' := N.Track(t, f, x + 1, at, bits);
      assert N.Tracks(t', x, bits);
      N.TrackKeeps(t', x + 1, k, at, x, bits);
      TrackOn(t, f, x + 1, k, at, bits);
    }
  }

  /** Tracking a range is tracking its parts one after the other. */
  lemma {:induction false} TrackOn(t: N.Tracker, lo: int, mid: int, hi: int, at: nat, bits: nat)
    requires lo <= mid <= hi
    ensures N.Track(N.Track(t, lo, mid, at, bits), mid, hi, at, bits) == N.Track(t, lo, hi, at, bits)
    decreases hi - mid
  {
    if mid < hi {
      TrackOn(t, lo, mid, hi - 1, at, bits);
    }
  }

  /** A gap of the next window was a gap before, or lies between the frontier and the arrival. */
  lemma GapsComeFrom(w: R.Window, e: Event, x: int, p: Setup)
    requires p.cap > 0 && R.Fits(w, p.cap) && GapAt(NextWindow(w, e, p), x)
    ensures GapAt(w, x) || (e.Arrive? && w.Window? && w.base + |w.cells| <= x < e.n)
    ensures e.Arrive? ==> e.n != x
  {
    if e.Release? && w.Window? {
      R.DrainTakesDuePrefix(w, e.now, p.hold);
    }
  }

  lemma OldGapNext(w: R.Window, c: N.Core, e: Event, x: int, p: Setup)
    requires Sized(p) && R.Fits(w, p.cap) && N.Wf(c.tracker, p.bits) && InStep(w, c.tracker)
    requires GapAt(w, x) && GapAt(NextWindow(w, e, p), x) && N.Tracks(c.tracker, x, p.bits) && Heard(c, e)
    ensures N.Tracks(NextCore(c, e, p).tracker, x, p.bits) || Excuses(c, e, x, p)
  {
    GapsComeFrom(w, e, x, p);
    if !e.Release? {
      N.StepKeepsTracked(c, ForNack(e)[0], x, p.max, p.bits);
    }
  }

  lemma NewGapNext(w: R.Window, c: N.Core, e: Event, x: int, p: Setup)
    requires Sized(p) && N.Wf(c.tracker, p.bits) && InStep(w, c.tracker) && e.Arrive?
    requires w.Window? && w.base + |w.cells| <= x < e.n
    ensures N.Tracks(NextCore(c, e, p).tracker, x, p.bits) || Excuses(c, e, x, p)
  {
    if N.Jump(c.tracker, e.n) {
      JumpTracks(c.tracker, e.n, e.now + c.delay, x, p.bits);
    }
  }

  /** An arrival is within half the number space of the scheduler's frontier. */
  ghost predicate Heard(c: N.Core, e: Event) {
    e.Arrive? && c.tracker.expected.Some? ==>
      c.tracker.expected.value - 0x8000 <= e.n < c.tracker.expected.value + 0x8000
  }

  ghost predicate AllHeard(es: seq<Event>, p: Setup) {
    forall k :: 0 <= k < |es| ==> HeardAt(es, k, p)
  }

  ghost predicate HeardAt(es: seq<Event>, k: nat, p: Setup)
    requires k < |es|
  {
    Heard(CoreOf(es[..k], p), es[k])
  }

  /** Event `j` of the run is why `x` is not chased. */
  ghost predicate ExcusedAt(es: seq<Event>, j: nat, x: int, p: Setup) {
    j < |es| && Excuses(CoreOf(es[..j], p), es[j], x, p)
  }

  /** After `m` events `x` is tracked by the scheduler, or an earlier event is why it is not. */
  ghost predicate Chased(es: seq<Event>, m: nat, x: int, p: Setup)
    requires m <= |es|
  {
    N.Tracks(CoreOf(es[..m], p).tracker, x, p.bits) || exists j :: 0 <= j < m && ExcusedAt(es, j, x, p)
  }

  ghost predicate AllChased(es: seq<Event>, m: nat, p: Setup)
    requires p.cap > 0 && m <= |es|
  {
    forall x :: GapAt(WindowOf(es[..m], p), x) ==> Chased(es, m, x, p)
  }

  lemma NextChased(es: seq<Event>, m: nat, m': nat, x: int, p: Setup)
    requires Sized(p) && m < |es| && m' == m + 1 && HeardAt(es, m, p) && AllChased(es, m, p)
    requires GapAt(WindowOf(es[..m'], p), x)
    ensures Chased(es, m', x, p)
  {
    var w, c, e := WindowOf(es[..m], p), CoreOf(es[..m], p), es[m];
    AlwaysInStep(es, m, p);
    WindowSnoc(es, m, p);
    CoreSnoc(es, m, p);
    GapsComeFrom(w, e, x, p);
    if GapAt(w, x) {
      assert Chased(es, m, x, p);
      if N.Tracks(c.tracker, x, p.bits) {
        OldGapNext(w, c, e, x, p);
        assert Excuses(c, e, x, p) ==> ExcusedAt(es, m, x, p);
      }
    } else {
      NewGapNext(w, c, e, x, p);
      assert Excuses(c, e, x, p) ==> ExcusedAt(es, m, x, p);
    }
  }

  lemma AllChasedNext(es: seq<Event>, m: nat, m': nat, p: Setup)
    requires Sized(p) && m < |es| && m' == m + 1 && AllHeard(es, p) && AllChased(es, m, p)
    ensures AllChased(es, m', p)
  {
    assert HeardAt(es, m, p);
    forall x | GapAt(WindowOf(es[..m'], p), x)
      ensures Chased(es, m', x, p)
    {
      NextChased(es, m, m', x, p);
    }
  }

  /**
   Over every run, every gap of the reorder window is being chased by the scheduler, or some event of
   the run is why it is not: it ran out of retries, a gap a whole ring later took its slot, it lay in a
   jump of more than 1000, or an entry of an earlier cycle hid it.
   */
  lemma {:induction false} EveryGapChased(es: seq<Event>, m: nat, p: Setup)
    requires Sized(p) && m <= |es| && AllHeard(es, p)
    ensures AllChased(es, m, p)
  {
    if m > 0 {
      EveryGapChased(es, m - 1, p);
      AllChasedNext(es, m - 1, m, p);
    } else {
      NothingChasedYet(es, p);
    }
  }

  lemma NothingChasedYet(es: seq<Event>, p: Setup)
    requires p.cap > 0
    ensures AllChased(es, 0, p)
  {
    AtFirst(es, p);
  }

  /** A chased number is on the due list as soon as it is ripe and has retries left. */
  lemma ChasedIsDue(t: N.Tracker, x: int, now: nat, max: nat, bits: nat)
    requires N.Tracks(t, x, bits) && N.Listed(t.table[Idx(x, bits)], now, max)
    ensures N.InDueList(t, Wrap(x), now, max)
  {
  }
}
