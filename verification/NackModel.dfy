/**
 The receiver's NACK scheduler over unwrapped numbers: a table with one pending
 number per ring slot, and the books kept over whole runs.
 */
module NackModel {
  import opened Seq16

  /** A number being chased: listed `count` times so far, next due at `nextAt`. */
  datatype Pending = Pending(n: int, nextAt: nat, count: nat)

  datatype Tracker = Tracker(expected: Option<int>, table: map<int, Pending>, active: nat)

  const MAX_TRACKABLE_GAP := 1000

  /** Each slot chases a number that belongs to it and lies below the frontier. */
  ghost predicate Wf(t: Tracker, bits: nat) {
    && (forall i :: i in t.table ==> Idx(t.table[i].n, bits) == i)
    && (forall i :: i in t.table ==> t.expected.Some? && t.table[i].n < t.expected.value)
    && |t.table| <= t.active
  }

  /** Slot `Idx(m)` already shows `m`'s 16 bits. */
  predicate Shadowed(table: map<int, Pending>, m: int, bits: nat) {
    var i := Idx(m, bits);
    i in table && Wrap(table[i].n) == Wrap(m)
  }

  function TrackOne(t: Tracker, m: int, at: nat, bits: nat): Tracker {
    if Shadowed(t.table, m, bits) then t
    else t.(table := t.table[Idx(m, bits) := Pending(m, at, 0)], active := t.active + 1)
  }

  /** Start chasing `lo .. hi - 1`, in that order. */
  function Track(t: Tracker, lo: int, hi: int, at: nat, bits: nat): Tracker
    requires lo <= hi
    decreases hi - lo
  {
    if lo == hi then t else TrackOne(Track(t, lo, hi - 1, at, bits), hi - 1, at, bits)
  }

  function NewGaps(t: Tracker, lo: int, hi: int, at: nat, bits: nat): seq<int>
    requires lo <= hi
    decreases hi - lo
  {
    if lo == hi then []
    else
      var prior := Track(t, lo, hi - 1, at, bits);
      NewGaps(t, lo, hi - 1, at, bits)
      + (if Shadowed(prior.table, hi - 1, bits) then [] else [hi - 1])
  }

  function Deactivate(t: Tracker, n: int, bits: nat): Tracker {
    if Shadowed(t.table, n, bits)
    then t.(table := t.table - {Idx(n, bits)}, active := if t.active == 0 then 0 else t.active - 1)
    else t
  }

  predicate Jump(t: Tracker, n: int) {
    t.expected.Some? && n > t.expected.value && n - t.expected.value <= MAX_TRACKABLE_GAP
  }

  function OnPacket(t: Tracker, n: int, at: nat, bits: nat): Tracker {
    match t.expected
    case None => t.(expected := Some(n + 1))
    case Some(e) =>
      if n < e then Deactivate(t, n, bits)
      else if Jump(t, n) then Track(t, e, n, at, bits).(expected := Some(n + 1))
      else t.(expected := Some(n + 1))
  }

  function Reports(t: Tracker, n: int, at: nat, bits: nat): seq<int> {
    if Jump(t, n) then NewGaps(t, t.expected.value, n, at, bits) else []
  }

  predicate Ripe(p: Pending, now: nat) { now >= p.nextAt }

  predicate Listed(p: Pending, now: nat, max: nat) { Ripe(p, now) && p.count < max }

  function PollOne(p: Pending, now: nat, delay: nat): Pending {
    if Ripe(p, now) then Pending(p.n, now + delay, p.count + 1) else p
  }

  /** Numbers out of retries are dropped; the other ripe ones are listed and rescheduled. */
  function PollTable(table: map<int, Pending>, now: nat, delay: nat, max: nat): map<int, Pending> {
    map i | i in table && (Ripe(table[i], now) ==> table[i].count < max) :: PollOne(table[i], now, delay)
  }

  function Poll(t: Tracker, now: nat, delay: nat, max: nat): Tracker
    requires |t.table| <= t.active
  {
    var table' := PollTable(t.table, now, delay, max);
    PollTableSize(t.table, now, delay, max);
    t.(table := table', active := t.active - (|t.table| - |table'|))
  }

  lemma PollTableSize(table: map<int, Pending>, now: nat, delay: nat, max: nat)
    ensures |PollTable(table, now, delay, max)| <= |table|
  {
    var t' := PollTable(table, now, delay, max);
    assert t'.Keys <= table.Keys;
    SubsetSize(t'.Keys, table.Keys);
  }

  lemma {:induction false} SubsetSize<T>(a: set<T>, b: set<T>)
    requires a <= b
    ensures |a| <= |b|
    decreases |a|
  {
    if a != {} {
      var x :| x in a;
      SubsetSize(a - {x}, b - {x});
    }
  }

  // ---- the table stays well-formed ----

  lemma TrackOneWf(t: Tracker, m: int, at: nat, bits: nat)
    requires Wf(t, bits) && t.expected.Some?
    ensures var f := if m < t.expected.value then t.expected.value else m + 1;
            Wf(TrackOne(t, m, at, bits).(expected := Some(f)), bits)
  {
    var i := Idx(m, bits);
    if !Shadowed(t.table, m, bits) {
      var table' := t.table[i := Pending(m, at, 0)];
      assert table'.Keys == t.table.Keys + {i};
    }
  }

  lemma {:induction false} TrackWf(t: Tracker, lo: int, hi: int, at: nat, bits: nat)
    requires Wf(t, bits) && t.expected == Some(lo) && lo <= hi
    ensures Wf(Track(t, lo, hi, at, bits).(expected := Some(hi)), bits)
    ensures Track(t, lo, hi, at, bits).expected == t.expected
    decreases hi - lo
  {
    if lo < hi {
      TrackWf(t, lo, hi - 1, at, bits);
      TrackOneWf(Track(t, lo, hi - 1, at, bits).(expected := Some(hi - 1)), hi - 1, at, bits);
    }
  }

  lemma OnPacketWf(t: Tracker, n: int, at: nat, bits: nat)
    requires Wf(t, bits)
    ensures Wf(OnPacket(t, n, at, bits), bits)
  {
    if t.expected.Some? {
      if n < t.expected.value {
        if Shadowed(t.table, n, bits) {
          var i := Idx(n, bits);
          assert (t.table - {i}).Keys == t.table.Keys - {i};
        }
      } else if Jump(t, n) {
        TrackWf(t, t.expected.value, n, at, bits);
      }
    }
  }

  lemma PollWf(t: Tracker, now: nat, delay: nat, max: nat, bits: nat)
    requires Wf(t, bits)
    ensures Wf(Poll(t, now, delay, max), bits)
  {
  }

  // ---- a tracked number leaves the table in three ways ----

  ghost predicate Tracks(t: Tracker, n: int, bits: nat) {
    Idx(n, bits) in t.table && t.table[Idx(n, bits)].n == n
  }

  /** A number of `lo .. hi - 1` shares `n`'s slot, at least a whole ring later. */
  ghost predicate Overtaken(n: int, lo: int, hi: int, bits: nat) {
    exists m :: lo <= m < hi && Idx(m, bits) == Idx(n, bits) && m >= n + Pow2(bits)
  }

  ghost predicate Untouched(t: Tracker, t': Tracker, n: int, bits: nat)
    requires Tracks(t, n, bits)
  {
    Tracks(t', n, bits) && t'.table[Idx(n, bits)] == t.table[Idx(n, bits)]
  }

  lemma {:induction false} TrackKeeps(t: Tracker, lo: int, hi: int, at: nat, n: int, bits: nat)
    requires n < lo <= hi && Tracks(t, n, bits)
    ensures Untouched(t, Track(t, lo, hi, at, bits), n, bits) || Overtaken(n, lo, hi, bits)
    decreases hi - lo
  {
    if lo < hi {
      TrackKeeps(t, lo, hi - 1, at, n, bits);
      var m := hi - 1;
      if Overtaken(n, lo, m, bits) {
        var k :| lo <= k < m && Idx(k, bits) == Idx(n, bits) && k >= n + Pow2(bits);
        assert lo <= k < hi;
      } else if Idx(m, bits) == Idx(n, bits) {
        if m < n + Pow2(bits) {
          IdxDistinct(n, m, bits);
        }
        assert m >= n + Pow2(bits);
      }
    }
  }

  /**
   A tracked number stays tracked, its timer untouched, through every packet, unless that
   packet is its own arrival or opens a gap containing a same-slot number at least a ring later.
   */
  lemma PacketKeepsTracked(t: Tracker, k: int, at: nat, n: int, bits: nat)
    requires bits <= 16 && Wf(t, bits) && Tracks(t, n, bits)
    requires t.expected.value - 0x8000 <= k < t.expected.value + 0x8000
    requires t.expected.value - 0x8000 <= n
    ensures || Untouched(t, OnPacket(t, k, at, bits), n, bits)
            || k == n
            || (Jump(t, k) && Overtaken(n, t.expected.value, k, bits))
  {
    var e := t.expected.value;
    if Jump(t, k) {
      TrackKeeps(t, e, k, at, n, bits);
    } else if k < e && Shadowed(t.table, k, bits) && Idx(k, bits) == Idx(n, bits) {
      WrapDistinct(k, n);
    }
  }

  /** A poll drops a tracked number only when it is ripe with no retries left. */
  lemma PollKeepsTracked(t: Tracker, now: nat, delay: nat, max: nat, n: int, bits: nat)
    requires Wf(t, bits) && Tracks(t, n, bits)
    ensures Tracks(Poll(t, now, delay, max), n, bits)
            <==> !(Ripe(t.table[Idx(n, bits)], now) && t.table[Idx(n, bits)].count >= max)
  {
  }

  // ---- arrival silences a number ----

  /** No pending entry has the 16 bits of `n`. */
  ghost predicate Silent(t: Tracker, n: int, bits: nat) {
    !Shadowed(t.table, n, bits)
  }

  /** After a packet below the frontier arrives, nothing pending shows its 16 bits. */
  lemma LateArrivalSilences(t: Tracker, n: int, at: nat, bits: nat)
    requires Wf(t, bits) && t.expected.Some? && n < t.expected.value
    ensures Silent(OnPacket(t, n, at, bits), n, bits)
  {
  }

  lemma {:induction false} TrackLeavesSlot(t: Tracker, lo: int, hi: int, at: nat, n: int, bits: nat)
    requires lo <= hi <= n < lo + Pow2(bits)
    ensures Idx(n, bits) in Track(t, lo, hi, at, bits).table <==> Idx(n, bits) in t.table
    ensures Idx(n, bits) in t.table ==> Track(t, lo, hi, at, bits).table[Idx(n, bits)] == t.table[Idx(n, bits)]
    decreases hi - lo
  {
    if lo < hi {
      TrackLeavesSlot(t, lo, hi - 1, at, n, bits);
      IdxDistinct(hi - 1, n, bits);
    }
  }

  /**
   A packet at or beyond the frontier is not deactivated, so its 16 bits are silent afterwards
   exactly when no entry left over from an earlier 65536-cycle was showing them already.
   */
  lemma FrontierArrivalSilentIff(t: Tracker, n: int, at: nat, bits: nat)
    requires Pow2(bits) > MAX_TRACKABLE_GAP && t.expected.Some? && n >= t.expected.value
    ensures Silent(OnPacket(t, n, at, bits), n, bits) <==> Silent(t, n, bits)
  {
    if Jump(t, n) {
      TrackLeavesSlot(t, t.expected.value, n, at, n, bits);
    }
  }

  /** A silent number stays silent while the frontier is at most 65536 above it. */
  lemma {:induction false} TrackStaysSilent(t: Tracker, lo: int, hi: int, at: nat, n: int, bits: nat)
    requires bits <= 16 && lo <= hi && n < lo && hi <= n + 0x1_0000 && Silent(t, n, bits)
    ensures Silent(Track(t, lo, hi, at, bits), n, bits)
    decreases hi - lo
  {
    if lo < hi {
      TrackStaysSilent(t, lo, hi - 1, at, n, bits);
      WrapDistinct(hi - 1, n);
    }
  }

  lemma PacketStaysSilent(t: Tracker, k: int, at: nat, n: int, bits: nat)
    requires bits <= 16 && Wf(t, bits) && t.expected.Some? && n < t.expected.value && Silent(t, n, bits)
    requires k <= n + 0x1_0000
    ensures Silent(OnPacket(t, k, at, bits), n, bits)
  {
    if Jump(t, k) {
      TrackStaysSilent(t, t.expected.value, k, at, n, bits);
    }
  }

  lemma PollStaysSilent(t: Tracker, now: nat, delay: nat, max: nat, n: int, bits: nat)
    requires Wf(t, bits) && Silent(t, n, bits)
    ensures Silent(Poll(t, now, delay, max), n, bits)
  {
  }

  // ---- whole runs ----

  datatype Event = Packet(n: int, now: nat) | Tick(now: nat, rtt: Option<nat>) | SetDelay(delay: nat)

  /** How a number below the frontier was passed. */
  datatype Class = Arrived | Reported | Skipped | Hidden

  datatype Listing = Listing(at: nat, delay: nat)

  /** When a gap was found and when it was put on the wire since. */
  datatype Chase = Chase(first: nat, listings: seq<Listing>)

  /** The scheduler and the base delay in force. */
  datatype Core = Core(tracker: Tracker, delay: nat)

  function CoreStep(c: Core, e: Event, max: nat, bits: nat): Core
    requires Wf(c.tracker, bits)
  {
    match e
    case SetDelay(d) => c.(delay := d)
    case Tick(now, rtt) => c.(tracker := Poll(c.tracker, now, if rtt.Some? then rtt.value else c.delay, max))
    case Packet(n, now) => c.(tracker := OnPacket(c.tracker, n, now + c.delay, bits))
  }

  lemma CoreStepWf(c: Core, e: Event, max: nat, bits: nat)
    requires Wf(c.tracker, bits)
    ensures Wf(CoreStep(c, e, max, bits).tracker, bits)
  {
    match e
    case SetDelay(_) =>
    case Tick(now, rtt) => PollWf(c.tracker, now, if rtt.Some? then rtt.value else c.delay, max, bits);
    case Packet(n, now) => OnPacketWf(c.tracker, n, now + c.delay, bits);
  }

  /** The scheduler after a run of events. */
  ghost function After(es: seq<Event>, delay: nat, max: nat, bits: nat): (c: Core)
    ensures Wf(c.tracker, bits)
  {
    if es == [] then Core(Tracker(None, map[], 0), delay)
    else
      var c := After(es[..|es| - 1], delay, max, bits);
      CoreStepWf(c, es[|es| - 1], max, bits);
      CoreStep(c, es[|es| - 1], max, bits)
  }

  lemma AfterSnoc(es: seq<Event>, b: nat, delay: nat, max: nat, bits: nat)
    requires 0 < b <= |es|
    ensures After(es[..b], delay, max, bits) == CoreStep(After(es[..b - 1], delay, max, bits), es[b - 1], max, bits)
  {
    assert es[..b][..b - 1] == es[..b - 1];
  }

  datatype Run = Run(core: Core, first: int, classes: seq<Class>, reports: seq<int>,
                     chases: map<int, Chase>, evictions: nat)

  function Begin(delay: nat): Run {
    Run(Core(Tracker(None, map[], 0), delay), 0, [], [], map[], 0)
  }

  /** The classes of `lo .. hi - 1` when a jump tracks them. */
  function ClassesOfGap(t: Tracker, lo: int, hi: int, at: nat, bits: nat): (c: seq<Class>)
    requires lo <= hi
    ensures |c| == hi - lo
    decreases hi - lo
  {
    if lo == hi then []
    else
      ClassesOfGap(t, lo, hi - 1, at, bits)
      + [if Shadowed(Track(t, lo, hi - 1, at, bits).table, hi - 1, bits) then Hidden else Reported]
  }

  /** Slots taken over from another number, each of which leaves `active` one too high. */
  function Evicted(t: Tracker, lo: int, hi: int, at: nat, bits: nat): nat
    requires lo <= hi
    decreases hi - lo
  {
    if lo == hi then 0
    else
      var prior := Track(t, lo, hi - 1, at, bits).table;
      Evicted(t, lo, hi - 1, at, bits)
      + (if Idx(hi - 1, bits) in prior && !Shadowed(prior, hi - 1, bits) then 1 else 0)
  }

  function NewEvictions(t: Tracker, n: int, at: nat, bits: nat): nat {
    if Jump(t, n) then Evicted(t, t.expected.value, n, at, bits) else 0
  }

  function NewClasses(t: Tracker, n: int, at: nat, bits: nat): seq<Class> {
    if t.expected.None? then [Arrived]
    else if n < t.expected.value then []
    else if Jump(t, n) then ClassesOfGap(t, t.expected.value, n, at, bits) + [Arrived]
    else seq(n - t.expected.value, _ => Skipped) + [Arrived]
  }

  function NewChases(chases: map<int, Chase>, reports: seq<int>, at: nat): map<int, Chase> {
    map n | n in chases.Keys + (set m | m in reports) :: if n in chases then chases[n] else Chase(at, [])
  }

  function ListAll(chases: map<int, Chase>, table: map<int, Pending>, now: nat, delay: nat, max: nat, bits: nat)
    : map<int, Chase>
  {
    map n | n in chases ::
      var i := Idx(n, bits);
      if i in table && table[i].n == n && Listed(table[i], now, max)
      then chases[n].(listings := chases[n].listings + [Listing(now, delay)])
      else chases[n]
  }

  function Step(r: Run, e: Event, max: nat, bits: nat): Run
    requires Wf(r.core.tracker, bits)
  {
    var core := CoreStep(r.core, e, max, bits);
    match e
    case SetDelay(d) => r.(core := core)
    case Tick(now, rtt) =>
      var delay := if rtt.Some? then rtt.value else r.core.delay;
      r.(core := core, chases := ListAll(r.chases, r.core.tracker.table, now, delay, max, bits))
    case Packet(n, now) =>
      var t, at := r.core.tracker, now + r.core.delay;
      var gaps := Reports(t, n, at, bits);
      Run(core,
          if t.expected.None? then n else r.first,
          r.classes + NewClasses(t, n, at, bits),
          r.reports + gaps,
          NewChases(r.chases, gaps, at),
          r.evictions + NewEvictions(t, n, at, bits))
  }

  /** The numbers classed as reported, in order. */
  function ReportedIn(classes: seq<Class>, first: int): seq<int> {
    if classes == [] then []
    else
      var k := |classes| - 1;
      ReportedIn(classes[..k], first) + (if classes[k].Reported? then [first + k] else [])
  }

  /** Listings come no sooner than promised and at most `max` of them. */
  ghost predicate Paced(c: Chase, max: nat) {
    && |c.listings| <= max
    && (c.listings != [] ==> c.listings[0].at >= c.first)
    && (forall i :: 0 < i < |c.listings| ==> c.listings[i].at >= c.listings[i - 1].at + c.listings[i - 1].delay)
  }

  /** The pending entry of a chase agrees with its history. */
  ghost predicate Agrees(p: Pending, c: Chase, max: nat) {
    && p.count == |c.listings| <= max
    && p.nextAt == (if c.listings == [] then c.first
                    else c.listings[|c.listings| - 1].at + c.listings[|c.listings| - 1].delay)
  }

  ghost predicate Kept(r: Run, max: nat, bits: nat) {
    && Wf(r.core.tracker, bits)
    && r.core.tracker.active == |r.core.tracker.table| + r.evictions
    && r.reports == ReportedIn(r.classes, r.first)
    && (r.core.tracker.expected.None? ==> r.classes == [] && r.core.tracker.table == map[])
    && (r.core.tracker.expected.Some? ==> |r.classes| == r.core.tracker.expected.value - r.first)
  }

  ghost predicate ChasesReports(chases: map<int, Chase>, reports: seq<int>) {
    forall n :: n in chases <==> n in reports
  }

  ghost predicate AllPaced(chases: map<int, Chase>, max: nat) {
    forall n :: n in chases ==> Paced(chases[n], max)
  }

  ghost predicate AllAgree(table: map<int, Pending>, chases: map<int, Chase>, max: nat) {
    forall i :: i in table ==> table[i].n in chases && Agrees(table[i], chases[table[i].n], max)
  }

  ghost predicate Chased(r: Run, max: nat) {
    && ChasesReports(r.chases, r.reports)
    && AllPaced(r.chases, max)
    && AllAgree(r.core.tracker.table, r.chases, max)
  }

  // ---- classes and counters ----

  /** `r` lists, in strictly increasing order, exactly the numbers classed as reported. */
  ghost predicate ListsReported(r: seq<int>, classes: seq<Class>, first: int) {
    && (forall i :: 0 <= i < |r| ==> first <= r[i] < first + |classes| && classes[r[i] - first].Reported?)
    && (forall i, j :: 0 <= i < j < |r| ==> r[i] < r[j])
    && (forall k :: 0 <= k < |classes| && classes[k].Reported? ==> first + k in r)
  }

  lemma ListsReportedSnoc(rest: seq<int>, classes: seq<Class>, c: Class, first: int)
    requires ListsReported(rest, classes, first)
    ensures ListsReported(rest + (if c.Reported? then [first + |classes|] else []), classes + [c], first)
  {
    var k := |classes|;
    var r, all := rest + (if c.Reported? then [first + k] else []), classes + [c];
    forall j | 0 <= j < |all| && all[j].Reported?
      ensures first + j in r
    {
      if j == k {
        assert r[|rest|] == first + k;
      } else {
        assert classes[j] == all[j] && first + j in rest;
      }
    }
  }

  lemma {:induction false} ReportedInOrder(classes: seq<Class>, first: int)
    ensures ListsReported(ReportedIn(classes, first), classes, first)
    decreases |classes|
  {
    if classes != [] {
      var k := |classes| - 1;
      var rest := classes[..k];
      ReportedInOrder(rest, first);
      ListsReportedSnoc(ReportedIn(rest, first), rest, classes[k], first);
      assert rest + [classes[k]] == classes;
      assert ReportedIn(classes, first)
          == ReportedIn(rest, first) + (if classes[k].Reported? then [first + |rest|] else []);
    }
  }

  lemma {:induction false} ReportedInQuiet(classes: seq<Class>, more: seq<Class>, first: int)
    requires forall i :: 0 <= i < |more| ==> !more[i].Reported?
    ensures ReportedIn(classes + more, first) == ReportedIn(classes, first)
    decreases |more|
  {
    if more == [] {
      assert classes + more == classes;
    } else {
      var k := |more| - 1;
      assert (classes + more)[..|classes| + k] == classes + more[..k];
      ReportedInQuiet(classes, more[..k], first);
    }
  }

  lemma {:induction false} ReportedInGap(classes: seq<Class>, t: Tracker, lo: int, hi: int, at: nat, first: int,
                                         bits: nat)
    requires lo <= hi && lo == first + |classes|
    ensures ReportedIn(classes + ClassesOfGap(t, lo, hi, at, bits), first)
            == ReportedIn(classes, first) + NewGaps(t, lo, hi, at, bits)
    decreases hi - lo
  {
    var more := ClassesOfGap(t, lo, hi, at, bits);
    if lo == hi {
      assert classes + more == classes;
    } else {
      var less := ClassesOfGap(t, lo, hi - 1, at, bits);
      ReportedInGap(classes, t, lo, hi - 1, at, first, bits);
      assert (classes + more)[..|classes + more| - 1] == classes + less;
    }
  }

  lemma {:induction false} EvictionsExplainActive(t: Tracker, lo: int, hi: int, at: nat, bits: nat)
    requires lo <= hi && |t.table| <= t.active
    ensures var t' := Track(t, lo, hi, at, bits);
            t'.active == |t'.table| + (t.active - |t.table|) + Evicted(t, lo, hi, at, bits)
    decreases hi - lo
  {
    if lo < hi {
      EvictionsExplainActive(t, lo, hi - 1, at, bits);
      var prior, i := Track(t, lo, hi - 1, at, bits), Idx(hi - 1, bits);
      if !Shadowed(prior.table, hi - 1, bits) {
        var table' := prior.table[i := Pending(hi - 1, at, 0)];
        assert table'.Keys == prior.table.Keys + {i};
      }
    }
  }

  lemma PacketActive(t: Tracker, n: int, at: nat, bits: nat)
    requires Wf(t, bits)
    ensures var t' := OnPacket(t, n, at, bits);
            t'.active - |t'.table| == t.active - |t.table| + NewEvictions(t, n, at, bits)
  {
    if t.expected.Some? && n < t.expected.value && Shadowed(t.table, n, bits) {
      assert (t.table - {Idx(n, bits)}).Keys == t.table.Keys - {Idx(n, bits)};
    }
    if Jump(t, n) {
      EvictionsExplainActive(t, t.expected.value, n, at, bits);
    }
  }

  lemma PacketKept(r: Run, n: int, now: nat, max: nat, bits: nat)
    requires Kept(r, max, bits)
    ensures Kept(Step(r, Packet(n, now), max, bits), max, bits)
  {
    var t, at := r.core.tracker, now + r.core.delay;
    var r' := Step(r, Packet(n, now), max, bits);
    assert r'.core.tracker == OnPacket(t, n, at, bits);
    OnPacketWf(t, n, at, bits);
    PacketActive(t, n, at, bits);
    PacketClasses(t, n, at, r.classes, r.first, bits);
  }

  lemma PacketClasses(t: Tracker, n: int, at: nat, classes: seq<Class>, first: int, bits: nat)
    requires Wf(t, bits)
    requires t.expected.None? ==> classes == []
    requires t.expected.Some? ==> |classes| == t.expected.value - first
    ensures var classes', first' := classes + NewClasses(t, n, at, bits), if t.expected.None? then n else first;
            && ReportedIn(classes', first') == ReportedIn(classes, first) + Reports(t, n, at, bits)
            && OnPacket(t, n, at, bits).expected == Some(first' + |classes'|)
  {
    var c := NewClasses(t, n, at, bits);
    if t.expected.None? {
      ReportedInQuiet([], c, n);
    } else if n < t.expected.value {
      assert classes + c == classes;
    } else if Jump(t, n) {
      JumpClasses(t, n, at, classes, first, bits);
    } else {
      ReportedInQuiet(classes, c, first);
    }
  }

  lemma JumpClasses(t: Tracker, n: int, at: nat, classes: seq<Class>, first: int, bits: nat)
    requires Wf(t, bits) && Jump(t, n) && |classes| == t.expected.value - first
    ensures ReportedIn(classes + NewClasses(t, n, at, bits), first)
            == ReportedIn(classes, first) + Reports(t, n, at, bits)
  {
    var gap := ClassesOfGap(t, t.expected.value, n, at, bits);
    ReportedInGap(classes, t, t.expected.value, n, at, first, bits);
    ReportedInQuiet(classes + gap, [Arrived], first);
    assert classes + (gap + [Arrived]) == classes + gap + [Arrived];
  }

  lemma StepKept(r: Run, e: Event, max: nat, bits: nat)
    requires Kept(r, max, bits)
    ensures Kept(Step(r, e, max, bits), max, bits)
  {
    match e
    case SetDelay(_) =>
    case Tick(now, rtt) => PollWf(r.core.tracker, now, if rtt.Some? then rtt.value else r.core.delay, max, bits);
    case Packet(n, now) => PacketKept(r, n, now, max, bits);
  }

  // ---- pacing ----

  /** Tracking a range starts a fresh chase for each new gap and leaves the other entries alone. */
  lemma {:induction false} TrackEntries(t: Tracker, lo: int, hi: int, at: nat, bits: nat)
    requires lo <= hi
    ensures var t' := Track(t, lo, hi, at, bits);
            forall i :: i in t'.table ==>
              || (i in t.table && t'.table[i] == t.table[i])
              || (t'.table[i].n in NewGaps(t, lo, hi, at, bits) && t'.table[i] == Pending(t'.table[i].n, at, 0))
    ensures forall m :: m in NewGaps(t, lo, hi, at, bits) ==> lo <= m < hi
    decreases hi - lo
  {
    if lo < hi {
      TrackEntries(t, lo, hi - 1, at, bits);
    }
  }

  lemma PacketEntries(t: Tracker, n: int, at: nat, bits: nat)
    requires Wf(t, bits)
    ensures var table' := OnPacket(t, n, at, bits).table;
            forall i :: i in table' ==>
              || (i in t.table && table'[i] == t.table[i])
              || (table'[i].n in Reports(t, n, at, bits) && table'[i] == Pending(table'[i].n, at, 0))
    ensures forall m :: m in Reports(t, n, at, bits) ==> t.expected.Some? && t.expected.value <= m
  {
    if Jump(t, n) {
      TrackEntries(t, t.expected.value, n, at, bits);
    }
  }

  lemma NewChasesAgree(table: map<int, Pending>, table': map<int, Pending>, chases: map<int, Chase>,
                       gaps: seq<int>, at: nat, max: nat)
    requires AllAgree(table, chases, max) && AllPaced(chases, max)
    requires forall m :: m in gaps ==> m !in chases
    requires forall i :: i in table' ==>
               || (i in table && table'[i] == table[i])
               || (table'[i].n in gaps && table'[i] == Pending(table'[i].n, at, 0))
    ensures AllAgree(table', NewChases(chases, gaps, at), max) && AllPaced(NewChases(chases, gaps, at), max)
  {
  }

  lemma PacketChased(r: Run, n: int, now: nat, max: nat, bits: nat)
    requires Kept(r, max, bits) && Chased(r, max)
    ensures Chased(Step(r, Packet(n, now), max, bits), max)
  {
    var t, at := r.core.tracker, now + r.core.delay;
    var gaps := Reports(t, n, at, bits);
    var r' := Step(r, Packet(n, now), max, bits);
    assert r'.core.tracker == OnPacket(t, n, at, bits) && r'.chases == NewChases(r.chases, gaps, at);
    GapsAreNew(r, n, at, max, bits);
    PacketEntries(t, n, at, bits);
    NewChasesAgree(t.table, OnPacket(t, n, at, bits).table, r.chases, gaps, at, max);
  }

  lemma GapsAreNew(r: Run, n: int, at: nat, max: nat, bits: nat)
    requires Kept(r, max, bits) && ChasesReports(r.chases, r.reports)
    ensures forall m :: m in Reports(r.core.tracker, n, at, bits) ==> m !in r.chases
  {
    KeptLists(r, max, bits);
    PacketEntries(r.core.tracker, n, at, bits);
  }

  /** The keys of a well-formed table tell its numbers apart. */
  lemma ListAllAgrees(table: map<int, Pending>, chases: map<int, Chase>, now: nat, delay: nat, max: nat, bits: nat)
    requires AllAgree(table, chases, max) && AllPaced(chases, max)
    requires forall i :: i in table ==> Idx(table[i].n, bits) == i
    ensures AllAgree(PollTable(table, now, delay, max), ListAll(chases, table, now, delay, max, bits), max)
    ensures AllPaced(ListAll(chases, table, now, delay, max, bits), max)
  {
    var chases' := ListAll(chases, table, now, delay, max, bits);
    forall n | n in chases'
      ensures Paced(chases'[n], max)
    {
      var i := Idx(n, bits);
      if i in table && table[i].n == n && Listed(table[i], now, max) {
        assert Agrees(table[i], chases[n], max);
      }
    }
    forall i | i in PollTable(table, now, delay, max)
      ensures Agrees(PollTable(table, now, delay, max)[i], chases'[table[i].n], max)
    {
      assert Agrees(table[i], chases[table[i].n], max);
    }
  }

  lemma StepChased(r: Run, e: Event, max: nat, bits: nat)
    requires Kept(r, max, bits) && Chased(r, max)
    ensures Chased(Step(r, e, max, bits), max)
  {
    match e
    case SetDelay(_) =>
    case Tick(now, rtt) =>
      ListAllAgrees(r.core.tracker.table, r.chases, now, if rtt.Some? then rtt.value else r.core.delay, max, bits);
    case Packet(n, now) => PacketChased(r, n, now, max, bits);
  }

  ghost function RunOf(es: seq<Event>, delay: nat, max: nat, bits: nat): (r: Run)
    ensures Wf(r.core.tracker, bits)
  {
    if es == [] then Begin(delay)
    else
      var r := RunOf(es[..|es| - 1], delay, max, bits);
      CoreStepWf(r.core, es[|es| - 1], max, bits);
      Step(r, es[|es| - 1], max, bits)
  }

  lemma {:induction false} RunSound(es: seq<Event>, delay: nat, max: nat, bits: nat)
    ensures Kept(RunOf(es, delay, max, bits), max, bits) && Chased(RunOf(es, delay, max, bits), max)
    decreases |es|
  {
    if es != [] {
      var r := RunOf(es[..|es| - 1], delay, max, bits);
      RunSound(es[..|es| - 1], delay, max, bits);
      StepKept(r, es[|es| - 1], max, bits);
      StepChased(r, es[|es| - 1], max, bits);
    }
  }

  /**
   Over every run: each number from the first arrival up to the frontier has one class;
   the reports are exactly the numbers classed as reported and strictly increase, so no gap
   is reported twice; and the active counter is the number of active slots plus evictions.
   */
  lemma EveryNumberClassed(es: seq<Event>, delay: nat, max: nat, bits: nat)
    ensures var r := RunOf(es, delay, max, bits);
            && (r.core.tracker.expected.Some? ==> |r.classes| == r.core.tracker.expected.value - r.first)
            && ListsReported(r.reports, r.classes, r.first)
            && r.core.tracker.active == |r.core.tracker.table| + r.evictions
  {
    RunSound(es, delay, max, bits);
    KeptLists(RunOf(es, delay, max, bits), max, bits);
  }

  lemma KeptLists(r: Run, max: nat, bits: nat)
    requires Kept(r, max, bits)
    ensures ListsReported(r.reports, r.classes, r.first)
  {
    ReportedInOrder(r.classes, r.first);
  }

  /**
   Over every run each gap is listed at most `max` times, first no sooner than the delay in
   force when it was found, and then spaced by at least the delay in force at each listing.
   */
  lemma EveryChasePaced(es: seq<Event>, delay: nat, max: nat, bits: nat, n: int)
    ensures var r := RunOf(es, delay, max, bits);
            n in r.reports ==> n in r.chases && Paced(r.chases[n], max)
  {
    var r := RunOf(es, delay, max, bits);
    RunSound(es, delay, max, bits);
    assert ChasesReports(r.chases, r.reports) && AllPaced(r.chases, max);
  }

  /** A number is hidden only behind a pending entry from an earlier 65536-cycle. */
  lemma {:induction false} HiddenOnlyByOldCycle(t: Tracker, lo: int, hi: int, at: nat, floor: int, bits: nat)
    requires lo <= hi <= floor + 0x1_0000 && floor < lo
    requires forall i :: i in t.table ==> floor <= t.table[i].n < lo
    ensures forall k :: 0 <= k < hi - lo ==> ClassesOfGap(t, lo, hi, at, bits)[k] == Reported
    ensures forall i :: i in Track(t, lo, hi, at, bits).table ==> floor <= Track(t, lo, hi, at, bits).table[i].n < hi
    decreases hi - lo
  {
    if lo < hi {
      HiddenOnlyByOldCycle(t, lo, hi - 1, at, floor, bits);
      var prior, i := Track(t, lo, hi - 1, at, bits), Idx(hi - 1, bits);
      if i in prior.table {
        WrapDistinct(prior.table[i].n, hi - 1);
      }
      assert !Shadowed(prior.table, hi - 1, bits);
      assert Track(t, lo, hi, at, bits).table == prior.table[i := Pending(hi - 1, at, 0)];
    }
  }

  // ---- arrivals over whole runs ----

  /** Below the frontier and with nothing pending under its 16 bits. */
  ghost predicate Settled(t: Tracker, n: int, bits: nat) {
    t.expected.Some? && n < t.expected.value && Silent(t, n, bits)
  }

  lemma StepStaysSettled(c: Core, e: Event, max: nat, n: int, bits: nat)
    requires bits <= 16 && Wf(c.tracker, bits) && Settled(c.tracker, n, bits)
    requires e.Packet? ==> e.n <= n + 0x1_0000
    ensures Settled(CoreStep(c, e, max, bits).tracker, n, bits)
  {
    match e
    case SetDelay(_) =>
    case Tick(now, rtt) =>
      PollStaysSilent(c.tracker, now, if rtt.Some? then rtt.value else c.delay, max, n, bits);
    case Packet(k, now) =>
      PacketStaysSilent(c.tracker, k, now + c.delay, n, bits);
      if Jump(c.tracker, k) {
        TrackWf(c.tracker, c.tracker.expected.value, k, now + c.delay, bits);
      }
  }

  /** The wire number `w` is on the due list of a poll at `now`. */
  ghost predicate InDueList(t: Tracker, w: U16, now: nat, max: nat) {
    exists i :: i in t.table && Listed(t.table[i], now, max) && Wrap(t.table[i].n) == w
  }

  /** A silent number is on no due list: every entry with its 16 bits would be in its slot. */
  lemma SilentIsNotDue(t: Tracker, n: int, now: nat, max: nat, bits: nat)
    requires bits <= 16 && Wf(t, bits) && Silent(t, n, bits)
    ensures !InDueList(t, Wrap(n), now, max)
  {
    forall i | i in t.table
      ensures Wrap(t.table[i].n) != Wrap(n)
    {
      IdxOfWrap(n, bits);
      IdxOfWrap(t.table[i].n, bits);
    }
  }

  /** Packet `n` is below the frontier, or no entry left from an earlier cycle shows its 16 bits. */
  ghost predicate Unmistaken(t: Tracker, n: int, bits: nat) {
    t.expected.Some? && n >= t.expected.value ==> Silent(t, n, bits)
  }

  /** Exactly such an arrival settles its number. */
  lemma ArrivalSettlesIff(t: Tracker, n: int, at: nat, bits: nat)
    requires Wf(t, bits) && Pow2(bits) > MAX_TRACKABLE_GAP
    ensures Settled(OnPacket(t, n, at, bits), n, bits) <==> Unmistaken(t, n, bits)
  {
    if t.expected.Some? {
      if n < t.expected.value {
        LateArrivalSilences(t, n, at, bits);
      } else {
        FrontierArrivalSilentIff(t, n, at, bits);
        if Jump(t, n) {
          TrackWf(t, t.expected.value, n, at, bits);
        }
      }
    }
  }

  ghost predicate SettledAt(es: seq<Event>, b: nat, n: int, delay: nat, max: nat, bits: nat)
    requires b <= |es|
  {
    Settled(After(es[..b], delay, max, bits).tracker, n, bits)
  }

  /** The arrival settles its number ... */
  lemma SettledByArrival(es: seq<Event>, a: nat, b: nat, delay: nat, max: nat, bits: nat)
    requires bits <= 16 && Pow2(bits) > MAX_TRACKABLE_GAP && a < |es| && b == a + 1 && es[a].Packet?
    requires Unmistaken(After(es[..a], delay, max, bits).tracker, es[a].n, bits)
    ensures SettledAt(es, b, es[a].n, delay, max, bits)
  {
    AfterSnoc(es, b, delay, max, bits);
    var c := After(es[..a], delay, max, bits);
    ArrivalSettlesIff(c.tracker, es[a].n, es[a].now + c.delay, bits);
  }

  /** ... and it stays settled ... */
  lemma SettledNext(es: seq<Event>, b: nat, b': nat, n: int, delay: nat, max: nat, bits: nat)
    requires bits <= 16 && b < |es| && b' == b + 1 && SettledAt(es, b, n, delay, max, bits)
    requires es[b].Packet? ==> es[b].n <= n + 0x1_0000
    ensures SettledAt(es, b', n, delay, max, bits)
  {
    AfterSnoc(es, b', delay, max, bits);
    StepStaysSettled(After(es[..b], delay, max, bits), es[b], max, n, bits);
  }

  lemma {:induction false} StaysSettled(es: seq<Event>, a: nat, b: nat, n: int, delay: nat, max: nat, bits: nat)
    requires bits <= 16 && a <= b <= |es| && SettledAt(es, a, n, delay, max, bits)
    requires forall k :: a <= k < b && es[k].Packet? ==> es[k].n <= n + 0x1_0000
    ensures SettledAt(es, b, n, delay, max, bits)
    decreases b
  {
    if a < b {
      StaysSettled(es, a, b - 1, n, delay, max, bits);
      SettledNext(es, b - 1, b, n, delay, max, bits);
    }
  }

  /** ... and a settled number is on no due list. */
  lemma SettledIsNotDue(es: seq<Event>, b: nat, n: int, now: nat, delay: nat, max: nat, bits: nat)
    requires bits <= 16 && b <= |es| && SettledAt(es, b, n, delay, max, bits)
    ensures !InDueList(After(es[..b], delay, max, bits).tracker, Wrap(n), now, max)
  {
    SilentIsNotDue(After(es[..b], delay, max, bits).tracker, n, now, max, bits);
  }

  /**
   Once a number has arrived, below the frontier or at it, it is on no later due list until a packet
   more than 65536 ahead of it has arrived; unless an entry left from an earlier cycle already showed
   its 16 bits when it arrived at the frontier.
   */
  lemma NeverListedAfterArrival(es: seq<Event>, a: nat, b: nat, now: nat, delay: nat, max: nat, bits: nat)
    requires bits <= 16 && Pow2(bits) > MAX_TRACKABLE_GAP && a < b <= |es| && es[a].Packet?
    requires Unmistaken(After(es[..a], delay, max, bits).tracker, es[a].n, bits)
    requires forall k :: a < k < b && es[k].Packet? ==> es[k].n <= es[a].n + 0x1_0000
    ensures SettledAt(es, b, es[a].n, delay, max, bits)
    ensures !InDueList(After(es[..b], delay, max, bits).tracker, Wrap(es[a].n), now, max)
  {
    SettledByArrival(es, a, a + 1, delay, max, bits);
    StaysSettled(es, a + 1, b, es[a].n, delay, max, bits);
    SettledIsNotDue(es, b, es[a].n, now, delay, max, bits);
  }

  /** The books are kept beside the scheduler and do not steer it. */
  lemma {:induction false} RunOfCore(es: seq<Event>, delay: nat, max: nat, bits: nat)
    ensures RunOf(es, delay, max, bits).core == After(es, delay, max, bits)
    decreases |es|
  {
    if es != [] {
      RunOfCore(es[..|es| - 1], delay, max, bits);
    }
  }

  // ---- what the classes mean ----

  /** Packet `n`, arriving at `t`, puts number `x` into class `c`. */
  ghost predicate Explains(t: Tracker, n: int, at: nat, x: int, c: Class, bits: nat) {
    match c
    case Arrived => x == n && (t.expected.Some? ==> t.expected.value <= n)
    case Skipped => t.expected.Some? && t.expected.value <= x < n && n - t.expected.value > 1000
    case Reported => Jump(t, n) && t.expected.value <= x < n && x in Reports(t, n, at, bits)
    case Hidden =>
      && Jump(t, n) && t.expected.value <= x < n && x !in Reports(t, n, at, bits)
      && Shadowed(Track(t, t.expected.value, x, at, bits).table, x, bits)
  }

  /** In a tracked gap, a number is reported unless its slot already shows its 16 bits. */
  lemma {:induction false} GapClasses(t: Tracker, lo: int, hi: int, at: nat, x: int, bits: nat)
    requires lo <= x < hi
    ensures var c := ClassesOfGap(t, lo, hi, at, bits)[x - lo];
            && c == (if Shadowed(Track(t, lo, x, at, bits).table, x, bits) then Hidden else Reported)
            && (c == Reported <==> x in NewGaps(t, lo, hi, at, bits))
    decreases hi - lo
  {
    TrackEntries(t, lo, hi - 1, at, bits);
    if x < hi - 1 {
      GapClasses(t, lo, hi - 1, at, x, bits);
    }
  }

  lemma NewClassesExplained(t: Tracker, n: int, at: nat, i: nat, bits: nat)
    requires i < |NewClasses(t, n, at, bits)|
    ensures var f := if t.expected.None? then n else t.expected.value;
            Explains(t, n, at, f + i, NewClasses(t, n, at, bits)[i], bits)
  {
    if Jump(t, n) && i < n - t.expected.value {
      GapClasses(t, t.expected.value, n, at, t.expected.value + i, bits);
    }
  }

  /** Event `j` of the run is the packet that put `x` into class `c`. */
  ghost predicate ExplainedBy(es: seq<Event>, j: nat, x: int, c: Class, delay: nat, max: nat, bits: nat) {
    && j < |es| && es[j].Packet?
    && var before := After(es[..j], delay, max, bits);
       Explains(before.tracker, es[j].n, es[j].now + before.delay, x, c, bits)
  }

  ghost predicate Explained(es: seq<Event>, x: int, c: Class, delay: nat, max: nat, bits: nat) {
    exists j :: ExplainedBy(es, j, x, c, delay, max, bits)
  }

  ghost predicate AllExplained(es: seq<Event>, r: Run, delay: nat, max: nat, bits: nat) {
    forall k :: 0 <= k < |r.classes| ==> Explained(es, r.first + k, r.classes[k], delay, max, bits)
  }

  /** A step keeps the classes given so far and explains the ones it adds. */
  ghost predicate Continues(r: Run, e: Event, r': Run, k: nat, bits: nat)
    requires k < |r'.classes|
  {
    if k < |r.classes| then r'.first == r.first && r'.classes[k] == r.classes[k]
    else e.Packet? && Explains(r.core.tracker, e.n, e.now + r.core.delay, r'.first + k, r'.classes[k], bits)
  }

  lemma StepContinues(r: Run, e: Event, k: nat, max: nat, bits: nat)
    requires Kept(r, max, bits) && k < |Step(r, e, max, bits).classes|
    ensures Continues(r, e, Step(r, e, max, bits), k, bits)
  {
    if k >= |r.classes| && e.Packet? {
      NewClassesExplained(r.core.tracker, e.n, e.now + r.core.delay, k - |r.classes|, bits);
    }
  }

  lemma AddedExplained(es: seq<Event>, m: nat, r: Run, r': Run, k: nat, delay: nat, max: nat, bits: nat)
    requires m < |es| && r.core == After(es[..m], delay, max, bits)
    requires |r.classes| <= k < |r'.classes| && Continues(r, es[m], r', k, bits)
    ensures Explained(es, r'.first + k, r'.classes[k], delay, max, bits)
  {
    assert ExplainedBy(es, m, r'.first + k, r'.classes[k], delay, max, bits);
  }

  lemma ContinuesExplained(es: seq<Event>, m: nat, r: Run, r': Run, delay: nat, max: nat, bits: nat)
    requires m < |es| && r.core == After(es[..m], delay, max, bits) && AllExplained(es, r, delay, max, bits)
    requires forall k :: 0 <= k < |r'.classes| ==> Continues(r, es[m], r', k, bits)
    ensures AllExplained(es, r', delay, max, bits)
  {
    forall k | 0 <= k < |r'.classes|
      ensures Explained(es, r'.first + k, r'.classes[k], delay, max, bits)
    {
      assert Continues(r, es[m], r', k, bits);
      if k < |r.classes| {
        assert Explained(es, r.first + k, r.classes[k], delay, max, bits);
      } else {
        AddedExplained(es, m, r, r', k, delay, max, bits);
      }
    }
  }

  ghost predicate ExplainedUpTo(es: seq<Event>, m: nat, delay: nat, max: nat, bits: nat) {
    m <= |es| && AllExplained(es, RunOf(es[..m], delay, max, bits), delay, max, bits)
  }

  lemma ExplainedNext(es: seq<Event>, m: nat, delay: nat, max: nat, bits: nat)
    requires m < |es| && ExplainedUpTo(es, m, delay, max, bits)
    ensures ExplainedUpTo(es, m + 1, delay, max, bits)
  {
    var r, r' := RunOf(es[..m], delay, max, bits), RunOf(es[..m + 1], delay, max, bits);
    RunOfSnoc(es, m, delay, max, bits);
    RunOfCore(es[..m], delay, max, bits);
    RunSound(es[..m], delay, max, bits);
    forall k | 0 <= k < |r'.classes|
      ensures Continues(r, es[m], r', k, bits)
    {
      StepContinues(r, es[m], k, max, bits);
    }
    ContinuesExplained(es, m, r, r', delay, max, bits);
  }

  lemma RunOfSnoc(es: seq<Event>, m: nat, delay: nat, max: nat, bits: nat)
    requires m < |es|
    ensures RunOf(es[..m + 1], delay, max, bits) == Step(RunOf(es[..m], delay, max, bits), es[m], max, bits)
  {
    assert es[..m + 1][..m] == es[..m];
  }

  /**
   Every number below the frontier is in its class for a reason found in the run: it arrived at the
   frontier, was reported as a new gap, lay in a jump of more than 1000, or was hidden by an entry
   with the same 16 bits.
   */
  lemma {:induction false} EveryClassExplained(es: seq<Event>, m: nat, delay: nat, max: nat, bits: nat)
    requires m <= |es|
    ensures ExplainedUpTo(es, m, delay, max, bits)
    decreases m
  {
    if m > 0 {
      EveryClassExplained(es, m - 1, delay, max, bits);
      ExplainedNext(es, m - 1, delay, max, bits);
    }
  }

  // ---- how long a gap is chased ----

  /** Event `e` ends the chase of `n`: its arrival, its last retry, or a gap a whole ring later in its slot. */
  ghost predicate Ends(c: Core, e: Event, n: int, max: nat, bits: nat)
    requires Wf(c.tracker, bits) && Tracks(c.tracker, n, bits)
  {
    match e
    case SetDelay(_) => false
    case Tick(now, _) => Ripe(c.tracker.table[Idx(n, bits)], now) && c.tracker.table[Idx(n, bits)].count >= max
    case Packet(k, _) => k == n || (Jump(c.tracker, k) && Overtaken(n, c.tracker.expected.value, k, bits))
  }

  /** `n` is at most half the number space behind the frontier, and a packet lies within half of it. */
  ghost predicate Near(c: Core, e: Event, n: int) {
    c.tracker.expected.Some? ==>
      && c.tracker.expected.value - 0x8000 <= n
      && (e.Packet? ==> c.tracker.expected.value - 0x8000 <= e.n < c.tracker.expected.value + 0x8000)
  }

  lemma StepKeepsTracked(c: Core, e: Event, n: int, max: nat, bits: nat)
    requires bits <= 16 && Wf(c.tracker, bits) && Tracks(c.tracker, n, bits) && Near(c, e, n)
    ensures Tracks(CoreStep(c, e, max, bits).tracker, n, bits) || Ends(c, e, n, max, bits)
  {
    match e
    case SetDelay(_) =>
    case Tick(now, rtt) => PollKeepsTracked(c.tracker, now, if rtt.Some? then rtt.value else c.delay, max, n, bits);
    case Packet(k, now) => PacketKeepsTracked(c.tracker, k, now + c.delay, n, bits);
  }

  ghost predicate EndedAt(es: seq<Event>, j: nat, n: int, delay: nat, max: nat, bits: nat)
    requires j < |es|
  {
    var c := After(es[..j], delay, max, bits);
    Tracks(c.tracker, n, bits) && Ends(c, es[j], n, max, bits)
  }

  ghost predicate TrackedAt(es: seq<Event>, m: nat, n: int, delay: nat, max: nat, bits: nat) {
    m <= |es| && Tracks(After(es[..m], delay, max, bits).tracker, n, bits)
  }

  ghost predicate NearAt(es: seq<Event>, m: nat, n: int, delay: nat, max: nat, bits: nat)
    requires m < |es|
  {
    Near(After(es[..m], delay, max, bits), es[m], n)
  }

  lemma TrackedNext(es: seq<Event>, m: nat, m': nat, n: int, delay: nat, max: nat, bits: nat)
    requires bits <= 16 && m < |es| && m' == m + 1
    requires TrackedAt(es, m, n, delay, max, bits) && NearAt(es, m, n, delay, max, bits)
    ensures TrackedAt(es, m', n, delay, max, bits) || EndedAt(es, m, n, delay, max, bits)
  {
    AfterSnoc(es, m', delay, max, bits);
    StepKeepsTracked(After(es[..m], delay, max, bits), es[m], n, max, bits);
  }

  /** Over every run a tracked number stays tracked until one of the three ends comes. */
  lemma {:induction false} TrackedUntil(es: seq<Event>, a: nat, b: nat, n: int, delay: nat, max: nat, bits: nat)
    requires bits <= 16 && a <= b <= |es| && TrackedAt(es, a, n, delay, max, bits)
    requires forall j :: a <= j < b ==> NearAt(es, j, n, delay, max, bits)
    ensures TrackedAt(es, b, n, delay, max, bits) || exists j :: a <= j < b && EndedAt(es, j, n, delay, max, bits)
    decreases b
  {
    if a < b {
      TrackedUntil(es, a, b - 1, n, delay, max, bits);
      if TrackedAt(es, b - 1, n, delay, max, bits) {
        TrackedNext(es, b - 1, b, n, delay, max, bits);
      }
    }
  }

  // ---- when a number is listed ----

  /** When a chase is due next: a delay after its last listing, or when it first is. */
  function NextDue(c: Chase): nat {
    if c.listings == [] then c.first
    else c.listings[|c.listings| - 1].at + c.listings[|c.listings| - 1].delay
  }

  ghost predicate SoundRun(r: Run, max: nat, bits: nat) {
    Kept(r, max, bits) && Chased(r, max)
  }

  /** A tracked number's entry is what its history says. */
  lemma EntryOf(r: Run, n: int, max: nat, bits: nat)
    requires SoundRun(r, max, bits) && Tracks(r.core.tracker, n, bits)
    ensures n in r.chases && |r.chases[n].listings| <= max
    ensures r.core.tracker.table[Idx(n, bits)] == Pending(n, NextDue(r.chases[n]), |r.chases[n].listings|)
  {
    assert Agrees(r.core.tracker.table[Idx(n, bits)], r.chases[n], max);
  }

  /** Only the entry of a tracked number shows its 16 bits. */
  lemma DueIsOwnEntry(t: Tracker, n: int, now: nat, max: nat, bits: nat)
    requires bits <= 16 && Wf(t, bits) && Tracks(t, n, bits)
    ensures InDueList(t, Wrap(n), now, max) <==> Listed(t.table[Idx(n, bits)], now, max)
  {
    forall i | i in t.table && Wrap(t.table[i].n) == Wrap(n)
      ensures i == Idx(n, bits)
    {
      IdxOfWrap(n, bits);
      IdxOfWrap(t.table[i].n, bits);
    }
  }

  /**
   After every run, a tracked number is on the due list of a poll at `now` if and only if it has been
   listed fewer than `max` times and its next time has come: its first time, or the delay then in force
   after its last listing.
   */
  lemma DueListIff(es: seq<Event>, n: int, now: nat, delay: nat, max: nat, bits: nat)
    requires bits <= 16 && Tracks(RunOf(es, delay, max, bits).core.tracker, n, bits)
    ensures var r := RunOf(es, delay, max, bits);
            && n in r.chases
            && (InDueList(r.core.tracker, Wrap(n), now, max)
                <==> |r.chases[n].listings| < max && now >= NextDue(r.chases[n]))
  {
    var r := RunOf(es, delay, max, bits);
    RunSound(es, delay, max, bits);
    EntryOf(r, n, max, bits);
    DueIsOwnEntry(r.core.tracker, n, now, max, bits);
  }

  // ---- listed exactly as often as allowed ----

  function DelayOf(e: Event, delay: nat): nat
    requires e.Tick?
  {
    if e.rtt.Some? then e.rtt.value else delay
  }

  /** A poll that comes in time lists a tracked number and reschedules it, ... */
  lemma TickLists(r: Run, e: Event, n: int, max: nat, bits: nat)
    requires SoundRun(r, max, bits) && Tracks(r.core.tracker, n, bits) && e.Tick? && n in r.chases
    requires |r.chases[n].listings| < max && e.now >= NextDue(r.chases[n])
    ensures var r', c := Step(r, e, max, bits), r.chases[n];
            && Tracks(r'.core.tracker, n, bits) && n in r'.chases && r'.core.delay == r.core.delay
            && r'.chases[n] == c.(listings := c.listings + [Listing(e.now, DelayOf(e, r.core.delay))])
  {
    EntryOf(r, n, max, bits);
  }

  /** ... one that comes too early leaves it alone, ... */
  lemma TickWaits(r: Run, e: Event, n: int, max: nat, bits: nat)
    requires SoundRun(r, max, bits) && Tracks(r.core.tracker, n, bits) && e.Tick? && n in r.chases
    requires e.now < NextDue(r.chases[n])
    ensures var r' := Step(r, e, max, bits);
            Tracks(r'.core.tracker, n, bits) && n in r'.chases && r'.chases[n] == r.chases[n]
  {
    EntryOf(r, n, max, bits);
  }

  /** ... and one that comes in time after the last retry drops it. */
  lemma TickDrops(r: Run, e: Event, n: int, max: nat, bits: nat)
    requires SoundRun(r, max, bits) && Tracks(r.core.tracker, n, bits) && e.Tick? && n in r.chases
    requires |r.chases[n].listings| == max && e.now >= NextDue(r.chases[n])
    ensures var r' := Step(r, e, max, bits);
            !Tracks(r'.core.tracker, n, bits) && n in r'.chases && r'.chases[n] == r.chases[n]
  {
    EntryOf(r, n, max, bits);
  }

  /** Polls, each not before the delay after the one before it; the first not before `due`. */
  ghost predicate OftenEnough(ts: seq<Event>, due: nat, delay: nat) {
    (forall j :: 0 <= j < |ts| ==> ts[j].Tick?) && forall j :: 0 <= j < |ts| ==> InTime(ts, j, due, delay)
  }

  ghost predicate InTime(ts: seq<Event>, j: nat, due: nat, delay: nat)
    requires j < |ts| && forall i :: 0 <= i < |ts| ==> ts[i].Tick?
  {
    ts[j].now >= if j == 0 then due else ts[j - 1].now + DelayOf(ts[j - 1], delay)
  }

  lemma OftenEnoughBefore(ts: seq<Event>, k: nat, due: nat, delay: nat)
    requires k <= |ts| && OftenEnough(ts, due, delay)
    ensures OftenEnough(ts[..k], due, delay)
  {
    forall j | 0 <= j < k
      ensures InTime(ts[..k], j, due, delay)
    {
      assert InTime(ts, j, due, delay);
    }
  }

  /** The listings these polls make. */
  function ListingsOf(ts: seq<Event>, delay: nat): (ls: seq<Listing>)
    requires forall j :: 0 <= j < |ts| ==> ts[j].Tick?
    ensures |ls| == |ts|
  {
    seq(|ts|, j requires 0 <= j < |ts| => Listing(ts[j].now, DelayOf(ts[j], delay)))
  }

  /** A run that goes on. */
  ghost function StepAll(r: Run, ts: seq<Event>, max: nat, bits: nat): (r': Run)
    requires Wf(r.core.tracker, bits)
    ensures Wf(r'.core.tracker, bits)
  {
    if ts == [] then r
    else
      var r' := StepAll(r, ts[..|ts| - 1], max, bits);
      CoreStepWf(r'.core, ts[|ts| - 1], max, bits);
      Step(r', ts[|ts| - 1], max, bits)
  }

  ghost predicate GoesOn(es: seq<Event>, ts: seq<Event>, delay: nat, max: nat, bits: nat) {
    RunOf(es + ts, delay, max, bits) == StepAll(RunOf(es, delay, max, bits), ts, max, bits)
  }

  lemma GoesOnNext(es: seq<Event>, ts: seq<Event>, m: nat, delay: nat, max: nat, bits: nat)
    requires ts != [] && m == |ts| - 1 && GoesOn(es, ts[..m], delay, max, bits)
    ensures GoesOn(es, ts, delay, max, bits)
  {
    var all, k := es + ts, |es| + m;
    assert all[..k] == es + ts[..m] && all[k] == ts[m] && all[..k + 1] == all;
    RunOfSnoc(all, k, delay, max, bits);
  }

  lemma {:induction false} RunOfAll(es: seq<Event>, ts: seq<Event>, delay: nat, max: nat, bits: nat)
    ensures GoesOn(es, ts, delay, max, bits)
    decreases |ts|
  {
    if ts == [] {
      assert es + ts == es;
    } else {
      RunOfAll(es, ts[..|ts| - 1], delay, max, bits);
      GoesOnNext(es, ts, |ts| - 1, delay, max, bits);
    }
  }

  lemma {:induction false} StepAllSound(r: Run, ts: seq<Event>, max: nat, bits: nat)
    requires SoundRun(r, max, bits)
    ensures SoundRun(StepAll(r, ts, max, bits), max, bits)
    decreases |ts|
  {
    if ts != [] {
      var m := |ts| - 1;
      StepAllSound(r, ts[..m], max, bits);
      StepKept(StepAll(r, ts[..m], max, bits), ts[m], max, bits);
      StepChased(StepAll(r, ts[..m], max, bits), ts[m], max, bits);
    }
  }

  /** From `r` to `r'` number `n` was listed by each of these polls, and is still tracked. */
  ghost predicate ListedBy(r: Run, ts: seq<Event>, r': Run, n: int, bits: nat) {
    && (forall j :: 0 <= j < |ts| ==> ts[j].Tick?)
    && Tracks(r'.core.tracker, n, bits) && n in r.chases && n in r'.chases && r'.core.delay == r.core.delay
    && r'.chases[n] == r.chases[n].(listings := r.chases[n].listings + ListingsOf(ts, r.core.delay))
  }

  lemma ListingsOfMore(ts: seq<Event>, delay: nat)
    requires ts != [] && forall j :: 0 <= j < |ts| ==> ts[j].Tick?
    ensures var m := |ts| - 1;
            ListingsOf(ts, delay) == ListingsOf(ts[..m], delay) + [Listing(ts[m].now, DelayOf(ts[m], delay))]
  {
  }

  /** After these polls the number is due when the next poll comes. */
  lemma DueAgain(c: Chase, c': Chase, ts: seq<Event>, m: nat, delay: nat)
    requires m < |ts| && OftenEnough(ts, NextDue(c), delay)
    requires c' == c.(listings := c.listings + ListingsOf(ts[..m], delay))
    ensures ts[m].now >= NextDue(c') && |c'.listings| == |c.listings| + m
  {
    assert InTime(ts, m, NextDue(c), delay);
    if m > 0 {
      assert c'.listings[|c'.listings| - 1] == ListingsOf(ts[..m], delay)[m - 1];
    }
  }

  lemma PollIsListed(r: Run, ts: seq<Event>, r': Run, n: int, max: nat, bits: nat)
    requires ts != [] && SoundRun(r', max, bits) && n in r.chases
    requires OftenEnough(ts, NextDue(r.chases[n]), r.core.delay) && |r.chases[n].listings| + |ts| <= max
    requires ListedBy(r, ts[..|ts| - 1], r', n, bits)
    ensures ListedBy(r, ts, Step(r', ts[|ts| - 1], max, bits), n, bits)
  {
    var m, c := |ts| - 1, r.chases[n];
    DueAgain(c, r'.chases[n], ts, m, r.core.delay);
    TickLists(r', ts[m], n, max, bits);
    ListingsOfMore(ts, r.core.delay);
    var l := [Listing(ts[m].now, DelayOf(ts[m], r.core.delay))];
    assert (c.listings + ListingsOf(ts[..m], r.core.delay)) + l == c.listings + (ListingsOf(ts[..m], r.core.delay) + l);
  }

  lemma {:induction false} PollsAreListed(r: Run, ts: seq<Event>, n: int, max: nat, bits: nat)
    requires SoundRun(r, max, bits) && Tracks(r.core.tracker, n, bits) && n in r.chases
    requires OftenEnough(ts, NextDue(r.chases[n]), r.core.delay) && |r.chases[n].listings| + |ts| <= max
    ensures ListedBy(r, ts, StepAll(r, ts, max, bits), n, bits)
    decreases |ts|
  {
    if ts == [] {
      assert r.chases[n].listings + ListingsOf(ts, r.core.delay) == r.chases[n].listings;
    } else {
      var m := |ts| - 1;
      OftenEnoughBefore(ts, m, NextDue(r.chases[n]), r.core.delay);
      PollsAreListed(r, ts[..m], n, max, bits);
      StepAllSound(r, ts[..m], max, bits);
      PollIsListed(r, ts, StepAll(r, ts[..m], max, bits), n, max, bits);
    }
  }

  /**
   A number that never arrives, polled often enough, is listed exactly `max` times, at the times of the
   polls; the next poll in time drops it without listing it.
   */
  lemma ListedExactlyMax(es: seq<Event>, ts: seq<Event>, e: Event, n: int, delay: nat, max: nat, bits: nat)
    requires Tracks(RunOf(es, delay, max, bits).core.tracker, n, bits) && n in RunOf(es, delay, max, bits).chases
    requires var r := RunOf(es, delay, max, bits);
             OftenEnough(ts + [e], NextDue(r.chases[n]), r.core.delay) && |ts| == max - |r.chases[n].listings|
    ensures ListedBy(RunOf(es, delay, max, bits), ts, RunOf(es + ts, delay, max, bits), n, bits)
    ensures var r := RunOf(es + (ts + [e]), delay, max, bits);
            !Tracks(r.core.tracker, n, bits) && n in r.chases && |r.chases[n].listings| == max
  {
    var r := RunOf(es, delay, max, bits);
    RunSound(es, delay, max, bits);
    RunOfAll(es, ts, delay, max, bits);
    RunOfAll(es, ts + [e], delay, max, bits);
    LastPollDrops(r, ts, e, n, max, bits);
  }

  lemma LastPollDrops(r: Run, ts: seq<Event>, e: Event, n: int, max: nat, bits: nat)
    requires SoundRun(r, max, bits) && Tracks(r.core.tracker, n, bits) && n in r.chases
    requires OftenEnough(ts + [e], NextDue(r.chases[n]), r.core.delay) && |ts| == max - |r.chases[n].listings|
    ensures ListedBy(r, ts, StepAll(r, ts, max, bits), n, bits)
    ensures var r' := StepAll(r, ts + [e], max, bits);
            !Tracks(r'.core.tracker, n, bits) && n in r'.chases && |r'.chases[n].listings| == max
  {
    var all := ts + [e];
    assert all[..|ts|] == ts && all[|ts|] == e;
    OftenEnoughBefore(all, |ts|, NextDue(r.chases[n]), r.core.delay);
    PollsAreListed(r, ts, n, max, bits);
    StepAllSound(r, ts, max, bits);
    var r' := StepAll(r, ts, max, bits);
    DueAgain(r.chases[n], r'.chases[n], all, |ts|, r.core.delay);
    TickDrops(r', e, n, max, bits);
  }

  // ---- where the times come from ----

  /** The base delay in force: the last one set. */
  function InForce(es: seq<Event>, delay: nat): nat {
    if es == [] then delay
    else if es[|es| - 1].SetDelay? then es[|es| - 1].delay
    else InForce(es[..|es| - 1], delay)
  }

  lemma {:induction false} CoreDelay(es: seq<Event>, delay: nat, max: nat, bits: nat)
    ensures After(es, delay, max, bits).delay == InForce(es, delay)
    decreases |es|
  {
    if es != [] {
      CoreDelay(es[..|es| - 1], delay, max, bits);
    }
  }

  /** Packet `j` jumped over `n`, and `first` is the base delay then in force later. */
  ghost predicate BeganAt(es: seq<Event>, j: nat, n: int, first: nat, delay: nat, max: nat, bits: nat) {
    && j < |es| && es[j].Packet? && n < es[j].n <= n + 1000 && first == es[j].now + InForce(es[..j], delay)
    && var f := After(es[..j], delay, max, bits).tracker.expected;
       f.Some? && f.value <= n
  }

  ghost predicate Began(es: seq<Event>, n: int, first: nat, delay: nat, max: nat, bits: nat) {
    exists j: nat :: BeganAt(es, j, n, first, delay, max, bits)
  }

  /** Poll `j` made the listing: at its time, with the RTT it was given or else the base delay. */
  ghost predicate MadeAt(es: seq<Event>, j: nat, l: Listing, delay: nat) {
    && j < |es| && es[j].Tick? && l.at == es[j].now
    && l.delay == if es[j].rtt.Some? then es[j].rtt.value else InForce(es[..j], delay)
  }

  ghost predicate Made(es: seq<Event>, l: Listing, delay: nat) {
    exists j: nat :: MadeAt(es, j, l, delay)
  }

  ghost predicate TrueChase(es: seq<Event>, n: int, c: Chase, delay: nat, max: nat, bits: nat) {
    && Began(es, n, c.first, delay, max, bits)
    && forall i :: 0 <= i < |c.listings| ==> Made(es, c.listings[i], delay)
  }

  ghost predicate TrueUpTo(es: seq<Event>, m: nat, delay: nat, max: nat, bits: nat) {
    m <= |es| && AllTrue(es, RunOf(es[..m], delay, max, bits).chases, delay, max, bits)
  }

  lemma PacketTrue(es: seq<Event>, m: nat, r: Run, n: int, delay: nat, max: nat, bits: nat)
    requires m < |es| && es[m].Packet? && r.core == After(es[..m], delay, max, bits) && Kept(r, max, bits)
    requires n in Reports(r.core.tracker, es[m].n, es[m].now + r.core.delay, bits)
    ensures Began(es, n, es[m].now + r.core.delay, delay, max, bits)
  {
    var t, at := r.core.tracker, es[m].now + r.core.delay;
    CoreDelay(es[..m], delay, max, bits);
    TrackEntries(t, t.expected.value, es[m].n, at, bits);
    assert BeganAt(es, m, n, at, delay, max, bits);
  }

  lemma TrueNext(es: seq<Event>, m: nat, m': nat, delay: nat, max: nat, bits: nat)
    requires m < |es| && m' == m + 1 && TrueUpTo(es, m, delay, max, bits)
    ensures TrueUpTo(es, m', delay, max, bits)
  {
    var r := RunOf(es[..m], delay, max, bits);
    RunOfSnoc(es, m, delay, max, bits);
    RunOfCore(es[..m], delay, max, bits);
    RunSound(es[..m], delay, max, bits);
    StepTrue(es, m, r, delay, max, bits);
  }

  ghost predicate AllTrue(es: seq<Event>, chases: map<int, Chase>, delay: nat, max: nat, bits: nat) {
    forall n :: n in chases ==> TrueChase(es, n, chases[n], delay, max, bits)
  }

  lemma NewChasesTrue(es: seq<Event>, chases: map<int, Chase>, gaps: seq<int>, at: nat, delay: nat, max: nat, bits: nat)
    requires AllTrue(es, chases, delay, max, bits)
    requires forall n :: n in gaps ==> Began(es, n, at, delay, max, bits)
    ensures AllTrue(es, NewChases(chases, gaps, at), delay, max, bits)
  {
    forall n | n in NewChases(chases, gaps, at)
      ensures TrueChase(es, n, NewChases(chases, gaps, at)[n], delay, max, bits)
    {
      assert n in chases ==> TrueChase(es, n, chases[n], delay, max, bits);
    }
  }

  lemma PacketsTrue(es: seq<Event>, m: nat, r: Run, delay: nat, max: nat, bits: nat)
    requires m < |es| && es[m].Packet? && r.core == After(es[..m], delay, max, bits) && SoundRun(r, max, bits)
    requires AllTrue(es, r.chases, delay, max, bits)
    ensures AllTrue(es, Step(r, es[m], max, bits).chases, delay, max, bits)
  {
    var at := es[m].now + r.core.delay;
    var gaps := Reports(r.core.tracker, es[m].n, at, bits);
    forall n | n in gaps
      ensures Began(es, n, at, delay, max, bits)
    {
      PacketTrue(es, m, r, n, delay, max, bits);
    }
    NewChasesTrue(es, r.chases, gaps, at, delay, max, bits);
  }

  lemma TicksTrue(es: seq<Event>, m: nat, r: Run, delay: nat, max: nat, bits: nat)
    requires m < |es| && es[m].Tick? && r.core == After(es[..m], delay, max, bits) && SoundRun(r, max, bits)
    requires AllTrue(es, r.chases, delay, max, bits)
    ensures AllTrue(es, Step(r, es[m], max, bits).chases, delay, max, bits)
  {
    var d := DelayOf(es[m], r.core.delay);
    var chases, l := ListAll(r.chases, r.core.tracker.table, es[m].now, d, max, bits), Listing(es[m].now, d);
    CoreDelay(es[..m], delay, max, bits);
    assert MadeAt(es, m, l, delay);
    forall n | n in chases
      ensures TrueChase(es, n, chases[n], delay, max, bits)
    {
      assert TrueChase(es, n, r.chases[n], delay, max, bits);
      assert chases[n] == r.chases[n] || chases[n] == r.chases[n].(listings := r.chases[n].listings + [l]);
    }
  }

  lemma StepTrue(es: seq<Event>, m: nat, r: Run, delay: nat, max: nat, bits: nat)
    requires m < |es| && r.core == After(es[..m], delay, max, bits) && SoundRun(r, max, bits)
    requires AllTrue(es, r.chases, delay, max, bits)
    ensures AllTrue(es, Step(r, es[m], max, bits).chases, delay, max, bits)
  {
    match es[m]
    case SetDelay(_) =>
    case Tick(_, _) => TicksTrue(es, m, r, delay, max, bits);
    case Packet(_, _) => PacketsTrue(es, m, r, delay, max, bits);
  }

  /**
   Over every run, each chase begins with the packet that jumped over its number, due the base delay then
   in force later, and each of its listings is a poll, with the RTT of that poll as its delay or else the
   base delay then in force.
   */
  lemma {:induction false} ChasesAreTrue(es: seq<Event>, m: nat, delay: nat, max: nat, bits: nat)
    requires m <= |es|
    ensures TrueUpTo(es, m, delay, max, bits)
    decreases m
  {
    if m > 0 {
      ChasesAreTrue(es, m - 1, delay, max, bits);
      TrueNext(es, m - 1, m, delay, max, bits);
    } else {
      assert es[..0] == [];
    }
  }

  // ---- two failing runs ----

  function State(e: int, table: map<int, Pending>, active: nat, delay: nat): Core {
    Core(Tracker(Some(e), table, active), delay)
  }

  /** After `k` events of the run the scheduler is in state `c`. */
  ghost predicate Reaches(es: seq<Event>, k: nat, c: Core, delay: nat, max: nat, bits: nat) {
    k <= |es| && After(es[..k], delay, max, bits) == c
  }

  lemma Next(es: seq<Event>, k: nat, c: Core, c': Core, delay: nat, max: nat, bits: nat)
    requires k < |es| && Reaches(es, k, c, delay, max, bits)
    requires Wf(c.tracker, bits) && CoreStep(c, es[k], max, bits) == c'
    ensures Reaches(es, k + 1, c', delay, max, bits)
  {
    AfterSnoc(es, k + 1, delay, max, bits);
  }

  lemma FirstPacket(n: int, now: nat, delay: nat, max: nat, bits: nat)
    ensures CoreStep(Core(Tracker(None, map[], 0), delay), Packet(n, now), max, bits)
            == Core(Tracker(Some(n + 1), map[], 0), delay)
  {
  }

  /** A jump of more than 1000 moves the frontier and tracks nothing. */
  lemma LongJump(e: int, table: map<int, Pending>, active: nat, n: int, now: nat, delay: nat, max: nat, bits: nat)
    requires Wf(Tracker(Some(e), table, active), bits) && n - e > MAX_TRACKABLE_GAP
    ensures CoreStep(Core(Tracker(Some(e), table, active), delay), Packet(n, now), max, bits)
            == Core(Tracker(Some(n + 1), table, active), delay)
  {
  }

  /** Tracking a single number. */
  lemma TrackSingle(t: Tracker, e: int, at: nat, bits: nat)
    ensures Track(t, e, e + 1, at, bits) == TrackOne(t, e, at, bits)
  {
    assert Track(t, e, e, at, bits) == t;
  }

  /** A jump over one number, which is not shown yet, starts chasing it. */
  lemma JumpOverOne(e: int, table: map<int, Pending>, active: nat, n: int, at: nat, bits: nat)
    requires !Shadowed(table, e, bits) && n == e + 1
    ensures OnPacket(Tracker(Some(e), table, active), n, at, bits)
            == Tracker(Some(n + 1), table[Idx(e, bits) := Pending(e, at, 0)], active + 1)
  {
    TrackSingle(Tracker(Some(e), table, active), e, at, bits);
  }

  lemma ShortJump(e: int, table: map<int, Pending>, active: nat, n: int, now: nat, delay: nat, max: nat, bits: nat)
    requires Wf(Tracker(Some(e), table, active), bits) && !Shadowed(table, e, bits) && n == e + 1
    ensures CoreStep(State(e, table, active, delay), Packet(n, now), max, bits)
            == State(n + 1, table[Idx(e, bits) := Pending(e, now + delay, 0)], active + 1, delay)
  {
    PacketStep(Tracker(Some(e), table, active), n, now, delay, max, bits);
    JumpOverOne(e, table, active, n, now + delay, bits);
  }

  lemma PacketStep(t: Tracker, n: int, now: nat, delay: nat, max: nat, bits: nat)
    requires Wf(t, bits)
    ensures CoreStep(Core(t, delay), Packet(n, now), max, bits) == Core(OnPacket(t, n, now + delay, bits), delay)
  {
  }

  lemma SharedSlot(bits: nat)
    requires Pow2(bits) == 4096
    ensures Idx(1, bits) == 1 && Idx(4097, bits) == 1
  {
    IdxSmall(1, bits);
    IdxPeriodic(1, bits);
    assert 1 + Pow2(bits) == 4097;
  }

  /** Packets 0, 2 and then one far ahead: number 1 is being chased in slot 1. */
  lemma ChasingOne(es: seq<Event>, n: int, delay: nat, max: nat, bits: nat)
    requires |es| >= 3 && es[0] == Packet(0, 0) && es[1] == Packet(2, 0) && es[2] == Packet(n, 0) && n > 2000
    requires Pow2(bits) == 4096
    ensures Reaches(es, 3, State(n + 1, map[1 := Pending(1, delay, 0)], 1, delay), delay, max, bits)
  {
    var none: map<int, Pending> := map[];
    SharedSlot(bits);
    assert es[..0] == [];
    FirstPacket(0, 0, delay, max, bits);
    Next(es, 0, Core(Tracker(None, none, 0), delay), State(1, none, 0, delay), delay, max, bits);
    ShortJump(1, none, 0, 2, 0, delay, max, bits);
    var one := none[1 := Pending(1, delay, 0)];
    Next(es, 1, State(1, none, 0, delay), State(3, one, 1, delay), delay, max, bits);
    LongJump(3, one, 1, n, 0, delay, max, bits);
    Next(es, 2, State(3, one, 1, delay), State(n + 1, one, 1, delay), delay, max, bits);
  }

  lemma StillChasingOne(es: seq<Event>, delay: nat, max: nat, bits: nat)
    requires |es| >= 5 && es[0] == Packet(0, 0) && es[1] == Packet(2, 0) && es[2] == Packet(30000, 0)
    requires es[3] == Packet(60000, 0) && es[4] == Packet(65537, 0) && Pow2(bits) == 4096
    ensures Reaches(es, 5, State(65538, map[1 := Pending(1, delay, 0)], 1, delay), delay, max, bits)
  {
    var one := map[1 := Pending(1, delay, 0)];
    SharedSlot(bits);
    ChasingOne(es, 30000, delay, max, bits);
    LongJump(30001, one, 1, 60000, 0, delay, max, bits);
    Next(es, 3, State(30001, one, 1, delay), State(60001, one, 1, delay), delay, max, bits);
    LongJump(60001, one, 1, 65537, 0, delay, max, bits);
    Next(es, 4, State(60001, one, 1, delay), State(65538, one, 1, delay), delay, max, bits);
  }

  /**
   A number listed although it arrived: 1 is never recovered, the stream jumps ahead, and when 65537
   arrives at the frontier the entry of 1 still shows the same 16 bits.
   */
  lemma ListedAfterArrival(es: seq<Event>, delay: nat, max: nat, bits: nat)
    requires es == [Packet(0, 0), Packet(2, 0), Packet(30000, 0), Packet(60000, 0), Packet(65537, 0)]
    requires max > 0 && Pow2(bits) == 4096
    ensures InDueList(After(es, delay, max, bits).tracker, Wrap(65537), delay, max)
  {
    StillChasingOne(es, delay, max, bits);
    assert es[..5] == es;
    OneIsDue(After(es, delay, max, bits).tracker, delay, max);
  }

  lemma OneIsDue(t: Tracker, now: nat, max: nat)
    requires 1 in t.table && t.table[1] == Pending(1, now, 0) && max > 0
    ensures InDueList(t, Wrap(65537), now, max)
  {
    assert Listed(t.table[1], now, max) && Wrap(t.table[1].n) == Wrap(65537);
  }

  /** A late packet that is being chased is taken off the table. */
  lemma Recovered(e: int, p: Pending, active: nat, now: nat, delay: nat, max: nat, bits: nat)
    requires p.n < e && active > 0
    ensures CoreStep(State(e, map[Idx(p.n, bits) := p], active, delay), Packet(p.n, now), max, bits)
            == State(e, map[], active - 1, delay)
  {
    assert map[Idx(p.n, bits) := p] - {Idx(p.n, bits)} == map[];
  }

  /** The gap at 4097 takes over slot 1. */
  lemma TakesOver(delay: nat, max: nat, bits: nat)
    requires Pow2(bits) == 4096
    ensures var one, two := map[1 := Pending(1, delay, 0)], map[1 := Pending(4097, delay, 0)];
            && Wf(State(4097, one, 1, delay).tracker, bits) && Wf(State(4099, two, 2, delay).tracker, bits)
            && CoreStep(State(4097, one, 1, delay), Packet(4098, 0), max, bits) == State(4099, two, 2, delay)
  {
    var one := map[1 := Pending(1, delay, 0)];
    SharedSlot(bits);
    ShortJump(4097, one, 1, 4098, 0, delay, max, bits);
    assert one[1 := Pending(4097, delay, 0)] == map[1 := Pending(4097, delay, 0)];
  }

  lemma EvictsOne(es: seq<Event>, delay: nat, max: nat, bits: nat)
    requires |es| >= 5 && es[0] == Packet(0, 0) && es[1] == Packet(2, 0) && es[2] == Packet(4096, 0)
    requires es[3] == Packet(4098, 0) && es[4] == Packet(4097, 0) && Pow2(bits) == 4096
    ensures Reaches(es, 5, State(4099, map[], 1, delay), delay, max, bits)
  {
    var one, two := map[1 := Pending(1, delay, 0)], map[1 := Pending(4097, delay, 0)];
    ChasingOne(es, 4096, delay, max, bits);
    TakesOver(delay, max, bits);
    Next(es, 3, State(4097, one, 1, delay), State(4099, two, 2, delay), delay, max, bits);
    SharedSlot(bits);
    Recovered(4099, Pending(4097, delay, 0), 2, 0, delay, max, bits);
    Next(es, 4, State(4099, two, 2, delay), State(4099, map[], 1, delay), delay, max, bits);
  }

  /**
   A counter that does not return to zero: the gap at 4097 takes over the slot of 1, and once it is
   recovered nothing is chased any more, but the counter says one.
   */
  lemma EvictionLeavesCount(es: seq<Event>, delay: nat, max: nat, bits: nat)
    requires es == [Packet(0, 0), Packet(2, 0), Packet(4096, 0), Packet(4098, 0), Packet(4097, 0)]
    requires Pow2(bits) == 4096
    ensures After(es, delay, max, bits).tracker == Tracker(Some(4099), map[], 1)
  {
    EvictsOne(es, delay, max, bits);
    assert es[..5] == es;
  }
}
