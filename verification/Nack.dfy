/**
 The NACK scheduler as it is: 4096 slots addressed by the low bits of a 16-bit
 number, scanned in slot order, with a counter that short-cuts the scan.
 */
module Nack {
  import opened Seq16
  import M = NackModel

  datatype NackSlot = NackSlot(wire: U16, active: bool, nextAt: nat, count: nat)

  ghost predicate Shows(s: NackSlot, i: int, table: map<int, M.Pending>) {
    && (s.active <==> i in table)
    && (s.active ==> s == NackSlot(Wrap(table[i].n), true, table[i].nextAt, table[i].count))
  }

  ghost predicate Ring(ring: seq<NackSlot>, table: map<int, M.Pending>) {
    && (forall i :: 0 <= i < |ring| ==> Shows(ring[i], i, table))
    && (forall i :: i in table ==> 0 <= i < |ring|)
  }

  function SaturatingDec(x: nat): nat {
    if x == 0 then 0 else x - 1
  }

  /** Chasing a number in the slots is chasing it in the table. */
  lemma RingTrackOne(ring: seq<NackSlot>, t: M.Tracker, m: int, at: nat, bits: nat)
    requires |ring| == Pow2(bits) && Ring(ring, t.table)
    ensures var s := ring[Idx(m, bits)];
            s.active && s.wire == Wrap(m) <==> M.Shadowed(t.table, m, bits)
    ensures !M.Shadowed(t.table, m, bits) ==>
              Ring(ring[Idx(m, bits) := NackSlot(Wrap(m), true, at, 0)], M.TrackOne(t, m, at, bits).table)
  {
    assert Shows(ring[Idx(m, bits)], Idx(m, bits), t.table);
  }

  /** What the scan leaves in a slot: dropped, listed and rescheduled, or as it was. */
  function Polled(s: NackSlot, now: nat, delay: nat, max: nat): NackSlot {
    if !s.active || now < s.nextAt then s
    else if s.count >= max then s.(active := false)
    else s.(count := s.count + 1, nextAt := now + delay)
  }

  predicate DropsNow(s: NackSlot, now: nat, max: nat) {
    s.active && now >= s.nextAt && s.count >= max
  }

  function ListedNow(s: NackSlot, now: nat, max: nat): seq<U16> {
    if s.active && now >= s.nextAt && s.count < max then [s.wire] else []
  }

  ghost function PolledAt(cur: map<int, M.Pending>, k: int, s: NackSlot, now: nat, delay: nat, max: nat)
    : map<int, M.Pending>
    requires s.active ==> k in cur
  {
    if !s.active || now < s.nextAt then cur
    else if s.count >= max then cur - {k}
    else cur[k := M.PollOne(cur[k], now, delay)]
  }

  /** Polling one slot is polling one entry of the table: in the ring, ... */
  lemma RingPollOne(ring: seq<NackSlot>, cur: map<int, M.Pending>, k: int, now: nat, delay: nat, max: nat)
    requires 0 <= k < |ring| && Ring(ring, cur)
    ensures ring[k].active ==> k in cur
    ensures var cur' := PolledAt(cur, k, ring[k], now, delay, max);
            && Ring(ring[k := Polled(ring[k], now, delay, max)], cur')
            && |cur'| == |cur| - (if DropsNow(ring[k], now, max) then 1 else 0)
  {
    assert Shows(ring[k], k, cur);
    if k in cur {
      assert (cur - {k}).Keys == cur.Keys - {k};
      assert cur[k := M.PollOne(cur[k], now, delay)].Keys == cur.Keys;
    }
  }

  /** ... and against the table the poll started from. */
  lemma PollProgress(s: NackSlot, table: map<int, M.Pending>, cur: map<int, M.Pending>, k: int,
                     now: nat, delay: nat, max: nat)
    requires Shows(s, k, cur) && PolledTo(table, cur, k, now, delay, max)
    ensures Shows(s, k, table)
    ensures PolledTo(table, PolledAt(cur, k, s, now, delay, max), k + 1, now, delay, max)
  {
  }

  // ---- the sorted due list ----

  function InsertSorted(x: U16, s: seq<U16>): seq<U16> {
    if s == [] || x < s[0] then [x] + s else [s[0]] + InsertSorted(x, s[1..])
  }

  /** `to_nack.sort_unstable()`. */
  function Sort(s: seq<U16>): seq<U16> {
    if s == [] then [] else InsertSorted(s[0], Sort(s[1..]))
  }

  lemma {:induction false} InsertSortedAscends(x: U16, s: seq<U16>)
    requires Ascending(s) && x !in s
    ensures Ascending(InsertSorted(x, s)) && |InsertSorted(x, s)| == |s| + 1
    ensures forall y :: y in InsertSorted(x, s) <==> y == x || y in s
  {
    if s != [] && x >= s[0] {
      InsertSortedAscends(x, s[1..]);
      assert s == [s[0]] + s[1..];
      var rest := InsertSorted(x, s[1..]);
      forall i | 0 <= i < |rest|
        ensures s[0] < rest[i]
      {
        assert rest[i] in rest;
        if rest[i] != x {
          var j :| 0 <= j < |s[1..]| && s[1..][j] == rest[i];
          assert s[0] < s[j + 1];
        }
      }
    }
  }

  lemma {:induction false} SortAscends(s: seq<U16>)
    requires forall i, j :: 0 <= i < j < |s| ==> s[i] != s[j]
    ensures Ascending(Sort(s)) && |Sort(s)| == |s|
    ensures forall y :: y in Sort(s) <==> y in s
  {
    if s != [] {
      SortAscends(s[1..]);
      InsertSortedAscends(s[0], Sort(s[1..]));
      assert s == [s[0]] + s[1..];
    }
  }

  // ---- polling slot by slot ----

  /** Slots below `k` have been polled, the others not yet. */
  ghost predicate PolledTo(table: map<int, M.Pending>, cur: map<int, M.Pending>, k: int, now: nat, delay: nat,
                           max: nat) {
    && (forall i :: i in cur ==> i in table)
    && (forall i :: i in table && i >= k ==> i in cur && cur[i] == table[i])
    && (forall i :: i in table && i < k ==>
          (i in cur <==> (M.Ripe(table[i], now) ==> table[i].count < max)))
    && (forall i :: i in cur && i < k ==> cur[i] == M.PollOne(table[i], now, delay))
  }

  /** The wire numbers listed by a poll that has reached slot `k`. */
  ghost predicate ListedTo(due: seq<U16>, table: map<int, M.Pending>, k: int, now: nat, max: nat) {
    forall w :: w in due <==> exists i :: i in table && i < k && M.Listed(table[i], now, max) && Wrap(table[i].n) == w
  }

  /** Numbers collected from different slots are different. */
  ghost predicate Distinct(due: seq<U16>, k: int, bits: nat) {
    && (forall j :: 0 <= j < |due| ==> Idx(due[j], bits) < k)
    && (forall i, j :: 0 <= i < j < |due| ==> due[i] != due[j])
  }

  lemma PolledAll(table: map<int, M.Pending>, cur: map<int, M.Pending>, k: int, now: nat, delay: nat, max: nat)
    requires PolledTo(table, cur, k, now, delay, max) && forall i :: i in table ==> i < k
    ensures cur == M.PollTable(table, now, delay, max)
  {
    var all := M.PollTable(table, now, delay, max);
    forall i
      ensures i in cur <==> i in all
      ensures i in cur ==> cur[i] == all[i]
    {
      if i in table {
        assert i < k;
      }
    }
  }

  lemma ListedSnoc(due: seq<U16>, table: map<int, M.Pending>, k: int, now: nat, max: nat)
    requires ListedTo(due, table, k, now, max)
    ensures k in table && M.Listed(table[k], now, max) ==> ListedTo(due + [Wrap(table[k].n)], table, k + 1, now, max)
    ensures !(k in table && M.Listed(table[k], now, max)) ==> ListedTo(due, table, k + 1, now, max)
  {
  }

  /** Listing one slot: its number is new, because no earlier slot can hold it. */
  lemma ListStep(due: seq<U16>, s: NackSlot, table: map<int, M.Pending>, k: int, now: nat, max: nat, bits: nat)
    requires bits <= 16 && Shows(s, k, table) && ListedTo(due, table, k, now, max) && Distinct(due, k, bits)
    requires forall i :: i in table ==> Idx(table[i].n, bits) == i
    ensures var due' := due + ListedNow(s, now, max);
            ListedTo(due', table, k + 1, now, max) && Distinct(due', k + 1, bits)
  {
    assert due + [] == due;
    ListedSnoc(due, table, k, now, max);
    if k in table {
      IdxOfWrap(table[k].n, bits);
    }
  }

  class NackScheduler {
    const slots: array<NackSlot>
    const bits: nat
    const maxRetries: nat
    var baseDelay: nat
    var expectedSeq: Option<U16>
    var activeCount: nat
    ghost var tracker: M.Tracker

    ghost predicate Valid()
      reads this, slots
    {
      && bits <= 16 && slots.Length == Pow2(bits) == 4096
      && M.Wf(tracker, bits)
      && Ring(slots[..], tracker.table)
      && activeCount == tracker.active
      && (expectedSeq.Some? <==> tracker.expected.Some?)
      && (expectedSeq.Some? ==> expectedSeq.value == Wrap(tracker.expected.value))
    }

    constructor (maxRetries: nat, baseDelay: nat)
      ensures Valid() && fresh(slots)
      ensures tracker == M.Tracker(None, map[], 0) && this.maxRetries == maxRetries && this.baseDelay == baseDelay
    {
      slots := new NackSlot[4096](_ => NackSlot(0, false, 0, 0));
      bits, this.maxRetries, this.baseDelay := 12, maxRetries, baseDelay;
      expectedSeq, activeCount, tracker := None, 0, M.Tracker(None, map[], 0);
      new;
      Pow2Of12(bits);
    }

    method UpdateBaseDelay(delay: nat)
      requires Valid()
      modifies `baseDelay
      ensures Valid() && baseDelay == delay
    {
      baseDelay := delay;
    }

    /** A packet does to the slots what it does to the table, for the number nearest the frontier. */
    method OnPacketReceived(wire: U16, now: nat) returns (gaps: seq<U16>)
      requires Valid()
      modifies this, slots
      ensures Valid() && baseDelay == old(baseDelay)
      ensures var n := if old(tracker.expected).None? then wire else Unwrap(old(tracker.expected.value), wire);
              && tracker == M.OnPacket(old(tracker), n, now + baseDelay, bits)
              && gaps == Wire(M.Reports(old(tracker), n, now + baseDelay, bits))
    {
      gaps := [];
      if expectedSeq.None? {
        M.OnPacketWf(tracker, wire, now + baseDelay, bits);
        WrapOfNext(wire, wire, 1, wire + 1);
        expectedSeq := Some(WrappingAdd(wire, 1));
        tracker := tracker.(expected := Some(wire + 1));
        return;
      }
      ghost var e := tracker.expected.value;
      ghost var n := Unwrap(e, wire);
      UnwrapIsNearest(e, wire, n);
      var diff := SignedDiff(wire, expectedSeq.value);
      if diff < 0 {
        Deactivate(wire, n);
      } else {
        gaps := Advance(wire, diff, now + baseDelay, n);
      }
    }

    /** A packet at or beyond the frontier. */
    method Advance(wire: U16, diff: int, at: nat, ghost n: int) returns (gaps: seq<U16>)
      requires Valid() && tracker.expected.Some? && wire == Wrap(n)
      requires diff == n - tracker.expected.value >= 0
      modifies slots, `tracker, `activeCount, `expectedSeq
      ensures Valid()
      ensures tracker == M.OnPacket(old(tracker), n, at, bits)
      ensures gaps == Wire(M.Reports(old(tracker), n, at, bits))
    {
      ghost var e := tracker.expected.value;
      M.OnPacketWf(tracker, n, at, bits);
      gaps := [];
      if 0 < diff <= M.MAX_TRACKABLE_GAP {
        gaps := Chase(expectedSeq.value, diff, at, e);
        assert e + diff == n;
      }
      WrapOfNext(wire, n, 1, n + 1);
      expectedSeq := Some(WrappingAdd(wire, 1));
      tracker := M.OnPacket(old(tracker), n, at, bits);
    }

    /** Start chasing `e .. e + gap - 1`. */
    method Chase(expected: U16, gap: int, at: nat, ghost e: int) returns (gaps: seq<U16>)
      requires Valid() && expected == Wrap(e) && 0 < gap <= M.MAX_TRACKABLE_GAP && tracker.expected == Some(e)
      modifies slots, `tracker, `activeCount
      ensures tracker == M.Track(old(tracker), e, e + gap, at, bits)
      ensures gaps == Wire(M.NewGaps(old(tracker), e, e + gap, at, bits))
      ensures Ring(slots[..], tracker.table) && activeCount == tracker.active
    {
      gaps := [];
      ghost var m, ring := e, slots[..];
      for i := 0 to gap
        invariant m == e + i
        invariant tracker == M.Track(old(tracker), e, m, at, bits)
        invariant gaps == Wire(M.NewGaps(old(tracker), e, m, at, bits))
        invariant slots[..] == ring && |ring| == Pow2(bits) && Ring(ring, tracker.table)
        invariant activeCount == tracker.active
      {
        var missing := WrappingAdd(expected, i);
        WrapOfNext(expected, e, i, m);
        IdxOfWrap(m, bits);
        var idx := Idx(missing, bits);
        assert idx == Idx(m, bits);
        RingTrackOne(ring, tracker, m, at, bits);
        WireSnoc(M.NewGaps(old(tracker), e, m, at, bits), m);
        if !slots[idx].active || slots[idx].wire != missing {
          slots[idx] := NackSlot(missing, true, at, 0);
          activeCount := activeCount + 1;
          gaps := gaps + [missing];
          ring := ring[idx := NackSlot(missing, true, at, 0)];
        }
        tracker := M.TrackOne(tracker, m, at, bits);
        m := m + 1;
      }
      assert m == e + gap;
    }

    method OnPacketRecovered(wire: U16, ghost n: int)
      requires Valid() && wire == Wrap(n)
      modifies slots, `tracker, `activeCount
      ensures Valid() && tracker == M.Deactivate(old(tracker), n, bits)
    {
      Deactivate(wire, n);
    }

    method Deactivate(wire: U16, ghost n: int)
      requires Valid() && wire == Wrap(n)
      modifies slots, `tracker, `activeCount
      ensures Valid() && tracker == M.Deactivate(old(tracker), n, bits)
    {
      IdxOfWrap(n, bits);
      var idx := Idx(wire, bits);
      ghost var ring, table := slots[..], tracker.table;
      assert Shows(ring[idx], idx, table);
      if slots[idx].active && slots[idx].wire == wire {
        slots[idx] := slots[idx].(active := false);
        activeCount := SaturatingDec(activeCount);
        assert slots[..] == ring[idx := ring[idx].(active := false)];
        assert (table - {idx}).Keys == table.Keys - {idx};
        tracker := M.Deactivate(tracker, n, bits);
      }
    }

    /**
     The due list: strictly ascending, and exactly the numbers the table lists. The shortcut
     on the counter never hides one, because the counter is at least the number of entries.
     */
    method GetPendingNacks(now: nat, rtt: Option<nat>) returns (due: seq<U16>)
      requires Valid()
      modifies slots, `tracker, `activeCount
      ensures Valid()
      ensures Ascending(due) && |due| <= 4096
      ensures forall w :: w in due <==> M.InDueList(old(tracker), w, now, maxRetries)
      ensures tracker == M.Poll(old(tracker), now, if rtt.Some? then rtt.value else baseDelay, maxRetries)
    {
      ghost var table := tracker.table;
      var delay := if rtt.Some? then rtt.value else baseDelay;
      M.PollWf(tracker, now, delay, maxRetries, bits);
      if activeCount == 0 {
        assert table == map[] by { assert |table| == 0; }
        assert M.PollTable(table, now, delay, maxRetries) == table;
        return [];
      }
      var toNack := Scan(now, delay);
      tracker := M.Poll(tracker, now, delay, maxRetries);
      SortAscends(toNack);
      due := Sort(toNack);
    }

    /** The scan over all slots. */
    method Scan(now: nat, delay: nat) returns (toNack: seq<U16>)
      requires Valid()
      modifies slots, `activeCount
      ensures ListedTo(toNack, tracker.table, slots.Length, now, maxRetries)
      ensures Distinct(toNack, slots.Length, bits) && |toNack| <= slots.Length
      ensures Ring(slots[..], M.PollTable(tracker.table, now, delay, maxRetries))
      ensures activeCount == M.Poll(tracker, now, delay, maxRetries).active
    {
      toNack := [];
      ghost var table := tracker.table;
      ghost var cur, ring := table, slots[..];
      ghost var extra := tracker.active - |table|;
      for k := 0 to slots.Length
        invariant slots[..] == ring && |ring| == slots.Length
        invariant PolledTo(table, cur, k, now, delay, maxRetries) && Ring(ring, cur)
        invariant ListedTo(toNack, table, k, now, maxRetries) && Distinct(toNack, k, bits)
        invariant activeCount == |cur| + extra && |toNack| <= k
      {
        assert Shows(ring[k], k, cur);
        RingPollOne(ring, cur, k, now, delay, maxRetries);
        PollProgress(ring[k], table, cur, k, now, delay, maxRetries);
        ListStep(toNack, ring[k], table, k, now, maxRetries, bits);
        var listed := PollSlot(k, now, delay);
        toNack := toNack + listed;
        cur := PolledAt(cur, k, ring[k], now, delay, maxRetries);
        ring := ring[k := Polled(ring[k], now, delay, maxRetries)];
      }
      PolledAll(table, cur, slots.Length, now, delay, maxRetries);
    }

    /** One slot of the scan. */
    method PollSlot(k: nat, now: nat, delay: nat) returns (listed: seq<U16>)
      requires k < slots.Length
      modifies slots, `activeCount
      ensures slots[..] == old(slots[..])[k := Polled(old(slots[..])[k], now, delay, maxRetries)]
      ensures listed == ListedNow(old(slots[..])[k], now, maxRetries)
      ensures activeCount == if DropsNow(old(slots[..])[k], now, maxRetries) then SaturatingDec(old(activeCount))
                             else old(activeCount)
    {
      listed := [];
      var slot := slots[k];
      if !slot.active {
        return;
      }
      if now >= slot.nextAt {
        if slot.count >= maxRetries {
          slots[k] := slot.(active := false);
          activeCount := SaturatingDec(activeCount);
        } else {
          listed := [slot.wire];
          slots[k] := slot.(count := slot.count + 1, nextAt := now + delay);
        }
      }
    }
  }

  lemma Pow2Of12(bits: nat)
    requires bits == 12
    ensures Pow2(bits) == 4096
  {
    assert Pow2(4) == 16;
    assert Pow2(8) == 256;
    assert Pow2(12) == 4096;
  }

  function Wire(ns: seq<int>): (w: seq<U16>)
    ensures |w| == |ns|
  {
    seq(|ns|, i requires 0 <= i < |ns| => Wrap(ns[i]))
  }

  lemma WireSnoc(ns: seq<int>, n: int)
    ensures Wire(ns + [n]) == Wire(ns) + [Wrap(n)]
    ensures ns + [] == ns
  {
  }
}
