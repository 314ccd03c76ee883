/**
 A stream in which every seventeenth packet is lost. The scheduler ends up chasing 502 numbers no two
 of which share a NACK entry, and the datagram that asks for them does not fit the sender's buffer.
 */
module ScatteredLoss {
  import opened Seq16
  import opened Sequences
  import opened Codec
  import opened NackEntries
  import N = NackModel
  import Rtcp
  import Retransmit
  import Service
  import NackRound

  predicate IsLost(n: int) { n % 17 == 1 }

  /** Long enough for 502 losses: 1, 18, ..., 8518. */
  const LENGTH := 8520

  /** Packets 0 to `n - 1` in order, without the lost ones. */
  function Stream(n: nat): seq<N.Event> {
    if n == 0 then []
    else if IsLost(n - 1) then Stream(n - 1)
    else Stream(n - 1) + [N.Packet(n - 1, 0)]
  }

  /** The scheduler has seen every packet below `n` and expects the next, or the lost one just below. */
  function Frontier(n: nat): int
    requires n > 0
  {
    if IsLost(n - 1) then n - 1 else n
  }

  /** Exactly the lost numbers below the frontier are being chased. */
  ghost predicate ChasesLost(t: N.Tracker, f: int, delay: nat, bits: nat) {
    && t.expected == Some(f)
    && (forall x :: 0 <= x < f && IsLost(x) ==> Chases(t, x, delay, bits))
    && (forall i :: i in t.table ==> 0 <= t.table[i].n < f && IsLost(t.table[i].n) && Idx(t.table[i].n, bits) == i)
  }

  ghost predicate Chases(t: N.Tracker, x: int, delay: nat, bits: nat) {
    Idx(x, bits) in t.table && t.table[Idx(x, bits)] == N.Pending(x, delay, 0)
  }

  /** 17 shares no factor with 4096, so no two losses are a whole number of rings apart. */
  lemma NotRingsApart(x: int, y: int)
    requires IsLost(x) && IsLost(y)
    ensures y != x + 4096 && y != x + 8192
  {
    var p, q := x / 17, y / 17;
    assert x == 17 * p + 1 && y == 17 * q + 1;
  }

  lemma OneRingLess(y: int, bits: nat)
    requires Pow2(bits) == 4096
    ensures Idx(y - 4096, bits) == Idx(y, bits)
  {
    IdxPeriodic(y - 4096, bits);
    assert y - 4096 + Pow2(bits) == y;
  }

  /** So the lost numbers of the stream have distinct slots. */
  lemma DistinctSlots(x: int, y: int, bits: nat)
    requires Pow2(bits) == 4096 && 0 <= x < y < LENGTH && IsLost(x) && IsLost(y)
    ensures Idx(x, bits) != Idx(y, bits)
  {
    NotRingsApart(x, y);
    OneRingLess(y, bits);
    OneRingLess(y - 4096, bits);
    if y < x + 4096 {
      IdxDistinct(x, y, bits);
    } else if y < x + 8192 {
      IdxDistinct(x, y - 4096, bits);
    } else {
      assert y - 4096 - 4096 == y - 8192;
      IdxDistinct(x, y - 8192, bits);
    }
  }

  /** The slot of the next lost number is free. */
  lemma SlotIsFree(t: N.Tracker, f: int, delay: nat, bits: nat)
    requires Pow2(bits) == 4096 && 0 <= f < LENGTH && IsLost(f) && ChasesLost(t, f, delay, bits)
    ensures Idx(f, bits) !in t.table
  {
    if Idx(f, bits) in t.table {
      DistinctSlots(t.table[Idx(f, bits)].n, f, bits);
    }
  }

  /** A packet behind a lost one starts the chase of that one. */
  lemma LossNoticed(t: N.Tracker, f: int, n: int, delay: nat, bits: nat)
    requires Pow2(bits) == 4096 && 0 <= f < LENGTH && IsLost(f) && n == f + 1 && ChasesLost(t, f, delay, bits)
    ensures ChasesLost(N.OnPacket(t, n, delay, bits), n + 1, delay, bits)
  {
    SlotIsFree(t, f, delay, bits);
    N.JumpOverOne(f, t.table, t.active, n, delay, bits);
    var t' := N.OnPacket(t, n, delay, bits);
    assert t' == N.Tracker(Some(n + 1), t.table[Idx(f, bits) := N.Pending(f, delay, 0)], t.active + 1);
    forall x | 0 <= x < n + 1 && IsLost(x)
      ensures Chases(t', x, delay, bits)
    {
      if x < f {
        assert Chases(t, x, delay, bits);
        DistinctSlots(x, f, bits);
      } else {
        assert x == f;
      }
    }
  }

  /** A packet in order changes nothing but the frontier. */
  lemma NothingLost(t: N.Tracker, n: int, delay: nat, bits: nat)
    requires !IsLost(n) && n >= 0 && ChasesLost(t, n, delay, bits)
    ensures ChasesLost(N.OnPacket(t, n, delay, bits), n + 1, delay, bits)
  {
    assert N.OnPacket(t, n, delay, bits) == t.(expected := Some(n + 1));
    forall x | 0 <= x < n + 1 && IsLost(x)
      ensures Chases(N.OnPacket(t, n, delay, bits), x, delay, bits)
    {
      assert Chases(t, x, delay, bits);
    }
  }

  ghost predicate Follows(n: nat, delay: nat, max: nat, bits: nat)
    requires n > 0
  {
    var c := N.After(Stream(n), delay, max, bits);
    c.delay == delay && ChasesLost(c.tracker, Frontier(n), delay, bits)
  }

  /** One more packet of a run, seen by the tracker. */
  lemma OneMore(es: seq<N.Event>, n: int, delay: nat, max: nat, bits: nat)
    requires N.After(es, delay, max, bits).delay == delay
    ensures var t := N.After(es, delay, max, bits).tracker;
            N.After(es + [N.Packet(n, 0)], delay, max, bits) == N.Core(N.OnPacket(t, n, delay, bits), delay)
  {
    var all := es + [N.Packet(n, 0)];
    assert all[..|es|] == es && all[..|es| + 1] == all;
    N.AfterSnoc(all, |es| + 1, delay, max, bits);
    N.PacketStep(N.After(es, delay, max, bits).tracker, n, 0, delay, max, bits);
  }

  lemma PacketFollows(t: N.Tracker, n: nat, delay: nat, bits: nat)
    requires 0 < n < LENGTH && Pow2(bits) == 4096 && !IsLost(n) && ChasesLost(t, Frontier(n), delay, bits)
    ensures ChasesLost(N.OnPacket(t, n, delay, bits), n + 1, delay, bits)
  {
    if IsLost(n - 1) {
      LossNoticed(t, n - 1, n, delay, bits);
    } else {
      NothingLost(t, n, delay, bits);
    }
  }

  lemma NextPacket(n: nat, n': nat, delay: nat, max: nat, bits: nat)
    requires 0 < n < LENGTH && n' == n + 1 && Pow2(bits) == 4096 && Follows(n, delay, max, bits)
    ensures Follows(n', delay, max, bits)
  {
    if !IsLost(n) {
      OneMore(Stream(n), n, delay, max, bits);
      PacketFollows(N.After(Stream(n), delay, max, bits).tracker, n, delay, bits);
    }
  }

  lemma NothingYet(es: seq<N.Event>, delay: nat, max: nat, bits: nat)
    requires es == []
    ensures N.After(es, delay, max, bits) == N.Core(N.Tracker(None, map[], 0), delay)
  {
  }

  lemma FirstPacket(n: nat, delay: nat, max: nat, bits: nat)
    requires n == 1
    ensures Follows(n, delay, max, bits)
  {
    var none: seq<N.Event> := [];
    NothingYet(none, delay, max, bits);
    OneMore(none, 0, delay, max, bits);
    assert Stream(0) == none && Stream(1) == none + [N.Packet(0, 0)];
  }

  /** After the stream exactly the lost numbers are being chased. */
  lemma {:induction false} StreamChased(n: nat, delay: nat, max: nat, bits: nat)
    requires 0 < n <= LENGTH && Pow2(bits) == 4096
    ensures Follows(n, delay, max, bits)
  {
    if n == 1 {
      FirstPacket(n, delay, max, bits);
    } else {
      StreamChased(n - 1, delay, max, bits);
      NextPacket(n - 1, n, delay, max, bits);
    }
  }

  // ---- the due list does not fit ----

  /** The 502 lost numbers. */
  function Lost(): (ps: seq<int>)
    ensures |ps| == 502
  {
    seq(502, i requires 0 <= i < 502 => 17 * i + 1)
  }

  lemma {:induction false} ExpandedIsNamed(es: seq<BitmaskNack>, x: U16)
    requires x in Expand(es)
    ensures Named(es, x)
  {
    if x in LostSeqs(es[0]) {
      assert x in LostSeqs(es[0]);
    } else {
      ExpandedIsNamed(es[1..], x);
      var i :| 0 <= i < |es[1..]| && x in LostSeqs(es[1..][i]);
      assert es[i + 1] == es[1..][i];
    }
  }

  /** Any due list with all of them takes at least 502 entries. */
  lemma LostTakeManyEntries(due: seq<U16>)
    requires Ascending(due) && forall j :: 0 <= j < 502 ==> Lost()[j] in due
    ensures |PackBitmask(due)| >= 502
  {
    var es, ps := PackBitmask(due), Lost();
    PackIsExact(due);
    forall j | 0 <= j < |ps|
      ensures Named(es, ps[j])
    {
      assert ps[j] in due;
      ExpandedIsNamed(es, ps[j]);
    }
    var used := OneEntryEach(es, ps);
    BoundedSet(used, |es|);
  }

  /** After the stream a poll lists every lost number. */
  lemma LostAreDue(x: int, now: nat, delay: nat, max: nat, bits: nat)
    requires Pow2(bits) == 4096 && 0 <= x < LENGTH && IsLost(x) && now >= delay && max > 0
    ensures N.InDueList(N.After(Stream(LENGTH), delay, max, bits).tracker, x, now, max)
  {
    StreamChased(LENGTH, delay, max, bits);
    var t := N.After(Stream(LENGTH), delay, max, bits).tracker;
    assert Frontier(LENGTH) == LENGTH;
    assert Chases(t, x, delay, bits);
    assert N.Listed(t.table[Idx(x, bits)], now, max) && Wrap(x) == x;
  }

  /**
   A run of the scheduler whose request is lost: whatever ascending due list a poll makes after the
   stream, the datagram with one report block in front makes the sender retransmit nothing.
   */
  lemma StreamIsNotRecovered(due: seq<U16>, now: nat, delay: nat, max: nat, rr: Rtcp.Packet, own: U32, media: U32,
                             ours: U32, log: seq<Retransmit.Entry>, ringBits: nat, bits: nat)
    requires Pow2(bits) == 4096 && now >= delay && max > 0 && Ascending(due) && |due| <= 4096
    requires forall w :: w in due <==> N.InDueList(N.After(Stream(LENGTH), delay, max, bits).tracker, w, now, max)
    requires rr.ReceiverReport? && |rr.reports| == 1 && Rtcp.WellFormed(rr) && Service.TargetsUs(media, ours)
    ensures NackRound.Answered(rr, own, media, due, ours, log, ringBits) == []
  {
    forall j | 0 <= j < 502
      ensures Lost()[j] in due
    {
      LostAreDue(Lost()[j], now, delay, max, bits);
    }
    LostTakeManyEntries(due);
    NackRound.DueListIsServed(rr, own, media, due, ours, log, ringBits);
  }
}
