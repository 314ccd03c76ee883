/**
 A whole session in which a packet is lost and recovered: it meets the hypotheses of the recovery
 theorems, whatever is sent.
 */
module LossySession {
  import opened Seq16
  import opened Codec
  import opened EndToEnd
  import opened Recovery
  import Guard
  import Rtp
  import Rtcp
  import NackRound
  import NackEntries
  import Receiver
  import N = NackModel
  import M = ReorderModel

  /** Three packets are sent to a receiver with 64 slots; any even SSRC and any hold time. */
  ghost predicate SmallSession(c: Config) {
    && Sane(c) && c.first == 0 && c.setup.cap == 64 && Pow2(c.ringBits) == 512 && c.pinned.None?
    && c.setup.bits <= 16 && Pow2(c.setup.bits) == 4096 && c.setup.max > 0
  }

  /** What is sent, and the address it comes from. */
  datatype Story = Story(x: Sent, y: Sent, z: Sent, from: Guard.Addr) {
    function All(): (sent: seq<Sent>)
      ensures |sent| == 3
    {
      [x, y, z]
    }

    /** What arrives, the second packet last. */
    function Heard(): (es: seq<Receiver.Event>)
      ensures |es| == 3
    {
      [Receiver.Arrive(0, Rtp.Seen(x.payload), 0), Receiver.Arrive(2, Rtp.Seen(z.payload), 0),
       Receiver.Arrive(1, Rtp.Seen(y.payload), 0)]
    }

    function Arrivals(): (es: seq<M.Event>)
      ensures |es| == 3
    {
      M.Recovering(Rtp.Seen(x.payload), Rtp.Seen(y.payload), Rtp.Seen(z.payload))
    }
  }

  /** The receiver asks for number 1. */
  function Wanted(): Ask {
    Ask(Rtcp.ReceiverReport(0, []), 0, 0, [1])
  }

  ghost function SentWire(c: Config, st: Story, k: nat): set<Bytes>
    requires k <= 3
  {
    set i: nat | i < k :: PacketBytes(c, st.All(), i)
  }

  ghost function FullWire(c: Config, st: Story): set<Bytes> {
    SentWire(c, st, 3) + Resent(c, st.All(), Request(Wanted()))
  }

  /** The events of the session. */
  ghost function EventAt(c: Config, st: Story, k: nat): Event {
    if k < 3 then Send(st.All()[k].payload, st.All()[k].timestamp)
    else if k == 3 then Deliver(PacketBytes(c, st.All(), 0), st.from, 0)
    else if k == 4 then Deliver(PacketBytes(c, st.All(), 2), st.from, 0)
    else if k == 5 then Feedback(Request(Wanted()), c.peer, 0)
    else if k == 6 then Deliver(Copy(c, st.All(), 1), st.from, 0)
    else Drain(c.setup.hold)
  }

  function FeedbackSlot(c: Config, k: nat): Guard.Slot {
    Guard.Slot(Some(c.peer), if k <= 5 then None else Some(0))
  }

  function MediaSlot(st: Story, k: nat): Guard.Slot {
    if k <= 3 then Guard.Slot(None, None) else Guard.Slot(Some(st.from), Some(0))
  }

  function HeardBy(c: Config, st: Story, k: nat): seq<Receiver.Event> {
    if k <= 3 then []
    else if k <= 5 then st.Heard()[..k - 3]
    else if k == 6 then st.Heard()[..2]
    else if k == 7 then st.Heard()
    else st.Heard() + [Receiver.Release(c.setup.hold)]
  }

  /** The states it goes through. */
  ghost function StateAt(c: Config, st: Story, k: nat): State {
    State(if k < 3 then st.All()[..k] else st.All(),
          if k <= 3 then SentWire(c, st, k) else if k <= 5 then SentWire(c, st, 3) else FullWire(c, st),
          HeardBy(c, st, k), FeedbackSlot(c, k), MediaSlot(st, k))
  }

  ghost predicate Goes(c: Config, st: Story, k: nat)
    requires c.setup.cap > 0
  {
    Step(c, StateAt(c, st, k), EventAt(c, st, k), StateAt(c, st, k + 1))
  }

  lemma SendGoes(c: Config, st: Story, k: nat)
    requires c.setup.cap > 0 && k < 3
    ensures Goes(c, st, k)
  {
    var s, s' := StateAt(c, st, k), StateAt(c, st, k + 1);
    assert st.All()[..3] == st.All();
    assert st.All()[..k + 1] == st.All()[..k] + [st.All()[k]];
    assert PacketBytes(c, s'.sent, k) == PacketBytes(c, st.All(), k);
    assert s'.wire == s.wire + {PacketBytes(c, st.All(), k)};
  }

  /** What the reorder buffer sees of what is heard. */
  lemma {:induction false} ReordersOfHeard(st: Story, k: nat)
    requires k <= 3
    ensures Receiver.Reorders(st.Heard()[..k]) == st.Arrivals()[..k]
  {
    var h, a := st.Heard(), st.Arrivals();
    if k > 0 {
      ReordersOfHeard(st, k - 1);
      assert h[..k][..k - 1] == h[..k - 1] && h[..k][k - 1] == h[k - 1];
      assert a[..k] == a[..k - 1] + [a[k - 1]] && Receiver.ForReorder(h[k - 1]) == [a[k - 1]];
    }
  }

  /** The receiver's window before its `k`-th arrival. */
  lemma WindowBefore(c: Config, s: State, st: Story, k: nat)
    requires c.setup.cap == 64 && k <= 2 && s.heard == st.Heard()[..k]
    ensures Window(c, s).Window? ==> Window(c, s).base == 0
    ensures k == 2 ==> GapOpen(c, s, 1)
  {
    ReordersOfHeard(st, k);
    assert st.Arrivals()[..3] == st.Arrivals();
    M.RecoveringWindows(st.Arrivals(), Rtp.Seen(st.x.payload), Rtp.Seen(st.y.payload), Rtp.Seen(st.z.payload),
                        c.setup.cap, c.setup.hold);
  }

  /** The state after packet `i` has arrived from an admitted source. */
  ghost function Arrived(c: Config, s: State, from: Guard.Addr, i: nat, now: nat): State
    requires i < |s.sent|
  {
    s.(heard := s.heard + [Receiver.Arrive(c.first + i, Taken(s, i), now)], media := Guard.Slot(Some(from), Some(now)))
  }

  lemma DeliverStep(c: Config, s: State, b: Bytes, from: Guard.Addr, i: nat, now: nat)
    requires Sane(c) && Timely(c, s, b, i) && Admits(c, s, from, now)
    ensures Step(c, s, Deliver(b, from, now), Arrived(c, s, from, i, now))
  {
    ArrivalIsTrue(c, s, b, now, i);
    assert Delivers(c, s, b, from, now, i, Arrived(c, s, from, i, now));
  }

  /** The first and the third packet arrive as sent. */
  function Original(k: nat): nat { if k == 3 then 0 else 2 }

  lemma OriginalIsTimely(c: Config, st: Story, k: nat)
    requires SmallSession(c) && 3 <= k <= 4
    ensures Timely(c, StateAt(c, st, k), PacketBytes(c, st.All(), Original(k)), Original(k))
  {
    assert st.Heard()[..0] == [];
    WindowBefore(c, StateAt(c, st, k), st, k - 3);
  }

  lemma OriginalArrives(c: Config, st: Story, k: nat)
    requires SmallSession(c) && 3 <= k <= 4
    ensures StateAt(c, st, k + 1) == Arrived(c, StateAt(c, st, k), st.from, Original(k), 0)
  {
    assert st.Heard()[..0] == [];
    assert st.Heard()[..k - 2] == st.Heard()[..k - 3] + [st.Heard()[k - 3]];
  }

  lemma OriginalGoes(c: Config, st: Story, k: nat)
    requires SmallSession(c) && 3 <= k <= 4
    ensures Goes(c, st, k)
  {
    OriginalIsTimely(c, st, k);
    OriginalArrives(c, st, k);
    DeliverStep(c, StateAt(c, st, k), PacketBytes(c, st.All(), Original(k)), st.from, Original(k), 0);
  }

  lemma SecondCanBeAnswered(c: Config, sent: seq<Sent>)
    requires SmallSession(c) && |sent| == 3
    ensures CanAnswer(c, sent, 1, Wanted()) && Wrap(c.first + 1) in Wanted().due
  {
    assert Wanted().due[0] == 1;
    NackRound.PackFromLength([1], 0);
    assert |NackEntries.PackBitmask([1])| <= 1;
  }

  lemma RequestGoes(c: Config, st: Story)
    requires SmallSession(c)
    ensures Goes(c, st, 5)
  {
    SecondCanBeAnswered(c, st.All());
    RequestDecodes(c, st.All(), 1, Wanted());
  }

  lemma CopyIsOnWire(c: Config, st: Story)
    requires SmallSession(c)
    ensures Copy(c, st.All(), 1) in FullWire(c, st)
  {
    SecondCanBeAnswered(c, st.All());
    RequestIsAnswered(c, st.All(), 1, Wanted());
  }

  lemma CopyGoes(c: Config, st: Story)
    requires SmallSession(c)
    ensures Goes(c, st, 6)
  {
    var s := StateAt(c, st, 6);
    assert c.first + 1 == 1;
    WindowBefore(c, s, st, 2);
    CopyIsOnWire(c, st);
    assert st.Heard() == st.Heard()[..2] + [st.Heard()[2]];
    assert StateAt(c, st, 7) == Arrived(c, s, st.from, 1, 0);
    CopyIsTimely(c, s, 1);
    DeliverStep(c, s, Copy(c, st.All(), 1), st.from, 1, 0);
  }

  lemma EverythingGoes(c: Config, st: Story, k: nat)
    requires SmallSession(c) && k < 8
    ensures Goes(c, st, k)
  {
    if k < 3 {
      SendGoes(c, st, k);
    } else if k <= 4 {
      OriginalGoes(c, st, k);
    } else if k == 5 {
      RequestGoes(c, st);
    } else if k == 6 {
      CopyGoes(c, st);
    }
  }

  lemma LastDrainIsLate(c: Config, st: Story)
    requires SmallSession(c)
    ensures DrainsLate(c, StateAt(c, st, 7), StateAt(c, st, 8))
  {
    var s, s', a := StateAt(c, st, 7), StateAt(c, st, 8), st.Arrivals();
    ReordersOfHeard(st, 3);
    assert st.Heard()[..3] == st.Heard() && a[..3] == a;
    assert s'.heard[..3] == s.heard;
    assert Arrivals(s') == a + [M.Release(c.setup.hold)] && Arrivals(s')[..3] == a;
    M.RecoveringFits(Arrivals(s'), Rtp.Seen(st.x.payload), Rtp.Seen(st.y.payload), Rtp.Seen(st.z.payload),
                     c.setup.cap, c.setup.hold);
    assert DrainsAfter(c, s, s', 0, c.setup.hold);
  }

  /** `ss` and `es` are the states and events of the session. */
  ghost predicate Tells(c: Config, st: Story, ss: seq<State>, es: seq<Event>) {
    && |ss| == 9 && (forall k :: 0 <= k < 9 ==> ss[k] == StateAt(c, st, k))
    && |es| == 8 && (forall k :: 0 <= k < 8 ==> es[k] == EventAt(c, st, k))
  }

  lemma SessionIsRun(c: Config, st: Story, ss: seq<State>, es: seq<Event>)
    requires SmallSession(c) && Tells(c, st, ss, es)
    ensures IsRun(c, ss, es)
  {
    forall k | 0 <= k < 8
      ensures StepsAt(c, ss, es, k)
    {
      EverythingGoes(c, st, k);
    }
    assert st.All()[..0] == [];
    assert ss[0] == Start(c);
  }

  /**
   Recovery happens. Whatever the payloads: three packets are sent, the second is lost on the way and
   requested, its copy fills the gap, and the next drain comes late enough for `RecoveredIsDelivered`.
   */
  lemma SessionWithLoss(c: Config, st: Story, ss: seq<State>, es: seq<Event>)
    requires SmallSession(c) && Tells(c, st, ss, es)
    ensures IsRun(c, ss, es) && Fills(c, ss, es, 6, 1) && ss[6].sent == st.All() && DrainsLate(c, ss[7], ss[8])
  {
    SessionIsRun(c, st, ss, es);
    WindowBefore(c, ss[6], st, 2);
    LastDrainIsLate(c, st);
  }

  /**
   So the recovered payload is handed over as the receiver's buffer took it, which is as it was sent if
   and only if it has at most 2036 bytes: one byte more and the last byte is gone.
   */
  lemma LongPayloadIsCut(c: Config, st: Story, ss: seq<State>, es: seq<Event>)
    requires SmallSession(c) && Tells(c, st, ss, es)
    ensures ss[6].sent == st.All() && HandedOver(c, ss[8], c.first + 1, Taken(ss[6], 1), es[6].now)
    ensures Taken(ss[6], 1) == st.y.payload <==> |st.y.payload| <= 2036
    ensures |st.y.payload| == 2037 ==> Taken(ss[6], 1) == st.y.payload[..2036]
  {
    SessionWithLoss(c, st, ss, es);
    RecoveredIsDelivered(c, ss, es, 6, 8, 1);
    Rtp.SeenWholeIff(st.y.payload);
  }

  // ---- the request is the scheduler's own ----

  /** Number 1 and when it is due first. */
  function Pending(c: Config): map<int, N.Pending> {
    map[1 := N.Pending(1, c.setup.delay, 0)]
  }

  lemma NothingPending(c: Config, st: Story)
    ensures Receiver.CoreOf(st.Heard()[..0], c.setup) == N.Core(N.Tracker(None, map[], 0), c.setup.delay)
  {
    assert st.Heard()[..0] == [];
  }

  lemma CoreAfterFirst(c: Config, st: Story)
    ensures Receiver.CoreOf(st.Heard()[..1], c.setup) == N.State(1, map[], 0, c.setup.delay)
  {
    NothingPending(c, st);
    Receiver.CoreSnoc(st.Heard(), 0, c.setup);
    N.FirstPacket(0, 0, c.setup.delay, c.setup.max, c.setup.bits);
  }

  /** Before the request the scheduler chases number 1 and nothing else. */
  lemma CoreBeforeRequest(c: Config, st: Story)
    requires SmallSession(c)
    ensures Receiver.CoreOf(st.Heard()[..2], c.setup) == N.State(3, Pending(c), 1, c.setup.delay)
  {
    CoreAfterFirst(c, st);
    Receiver.CoreSnoc(st.Heard(), 1, c.setup);
    N.SharedSlot(c.setup.bits);
    N.ShortJump(1, map[], 0, 2, 0, c.setup.delay, c.setup.max, c.setup.bits);
  }

  lemma AllHeardBeforeRequest(c: Config, st: Story, heard: seq<Receiver.Event>)
    requires SmallSession(c) && heard == st.Heard()[..2]
    ensures Receiver.AllHeard(heard, c.setup)
  {
    assert heard[..0] == st.Heard()[..0] && heard[..1] == st.Heard()[..1];
    NothingPending(c, st);
    CoreAfterFirst(c, st);
    assert Receiver.HeardAt(heard, 0, c.setup) && Receiver.HeardAt(heard, 1, c.setup);
  }

  lemma NoExcuse(c: Config, st: Story, s: State)
    requires SmallSession(c) && s.heard == st.Heard()[..2]
    ensures Unexcused(c, s, 1)
  {
    assert s.heard[..0] == st.Heard()[..0] && s.heard[..1] == st.Heard()[..1];
    NothingPending(c, st);
    CoreAfterFirst(c, st);
    var t := N.Tracker(Some(1), map[], 0);
    assert N.Track(t, 1, 1, c.setup.delay, c.setup.bits) == t;
    assert !Receiver.ExcusedAt(s.heard, 0, 1, c.setup) && !Receiver.ExcusedAt(s.heard, 1, 1, c.setup);
  }

  lemma OnlyOneIsDue(c: Config, t: N.Tracker, w: U16)
    requires t.table == Pending(c) && c.setup.max > 0
    ensures w in [1] <==> N.InDueList(t, w, c.setup.delay, c.setup.max)
  {
    assert N.Listed(t.table[1], c.setup.delay, c.setup.max) && Wrap(t.table[1].n) == 1;
  }

  /** What the session's request asks for is the due list of a poll right before it. */
  lemma RequestIsPolled(c: Config, st: Story)
    requires SmallSession(c)
    ensures Requests(c, StateAt(c, st, 5), 1, Wanted().due)
  {
    var s := StateAt(c, st, 5);
    CoreBeforeRequest(c, st);
    AllHeardBeforeRequest(c, st, s.heard);
    WindowBefore(c, s, st, 2);
    NoExcuse(c, st, s);
    N.SharedSlot(c.setup.bits);
    forall w: U16
      ensures w in Wanted().due <==> N.InDueList(Tracker(c, s), w, c.setup.delay, c.setup.max)
    {
      OnlyOneIsDue(c, Tracker(c, s), w);
    }
    assert Polled(c, s, 1, c.setup.delay, Wanted().due);
  }

  /** So the session is one whole round in the sense of `OpenGapLeadsToRecovery`. */
  lemma SessionIsOneRound(c: Config, st: Story, ss: seq<State>, es: seq<Event>)
    requires SmallSession(c) && Tells(c, st, ss, es)
    ensures Requests(c, ss[5], 1, Wanted().due) && RequestedAt(c, ss, es, 5, Wanted())
    ensures CanAnswer(c, ss[5].sent, 1, Wanted()) && GapOpen(c, ss[6], 1) && c.first + 1 == 1
  {
    RequestIsPolled(c, st);
    SecondCanBeAnswered(c, ss[5].sent);
    WindowBefore(c, ss[6], st, 2);
  }
}
