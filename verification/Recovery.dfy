/**
 Loss recovery in the whole session: a gap at the receiver is requested, the sender answers, the copy
 fills the gap and is delivered.
 */
module Recovery {
  import opened Seq16
  import opened Codec
  import Rtcp
  import opened EndToEnd
  import Guard
  import Rtp
  import Compound
  import Retransmit
  import Service
  import NackRound
  import NackModel
  import Receiver
  import M = ReorderModel

  // ---- what stays ----

  /** A later state has everything an earlier one had. */
  ghost predicate Grown(s: State, s': State) {
    && s.wire <= s'.wire
    && |s.sent| <= |s'.sent| && s'.sent[..|s.sent|] == s.sent
    && |s.heard| <= |s'.heard| && s'.heard[..|s.heard|] == s.heard
  }

  lemma StepGrows(c: Config, s: State, e: Event, s': State)
    requires c.setup.cap > 0 && Step(c, s, e, s')
    ensures Grown(s, s')
  {
    if e.Deliver? {
      var i: nat :| Delivers(c, s, e.packet, e.from, e.now, i, s');
    }
  }

  lemma GrownOn(s: State, s': State, s'': State)
    requires Grown(s, s') && Grown(s', s'')
    ensures Grown(s, s'')
  {
    assert s''.sent[..|s.sent|] == s''.sent[..|s'.sent|][..|s.sent|];
    assert s''.heard[..|s.heard|] == s''.heard[..|s'.heard|][..|s.heard|];
  }

  lemma {:induction false} RunGrows(c: Config, ss: seq<State>, es: seq<Event>, j: nat, k: nat)
    requires c.setup.cap > 0 && IsRun(c, ss, es) && j <= k <= |es|
    ensures Grown(ss[j], ss[k])
    decreases k
  {
    if j < k {
      RunGrows(c, ss, es, j, k - 1);
      assert StepsAt(c, ss, es, k - 1);
      StepGrows(c, ss[k - 1], es[k - 1], ss[k]);
      GrownOn(ss[j], ss[k - 1], ss[k]);
    }
  }

  /** What the reorder buffer saw early on is the beginning of what it saw later. */
  lemma {:induction false} ReordersGrow(heard: seq<Receiver.Event>, k: nat)
    requires k <= |heard|
    ensures var early, all := Receiver.Reorders(heard[..k]), Receiver.Reorders(heard);
            |early| <= |all| && all[..|early|] == early
    decreases |heard|
  {
    if k < |heard| {
      var m := |heard| - 1;
      ReordersGrow(heard[..m], k);
      assert heard[..m][..k] == heard[..k];
    } else {
      assert heard[..k] == heard;
    }
  }

  // ---- a request is answered ----

  /** The retransmit copy of packet `i`. */
  function Copy(c: Config, sent: seq<Sent>, i: nat): Bytes
    requires i < |sent|
  {
    Rtp.Flagged(PacketBytes(c, sent, i))
  }

  /** A report, the two SSRCs and the due list the NACK pump puts into one datagram. */
  datatype Ask = Ask(rr: Rtcp.Packet, own: U32, media: U32, due: seq<U16>)

  ghost function Request(a: Ask): Bytes {
    Compound.Serialize(NackRound.NackDatagram(a.rr, a.own, a.media, a.due))
  }

  /**
   The sender can answer for packet `i` if it is on the due list: it is still in the ring, the request
   names this sender and fits its buffer, and the due list fits the budget.
   */
  ghost predicate CanAnswer(c: Config, sent: seq<Sent>, i: nat, a: Ask) {
    && a.rr.ReceiverReport? && Rtcp.WellFormed(a.rr) && Ascending(a.due) && |a.due| <= 4096
    && Service.TargetsUs(a.media, c.ssrc)
    && NackRound.DatagramLength(a.rr, a.due) <= NackRound.RTCP_BUFFER
    && Pow2(c.ringBits) <= Service.MAX_RETX && |a.due| <= Service.ScanBudget(Pow2(c.ringBits))
    && i < |sent| && |sent| - Retransmit.Reach(c.ringBits) <= i
  }

  /** The sender selects a packet that is due. */
  lemma RequestIsSelected(c: Config, sent: seq<Sent>, i: nat, a: Ask)
    requires CanAnswer(c, sent, i, a) && Wrap(c.first + i) in a.due
    ensures var log := Log(c, sent);
            && Retransmit.Lookup(log, Wrap(c.first + i), c.ringBits) == Some(PacketBytes(c, sent, i))
            && Wrap(c.first + i) in NackRound.Answered(a.rr, a.own, a.media, a.due, c.ssrc, log, c.ringBits)
  {
    Retransmit.RecentIsFound(c.first, Packets(c, sent), c.first + i, c.ringBits);
    NackRound.DueIsAnswered(a.rr, a.own, a.media, a.due, c.ssrc, Log(c, sent), c.ringBits, Wrap(c.first + i));
  }

  lemma AnsweredIsSelected(c: Config, log: seq<Retransmit.Entry>, a: Ask)
    ensures NackRound.Answered(a.rr, a.own, a.media, a.due, c.ssrc, log, c.ringBits) == Selected(c, log, Request(a))
  {
  }

  lemma FlaggedMember(log: seq<Retransmit.Entry>, ws: seq<U16>, w: U16, bits: nat)
    requires w in ws && Retransmit.Lookup(log, w, bits).Some?
    ensures Rtp.Flagged(Retransmit.Lookup(log, w, bits).value) in FlaggedOf(log, ws, bits)
  {
  }

  /** Serving a request resends the packet asked for. */
  lemma RequestIsAnswered(c: Config, sent: seq<Sent>, i: nat, a: Ask)
    requires CanAnswer(c, sent, i, a) && Wrap(c.first + i) in a.due
    ensures Copy(c, sent, i) in Resent(c, sent, Request(a))
  {
    var log := Log(c, sent);
    RequestIsSelected(c, sent, i, a);
    AnsweredIsSelected(c, log, a);
    FlaggedMember(log, Selected(c, log, Request(a)), Wrap(c.first + i), c.ringBits);
  }

  /** A request that fits decodes, so only its source decides whether it is served. */
  lemma RequestDecodes(c: Config, sent: seq<Sent>, i: nat, a: Ask)
    requires CanAnswer(c, sent, i, a)
    ensures Decodes(Request(a))
  {
    NackRound.DatagramSize(a.rr, a.own, a.media, a.due);
    NackRound.DueListCrossesTheWire(a.rr, a.own, a.media, a.due, c.ssrc);
  }

  /** At step `j` the sender gets request `a` from a source it admits. */
  ghost predicate RequestedAt(c: Config, ss: seq<State>, es: seq<Event>, j: nat, a: Ask)
    requires |ss| == |es| + 1
  {
    && j < |es| && es[j].Feedback? && es[j].datagram == Request(a)
    && Guard.SourceAllowed(es[j].from, None, ss[j].peer.current, ss[j].peer.live, es[j].at)
  }

  /** An admitted request is served, and serving it puts the copy on the wire. */
  lemma RequestIsServed(c: Config, s: State, from: Guard.Addr, at: nat, i: nat, a: Ask)
    requires CanAnswer(c, s.sent, i, a) && Wrap(c.first + i) in a.due
    requires Guard.SourceAllowed(from, None, s.peer.current, s.peer.live, at)
    ensures Serves(s, Request(a), from, at) && Copy(c, s.sent, i) in Resent(c, s.sent, Request(a))
  {
    RequestDecodes(c, s.sent, i, a);
    RequestIsAnswered(c, s.sent, i, a);
  }

  /** From then on the copy is on the wire for good. */
  lemma CopyStaysAvailable(c: Config, ss: seq<State>, es: seq<Event>, j: nat, k: nat, i: nat, a: Ask)
    requires c.setup.cap > 0 && IsRun(c, ss, es) && j < k <= |es| && RequestedAt(c, ss, es, j, a)
    requires CanAnswer(c, ss[j].sent, i, a) && Wrap(c.first + i) in a.due
    ensures i < |ss[k].sent| && ss[k].sent[i] == ss[j].sent[i]
    ensures Copy(c, ss[k].sent, i) == Copy(c, ss[j].sent, i) && Copy(c, ss[j].sent, i) in ss[k].wire
  {
    assert StepsAt(c, ss, es, j);
    RequestIsServed(c, ss[j], es[j].from, es[j].at, i, a);
    RunGrows(c, ss, es, j, k);
    RunGrows(c, ss, es, j + 1, k);
    SamePacket(c, ss[j], ss[k], i);
  }

  lemma SamePacket(c: Config, s: State, s': State, i: nat)
    requires Grown(s, s') && i < |s.sent|
    ensures i < |s'.sent| && s'.sent[i] == s.sent[i] && Copy(c, s'.sent, i) == Copy(c, s.sent, i)
  {
    assert s'.sent[i] == s'.sent[..|s.sent|][i];
    assert PacketBytes(c, s'.sent, i) == PacketBytes(c, s.sent, i);
  }

  // ---- a gap is filled ----

  /** Number `n` is in the receiver's window as a gap that has not timed out. */
  ghost predicate GapOpen(c: Config, s: State, n: int)
    requires c.setup.cap > 0
  {
    Receiver.GapAt(Window(c, s), n)
  }

  /** A copy of a packet that is a gap at the receiver can arrive there. */
  lemma CopyIsTimely(c: Config, s: State, i: nat)
    requires 0 < c.setup.cap <= 16384 && i < |s.sent| && Copy(c, s.sent, i) in s.wire && GapOpen(c, s, c.first + i)
    ensures Timely(c, s, Copy(c, s.sent, i), i)
  {
    assert M.Fits(Window(c, s), c.setup.cap);
  }

  lemma PacketShowsWire(c: Config, sent: seq<Sent>, b: Bytes, i: nat)
    requires Sane(c) && IsPacket(c, sent, b, i)
    ensures Rtp.ParseRtp(Rtp.Received(b)).Ok? && Rtp.ParseRtp(Rtp.Received(b)).value.wire == Wrap(c.first + i)
  {
    Rtp.ReceivedReadsBack(c.ssrc, Wrap(c.first + i), sent[i].timestamp, sent[i].payload);
  }

  /** Two packets with the same bytes have the same 16 bits. */
  lemma SameBytesSameWire(c: Config, sent: seq<Sent>, b: Bytes, i: nat, j: nat)
    requires Sane(c) && IsPacket(c, sent, b, i) && IsPacket(c, sent, b, j)
    ensures Wrap(c.first + i) == Wrap(c.first + j)
  {
    PacketShowsWire(c, sent, b, i);
    PacketShowsWire(c, sent, b, j);
  }

  /** Near an open gap there is only one number with its 16 bits. */
  lemma OnlyOneTimely(c: Config, s: State, b: Bytes, i: nat, k: nat)
    requires Sane(c) && c.setup.cap <= 16384 && IsPacket(c, s.sent, b, i) && GapOpen(c, s, c.first + i)
    requires Timely(c, s, b, k)
    ensures i == k
  {
    SameBytesSameWire(c, s.sent, b, i, k);
    assert M.Fits(Window(c, s), c.setup.cap);
    WrapDistinct(c.first + i, c.first + k);
  }

  /** What the receiver's buffer takes of the payload of packet `i`. */
  function Taken(s: State, i: nat): Bytes
    requires i < |s.sent|
  {
    Rtp.Seen(s.sent[i].payload)
  }

  /** The receiver has just heard this packet. */
  ghost predicate Hears(s: State, s': State, n: int, payload: Bytes, now: nat) {
    s'.heard == s.heard + [Receiver.Arrive(n, payload, now)]
  }

  /** Delivered into an open gap, an original or a copy arrives as the packet it is. */
  lemma FillArrives(c: Config, s: State, b: Bytes, i: nat, k: nat, now: nat)
    requires Sane(c) && c.setup.cap <= 16384 && IsPacket(c, s.sent, b, i) && GapOpen(c, s, c.first + i)
    requires Timely(c, s, b, k)
    ensures Arrival(c, s, b, now, c.first + k) == [Receiver.Arrive(c.first + i, Taken(s, i), now)]
  {
    OnlyOneTimely(c, s, b, i, k);
    ArrivalIsTrue(c, s, b, now, i);
  }

  /** At step `k` packet `i`, in whatever form, arrives from an admitted source while its gap is open. */
  ghost predicate Fills(c: Config, ss: seq<State>, es: seq<Event>, k: nat, i: nat)
    requires c.setup.cap > 0 && |ss| == |es| + 1
  {
    && k < |es| && es[k].Deliver? && IsPacket(c, ss[k].sent, es[k].packet, i)
    && Admits(c, ss[k], es[k].from, es[k].now) && GapOpen(c, ss[k], c.first + i)
  }

  // ---- a filled gap is delivered ----

  ghost predicate AcceptedAs(c: Config, s: State, at: nat, n: int, payload: Bytes, now: nat)
    requires c.setup.cap > 0
  {
    && at < |Arrivals(s)| && Arrivals(s)[at] == M.Arrive(n, payload, now)
    && M.AcceptedAt(Arrivals(s), at, c.setup.cap, c.setup.hold)
  }

  /** Some arrival so far was accepted as this packet. */
  ghost predicate Accepted(c: Config, s: State, n: int, payload: Bytes, now: nat)
    requires c.setup.cap > 0
  {
    exists at :: AcceptedAs(c, s, at, n, payload, now)
  }

  /** An arrival into an open gap is accepted. */
  lemma GapAccepts(arrivals: seq<M.Event>, k: nat, cap: nat, hold: nat)
    requires cap > 0 && k < |arrivals| && arrivals[k].Arrive?
    requires Receiver.GapAt(M.RunOf(arrivals[..k], cap, hold).window, arrivals[k].n)
    ensures M.AcceptedAt(arrivals, k, cap, hold)
  {
    assert M.Fits(M.RunOf(arrivals[..k], cap, hold).window, cap);
  }

  lemma FilledLater(c: Config, s: State, s': State, later: State, n: int, payload: Bytes, now: nat)
    requires c.setup.cap > 0 && GapOpen(c, s, n) && Hears(s, s', n, payload, now) && Grown(s', later)
    ensures Accepted(c, later, n, payload, now)
  {
    var at, all := |Arrivals(s)|, Arrivals(later);
    assert s'.heard[..|s.heard|] == s.heard;
    assert Arrivals(s') == Arrivals(s) + [M.Arrive(n, payload, now)];
    ReordersGrow(later.heard, |s'.heard|);
    BeginsWith(all, Arrivals(s), M.Arrive(n, payload, now));
    GapAccepts(all, at, c.setup.cap, c.setup.hold);
    assert AcceptedAs(c, later, at, n, payload, now);
  }

  lemma BeginsWith<T>(all: seq<T>, early: seq<T>, x: T)
    requires |early| < |all| && all[..|early| + 1] == early + [x]
    ensures all[|early|] == x && all[..|early|] == early
  {
    assert all[|early|] == all[..|early| + 1][|early|];
    assert all[..|early|] == all[..|early| + 1][..|early|];
  }

  lemma FillIsHeard(c: Config, ss: seq<State>, es: seq<Event>, k: nat, i: nat)
    requires Sane(c) && c.setup.cap <= 16384 && IsRun(c, ss, es) && Fills(c, ss, es, k, i)
    ensures Hears(ss[k], ss[k + 1], c.first + i, Taken(ss[k], i), es[k].now)
  {
    assert StepsAt(c, ss, es, k);
    var s, e := ss[k], es[k];
    var m: nat :| Delivers(c, s, e.packet, e.from, e.now, m, ss[k + 1]);
    FillArrives(c, s, e.packet, i, m, e.now);
  }

  /** The packet that fills a gap, seen from any later state. */
  lemma FillIsAccepted(c: Config, ss: seq<State>, es: seq<Event>, k: nat, m: nat, i: nat)
    requires Sane(c) && c.setup.cap <= 16384 && IsRun(c, ss, es) && k < m <= |es| && Fills(c, ss, es, k, i)
    ensures Accepted(c, ss[m], c.first + i, Taken(ss[k], i), es[k].now)
  {
    FillIsHeard(c, ss, es, k, i);
    RunGrows(c, ss, es, k + 1, m);
    FilledLater(c, ss[k], ss[k + 1], ss[m], c.first + i, Taken(ss[k], i), es[k].now);
  }

  /** Not reported lost; held until the window moves past it, and then delivered unless flushed. */
  ghost predicate Safe(c: Config, s: State, n: int, payload: Bytes, now: nat)
    requires c.setup.cap > 0
  {
    match Window(c, s)
    case Fresh => false
    case Window(_, _) => M.DeliveredUnlessFlushed(M.RunOf(Arrivals(s), c.setup.cap, c.setup.hold), n, payload, now)
  }

  lemma AcceptedIsSafe(c: Config, s: State, n: int, payload: Bytes, now: nat)
    requires c.setup.cap > 0 && Accepted(c, s, n, payload, now)
    ensures Safe(c, s, n, payload, now)
  {
    var at: nat :| AcceptedAs(c, s, at, n, payload, now);
    M.AcceptedIsDelivered(Arrivals(s), at, c.setup.cap, c.setup.hold);
  }

  /**
   Recovery. If a packet, original or retransmit, arrives while its gap is open, then at every later
   point of the run its number is not reported lost: what the receiver's buffer took of its payload is
   held until the window moves past it, and then it has been delivered, unless an overflow flushed it.
   */
  lemma RecoveredIsNeverLost(c: Config, ss: seq<State>, es: seq<Event>, k: nat, m: nat, i: nat)
    requires Sane(c) && c.setup.cap <= 16384 && IsRun(c, ss, es) && k < m <= |es| && Fills(c, ss, es, k, i)
    ensures Safe(c, ss[m], c.first + i, Taken(ss[k], i), es[k].now)
  {
    FillIsAccepted(c, ss, es, k, m, i);
    AcceptedIsSafe(c, ss[m], c.first + i, Taken(ss[k], i), es[k].now);
  }

  /** A drain at `t`, a whole hold time after every arrival so far, in a run without overflow. */
  ghost predicate DrainsAfter(c: Config, s: State, s': State, clock: nat, t: nat)
    requires c.setup.cap > 0
  {
    && Arrivals(s') == Arrivals(s) + [M.Release(t)] && t >= clock + c.setup.hold
    && (forall e :: e in Arrivals(s) && e.Arrive? ==> e.now <= clock)
    && M.NeverOverflows(Arrivals(s'), c.setup.cap, c.setup.hold)
  }

  ghost predicate DrainsLate(c: Config, s: State, s': State)
    requires c.setup.cap > 0
  {
    exists clock: nat, t: nat :: DrainsAfter(c, s, s', clock, t)
  }

  /** The delivery thread has handed this packet over. */
  ghost predicate HandedOver(c: Config, s: State, n: int, payload: Bytes, now: nat)
    requires c.setup.cap > 0
  {
    M.Delivered(n, payload, now) in Output(c, s)
  }

  lemma AcceptedIsDelivered(c: Config, s: State, s': State, n: int, payload: Bytes, now: nat)
    requires c.setup.cap > 0 && Accepted(c, s', n, payload, now) && DrainsLate(c, s, s')
    ensures HandedOver(c, s', n, payload, now)
  {
    var clock: nat, t: nat :| DrainsAfter(c, s, s', clock, t);
    var at: nat :| AcceptedAs(c, s', at, n, payload, now);
    M.DrainedIsDelivered(Arrivals(s'), at, clock, t, c.setup.cap, c.setup.hold);
  }

  /**
   And without overflow it has been delivered once the delivery thread drains a whole hold time after
   the latest arrival: with the sent payload if that has at most 2036 bytes, else with its beginning.
   */
  lemma RecoveredIsDelivered(c: Config, ss: seq<State>, es: seq<Event>, k: nat, m: nat, i: nat)
    requires Sane(c) && c.setup.cap <= 16384 && IsRun(c, ss, es) && k < m <= |es| && Fills(c, ss, es, k, i)
    requires DrainsLate(c, ss[m - 1], ss[m])
    ensures HandedOver(c, ss[m], c.first + i, Taken(ss[k], i), es[k].now)
  {
    FillIsAccepted(c, ss, es, k, m, i);
    AcceptedIsDelivered(c, ss[m - 1], ss[m], c.first + i, Taken(ss[k], i), es[k].now);
  }

  // ---- from an open gap to the request ----

  ghost function Tracker(c: Config, s: State): NackModel.Tracker {
    Receiver.CoreOf(s.heard, c.setup).tracker
  }

  /** Nothing in the receiver's history is why number `n` is not chased. */
  ghost predicate Unexcused(c: Config, s: State, n: int) {
    !exists j: nat :: j < |s.heard| && Receiver.ExcusedAt(s.heard, j, n, c.setup)
  }

  /** An open gap that nothing excuses is tracked, so a poll lists it once it is ripe, while retries last. */
  lemma OpenGapIsDue(c: Config, s: State, n: int, now: nat)
    requires Receiver.Sized(c.setup) && Receiver.AllHeard(s.heard, c.setup)
    requires GapOpen(c, s, n) && Unexcused(c, s, n)
    ensures NackModel.Tracks(Tracker(c, s), n, c.setup.bits)
    ensures var entry := Tracker(c, s).table[Idx(n, c.setup.bits)];
            NackModel.Listed(entry, now, c.setup.max) ==> NackModel.InDueList(Tracker(c, s), Wrap(n), now, c.setup.max)
  {
    assert s.heard[..|s.heard|] == s.heard;
    Receiver.EveryGapChased(s.heard, |s.heard|, c.setup);
    assert Receiver.Chased(s.heard, |s.heard|, n, c.setup);
    if NackModel.Listed(Tracker(c, s).table[Idx(n, c.setup.bits)], now, c.setup.max) {
      Receiver.ChasedIsDue(Tracker(c, s), n, now, c.setup.max, c.setup.bits);
    }
  }

  /** `due` is the due list of a poll at `now`: what `NackRound.Pump` puts into its datagram. */
  ghost predicate Pumped(c: Config, s: State, now: nat, due: seq<U16>) {
    forall w :: w in due <==> NackModel.InDueList(Tracker(c, s), w, now, c.setup.max)
  }

  /** Number `n` is ripe at `now` with retries left. */
  ghost predicate Ready(c: Config, s: State, n: int, now: nat) {
    var t, i := Tracker(c, s), Idx(n, c.setup.bits);
    i in t.table && NackModel.Listed(t.table[i], now, c.setup.max)
  }

  /** At `now` number `n` is an open gap that nothing excuses and that is ready, and `due` is the due list. */
  ghost predicate Polled(c: Config, s: State, n: int, now: nat, due: seq<U16>)
    requires c.setup.cap > 0
  {
    && Receiver.Sized(c.setup) && Receiver.AllHeard(s.heard, c.setup) && GapOpen(c, s, n) && Unexcused(c, s, n)
    && Ready(c, s, n, now) && Pumped(c, s, now, due)
  }

  /** A poll of the scheduler in state `s` makes the due list `due` while `n` is open and ready. */
  ghost predicate Requests(c: Config, s: State, n: int, due: seq<U16>)
    requires c.setup.cap > 0
  {
    exists now: nat :: Polled(c, s, n, now, due)
  }

  /** So the request a poll emits names every open gap that is ready. */
  lemma OpenGapIsRequested(c: Config, s: State, n: int, due: seq<U16>)
    requires c.setup.cap > 0 && Requests(c, s, n, due)
    ensures Wrap(n) in due
  {
    var now: nat :| Polled(c, s, n, now, due);
    OpenGapIsDue(c, s, n, now);
  }

  /**
   One whole round. In state `p` packet `i` is an open gap that is ready, and a poll makes the request;
   at step `j` the sender gets it from a source it admits and can answer. From then on the copy is on
   the wire; whenever the gap is open the copy may arrive, and if it does, at step `k` and from an
   admitted source, it fills the gap.
   */
  lemma OpenGapLeadsToRecovery(c: Config, ss: seq<State>, es: seq<Event>, p: nat, j: nat, k: nat, i: nat, a: Ask)
    requires 0 < c.setup.cap <= 16384 && IsRun(c, ss, es) && p <= j < k <= |es|
    requires Requests(c, ss[p], c.first + i, a.due) && RequestedAt(c, ss, es, j, a) && CanAnswer(c, ss[j].sent, i, a)
    requires GapOpen(c, ss[k], c.first + i)
    ensures CopyMayFill(c, ss, es, k, i) && ss[k].sent[i] == ss[j].sent[i]
  {
    OpenGapIsRequested(c, ss[p], c.first + i, a.due);
    RequestLeadsToRecovery(c, ss, es, j, k, i, a);
  }

  /** The copy of packet `i` may arrive at step `k`, and if it does, from an admitted source, it fills the gap. */
  ghost predicate CopyMayFill(c: Config, ss: seq<State>, es: seq<Event>, k: nat, i: nat)
    requires c.setup.cap > 0 && |ss| == |es| + 1
  {
    && k < |ss| && i < |ss[k].sent| && Timely(c, ss[k], Copy(c, ss[k].sent, i), i)
    && (k < |es| && es[k].Deliver? && es[k].packet == Copy(c, ss[k].sent, i) && Admits(c, ss[k], es[k].from, es[k].now)
        ==> Fills(c, ss, es, k, i))
  }

  /** The same from the request on, whoever composed it. */
  lemma RequestLeadsToRecovery(c: Config, ss: seq<State>, es: seq<Event>, j: nat, k: nat, i: nat, a: Ask)
    requires 0 < c.setup.cap <= 16384 && IsRun(c, ss, es) && j < k <= |es| && RequestedAt(c, ss, es, j, a)
    requires CanAnswer(c, ss[j].sent, i, a) && Wrap(c.first + i) in a.due && GapOpen(c, ss[k], c.first + i)
    ensures CopyMayFill(c, ss, es, k, i) && ss[k].sent[i] == ss[j].sent[i]
  {
    CopyStaysAvailable(c, ss, es, j, k, i, a);
    CopyIsTimely(c, ss[k], i);
  }
}
