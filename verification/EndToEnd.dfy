/**
 The whole session: a sender that numbers, sends and retransmits; a network that may drop,
 duplicate and reorder; a receiver whose arrivals, drains and polls interleave freely.
 */
module EndToEnd {
  import opened Seq16
  import opened Codec
  import Guard
  import Rtp
  import Compound
  import Retransmit
  import Service
  import Reorder
  import NackRound
  import Receiver
  import M = ReorderModel

  /**
   Fixed for a session. The SSRC is even; the low bit is the retransmit flag. `peer` is where the
   sender expects feedback from, `pinned` the only media source the receiver accepts, if any.
   */
  datatype Config = Config(ssrc: U32, first: int, ringBits: nat, setup: Receiver.Setup,
                           peer: Guard.Addr, pinned: Option<nat>)

  ghost predicate Sane(c: Config) {
    c.ssrc % 2 == 0 && c.setup.cap > 0
  }

  /** A packet the application handed over, with the timestamp it went out with. */
  datatype Sent = Sent(payload: Bytes, timestamp: U32)

  datatype Event =
    | Send(payload: Bytes, timestamp: U32)
    | Feedback(datagram: Bytes, from: Guard.Addr, at: nat)
    | Deliver(packet: Bytes, from: Guard.Addr, now: nat)
    | Drain(now: nat)
    | Poll(now: nat, rtt: Option<nat>)
    | Tune(delay: nat)

  /**
   `wire` holds everything ever put on the network; the network picks from it at will. `heard` is
   what the receiver has been through, `peer` the sender's feedback slot, `media` the receiver's
   media slot.
   */
  datatype State = State(sent: seq<Sent>, wire: set<Bytes>, heard: seq<Receiver.Event>,
                         peer: Guard.Slot, media: Guard.Slot)

  function Start(c: Config): State {
    State([], {}, [], Guard.Slot(Some(c.peer), None), Guard.Slot(None, None))
  }

  /** The packet sent under unwrapped number `c.first + i`. */
  function PacketBytes(c: Config, sent: seq<Sent>, i: nat): Bytes
    requires i < |sent|
  {
    Rtp.RtpBytes(c.ssrc, Wrap(c.first + i), sent[i].timestamp, sent[i].payload)
  }

  function Packets(c: Config, sent: seq<Sent>): (ps: seq<Bytes>)
    ensures |ps| == |sent|
  {
    seq(|sent|, i requires 0 <= i < |sent| => PacketBytes(c, sent, i))
  }

  ghost function Log(c: Config, sent: seq<Sent>): seq<Retransmit.Entry> {
    Retransmit.Sends(c.first, Packets(c, sent))
  }

  // ---- feedback ----

  /** A feedback datagram counts for the sender if it parses, through its buffer, to at least one packet. */
  ghost predicate Decodes(datagram: Bytes) {
    var r := Compound.Parse(NackRound.CutOff(datagram));
    r.Ok? && r.value != []
  }

  /** The numbers an RTCP datagram, read through the sender's buffer, makes it retransmit. */
  ghost function Selected(c: Config, log: seq<Retransmit.Entry>, datagram: Bytes): seq<U16> {
    var r := Compound.Parse(NackRound.CutOff(datagram));
    if r.Err? then []
    else Service.Serve(Service.AskedAll(r.value, c.ssrc), Service.ScanBudget(Pow2(c.ringBits)),
                       Service.RetxBudget(Pow2(c.ringBits)), Service.Holds(log, c.ringBits))
  }

  /** The flagged packets of the numbers held. */
  ghost function FlaggedOf(log: seq<Retransmit.Entry>, ws: seq<U16>, bits: nat): set<Bytes> {
    set w | w in ws && Retransmit.Lookup(log, w, bits).Some? :: Rtp.Flagged(Retransmit.Lookup(log, w, bits).value)
  }

  /** The packets an admitted RTCP datagram makes the sender put on the wire again. */
  ghost function Resent(c: Config, sent: seq<Sent>, datagram: Bytes): set<Bytes> {
    FlaggedOf(Log(c, sent), Selected(c, Log(c, sent), datagram), c.ringBits)
  }

  /** The sender serves a datagram only if it decodes and its source may hold the feedback slot. */
  ghost predicate Serves(s: State, datagram: Bytes, from: Guard.Addr, at: nat) {
    Guard.DatagramAccepted(s.peer, Guard.Datagram(from, at, Decodes(datagram)))
  }

  // ---- arrivals ----

  /** `b` is packet `i` of the session, as sent or as retransmitted. */
  ghost predicate IsPacket(c: Config, sent: seq<Sent>, b: Bytes, i: nat) {
    i < |sent| && (b == PacketBytes(c, sent, i) || b == Rtp.Flagged(PacketBytes(c, sent, i)))
  }

  /** What the reorder buffer has been through. */
  ghost function Arrivals(s: State): seq<M.Event> {
    Receiver.Reorders(s.heard)
  }

  ghost function Window(c: Config, s: State): M.Window
    requires c.setup.cap > 0
  {
    Receiver.WindowOf(s.heard, c.setup)
  }

  /** The media source may hold the receiver's slot. */
  ghost predicate Admits(c: Config, s: State, from: Guard.Addr, now: nat) {
    Guard.SourceAllowed(from, c.pinned, s.media.current, s.media.live, now)
  }

  /** What a datagram, read through the receiver's buffer, does to the receiver if it is RTP at all. */
  ghost function Arrival(c: Config, s: State, b: Bytes, now: nat, start: int): seq<Receiver.Event>
    requires c.setup.cap > 0
  {
    var r := Rtp.ParseRtp(Rtp.Received(b));
    if r.Err? then []
    else [Receiver.Arrive(Reorder.Number(Window(c, s), r.value.wire, start), r.value.payload, now)]
  }

  /** `b` is on the wire as the packet of index `i`, and its number is within half the space of the base. */
  ghost predicate Timely(c: Config, s: State, b: Bytes, i: nat)
    requires c.setup.cap > 0
  {
    && b in s.wire && IsPacket(c, s.sent, b, i)
    && var w := Window(c, s); w.Window? ==> -0x8000 <= c.first + i - w.base < 0x8000
  }

  /** A burst of one datagram: dropped unless admitted. `c.first + i` numbers the very first arrival. */
  ghost predicate Delivers(c: Config, s: State, b: Bytes, from: Guard.Addr, now: nat, i: nat, s': State)
    requires c.setup.cap > 0
  {
    && Timely(c, s, b, i)
    && var burst := Guard.Burst(from, now, Rtp.ParseRtp(Rtp.Received(b)).Ok?, now);
       s' == s.(media := Guard.OnBurst(s.media, burst, c.pinned),
                heard := s.heard + if Admits(c, s, from, now) then Arrival(c, s, b, now, c.first + i) else [])
  }

  // ---- runs ----

  /** One step. A packet is delivered only if it is on the wire. */
  ghost predicate Step(c: Config, s: State, e: Event, s': State)
    requires c.setup.cap > 0
  {
    match e
    case Send(payload, timestamp) =>
      var sent' := s.sent + [Sent(payload, timestamp)];
      s' == s.(sent := sent', wire := s.wire + {PacketBytes(c, sent', |s.sent|)})
    case Feedback(datagram, from, at) =>
      s' == s.(peer := Guard.OnDatagram(s.peer, Guard.Datagram(from, at, Decodes(datagram))),
               wire := s.wire + if Serves(s, datagram, from, at) then Resent(c, s.sent, datagram) else {})
    case Deliver(b, from, now) =>
      exists i: nat :: Delivers(c, s, b, from, now, i, s')
    case Drain(now) => s' == s.(heard := s.heard + [Receiver.Release(now)])
    case Poll(now, rtt) => s' == s.(heard := s.heard + [Receiver.Poll(now, rtt)])
    case Tune(delay) => s' == s.(heard := s.heard + [Receiver.SetDelay(delay)])
  }

  /** A run of the whole system. */
  ghost predicate IsRun(c: Config, ss: seq<State>, es: seq<Event>)
    requires c.setup.cap > 0
  {
    |ss| == |es| + 1 && ss[0] == Start(c) && forall k :: 0 <= k < |es| ==> StepsAt(c, ss, es, k)
  }

  ghost predicate StepsAt(c: Config, ss: seq<State>, es: seq<Event>, k: nat)
    requires c.setup.cap > 0 && k < |es| < |ss|
  {
    Step(c, ss[k], es[k], ss[k + 1])
  }

  // ---- invariants ----

  /** Everything on the wire is a packet that was sent, possibly flagged. */
  ghost predicate WireIsSent(c: Config, s: State) {
    forall b :: b in s.wire ==> exists i :: IsPacket(c, s.sent, b, i)
  }

  /** An arrival carries the number of a sent packet and as much of its payload as the buffer holds. */
  ghost predicate IsTrue(c: Config, sent: seq<Sent>, e: Receiver.Event) {
    e.Arrive? ==> c.first <= e.n < c.first + |sent| && e.data == Rtp.Seen(sent[e.n - c.first].payload)
  }

  ghost predicate HeardIsSent(c: Config, s: State) {
    forall e :: e in s.heard ==> IsTrue(c, s.sent, e)
  }

  lemma PacketKept(c: Config, sent: seq<Sent>, x: Sent, b: Bytes, i: nat)
    requires IsPacket(c, sent, b, i)
    ensures IsPacket(c, sent + [x], b, i)
  {
    assert (sent + [x])[i] == sent[i];
  }

  lemma SendKeeps(c: Config, s: State, payload: Bytes, timestamp: U32, s': State)
    requires c.setup.cap > 0 && WireIsSent(c, s) && HeardIsSent(c, s) && Step(c, s, Send(payload, timestamp), s')
    ensures WireIsSent(c, s') && HeardIsSent(c, s')
  {
    var x := Sent(payload, timestamp);
    forall b | b in s'.wire
      ensures exists i :: IsPacket(c, s'.sent, b, i)
    {
      if b in s.wire {
        var i :| IsPacket(c, s.sent, b, i);
        PacketKept(c, s.sent, x, b, i);
      } else {
        assert IsPacket(c, s'.sent, b, |s.sent|);
      }
    }
  }

  lemma FlaggedIsSent(c: Config, sent: seq<Sent>, ws: seq<U16>, b: Bytes)
    requires b in FlaggedOf(Log(c, sent), ws, c.ringBits)
    ensures exists i :: IsPacket(c, sent, b, i)
  {
    var log, bits := Log(c, sent), c.ringBits;
    var w :| Retransmit.Lookup(log, w, bits).Some? && b == Rtp.Flagged(Retransmit.Lookup(log, w, bits).value);
    var n := Retransmit.FoundIsRecent(c.first, Packets(c, sent), w, bits);
    assert IsPacket(c, sent, b, n - c.first);
  }

  /** Whatever a datagram asks for, what is resent are flagged versions of packets that were sent. */
  lemma FeedbackKeeps(c: Config, s: State, datagram: Bytes)
    requires WireIsSent(c, s)
    ensures WireIsSent(c, s.(wire := s.wire + Resent(c, s.sent, datagram)))
  {
    var ws := Selected(c, Log(c, s.sent), datagram);
    forall b | b in FlaggedOf(Log(c, s.sent), ws, c.ringBits)
      ensures exists i :: IsPacket(c, s.sent, b, i)
    {
      FlaggedIsSent(c, s.sent, ws, b);
    }
  }

  /** A timely packet reaches the receiver under the number the sender gave it, cut to the buffer. */
  lemma ArrivalIsTrue(c: Config, s: State, b: Bytes, now: nat, i: nat)
    requires Sane(c) && Timely(c, s, b, i)
    ensures Rtp.ParseRtp(Rtp.Received(b)).Ok?
    ensures Arrival(c, s, b, now, c.first + i)
            == [Receiver.Arrive(c.first + i, Rtp.Seen(s.sent[i].payload), now)]
  {
    var n, x := c.first + i, s.sent[i];
    Rtp.ReceivedReadsBack(c.ssrc, Wrap(n), x.timestamp, x.payload);
    var w := Window(c, s);
    if w.Window? {
      UnwrapIsNearest(w.base, Wrap(n), n);
    }
  }

  lemma DeliverKeeps(c: Config, s: State, b: Bytes, from: Guard.Addr, now: nat, s': State)
    requires Sane(c) && WireIsSent(c, s) && HeardIsSent(c, s) && Step(c, s, Deliver(b, from, now), s')
    ensures WireIsSent(c, s') && HeardIsSent(c, s')
  {
    var i: nat :| Delivers(c, s, b, from, now, i, s');
    DeliveryKeeps(c, s, b, from, now, i, s');
  }

  lemma DeliveryKeeps(c: Config, s: State, b: Bytes, from: Guard.Addr, now: nat, i: nat, s': State)
    requires Sane(c) && WireIsSent(c, s) && HeardIsSent(c, s) && Delivers(c, s, b, from, now, i, s')
    ensures WireIsSent(c, s') && HeardIsSent(c, s')
  {
    ArrivalIsTrue(c, s, b, now, i);
    assert s.heard + [] == s.heard;
    HeardOneMore(c, s, s', Receiver.Arrive(c.first + i, Rtp.Seen(s.sent[i].payload), now));
  }

  lemma HeardOneMore(c: Config, s: State, s': State, e: Receiver.Event)
    requires WireIsSent(c, s) && HeardIsSent(c, s) && s'.sent == s.sent && s'.wire == s.wire
    requires (s'.heard == s.heard || s'.heard == s.heard + [e]) && IsTrue(c, s.sent, e)
    ensures WireIsSent(c, s') && HeardIsSent(c, s')
  {
  }

  lemma StepKeeps(c: Config, s: State, e: Event, s': State)
    requires Sane(c) && WireIsSent(c, s) && HeardIsSent(c, s) && Step(c, s, e, s')
    ensures WireIsSent(c, s') && HeardIsSent(c, s')
  {
    match e
    case Send(payload, timestamp) => SendKeeps(c, s, payload, timestamp, s');
    case Feedback(datagram, _, _) => FeedbackKeeps(c, s, datagram);
    case Deliver(b, from, now) => DeliverKeeps(c, s, b, from, now, s');
    case Drain(now) => HeardOneMore(c, s, s', Receiver.Release(now));
    case Poll(now, rtt) => HeardOneMore(c, s, s', Receiver.Poll(now, rtt));
    case Tune(delay) => HeardOneMore(c, s, s', Receiver.SetDelay(delay));
  }

  lemma {:induction false} RunKeeps(c: Config, ss: seq<State>, es: seq<Event>, k: nat)
    requires Sane(c) && IsRun(c, ss, es) && k <= |es|
    ensures WireIsSent(c, ss[k]) && HeardIsSent(c, ss[k])
  {
    if k > 0 {
      RunKeeps(c, ss, es, k - 1);
      assert StepsAt(c, ss, es, k - 1);
      StepKeeps(c, ss[k - 1], es[k - 1], ss[k]);
    }
  }

  // ---- the output ----

  /** What the delivery thread has handed over so far. */
  ghost function Output(c: Config, s: State): seq<M.Item>
    requires c.setup.cap > 0
  {
    M.RunOf(Arrivals(s), c.setup.cap, c.setup.hold).out
  }

  /** A delivered payload is the one sent under its number, or its first 2036 bytes if it is longer. */
  ghost predicate IsSentAs(c: Config, x: M.Item, sent: seq<Sent>) {
    x.Delivered? ==>
      && c.first <= x.n < c.first + |sent|
      && var payload := sent[x.n - c.first].payload;
         x.data == Rtp.Seen(payload) && (x.data == payload <==> |payload| <= Rtp.MAX_PAYLOAD)
  }

  ghost predicate PayloadsAreSent(c: Config, out: seq<M.Item>, sent: seq<Sent>) {
    forall i :: 0 <= i < |out| ==> IsSentAs(c, out[i], sent)
  }

  /** An arrival the reorder buffer saw was heard. */
  lemma {:induction false} ReorderedWasHeard(heard: seq<Receiver.Event>, n: int, data: Bytes, now: nat)
    requires M.Arrive(n, data, now) in Receiver.Reorders(heard)
    ensures Receiver.Arrive(n, data, now) in heard
    decreases |heard|
  {
    var k := |heard| - 1;
    assert heard[k] in heard;
    if M.Arrive(n, data, now) in Receiver.Reorders(heard[..k]) {
      ReorderedWasHeard(heard[..k], n, data, now);
      assert forall e :: e in heard[..k] ==> e in heard;
    }
  }

  lemma OutputIsSent(c: Config, s: State, out: seq<M.Item>)
    requires HeardIsSent(c, s) && M.FromArrivals(out, Arrivals(s))
    ensures PayloadsAreSent(c, out, s.sent)
  {
    forall i | 0 <= i < |out|
      ensures IsSentAs(c, out[i], s.sent)
    {
      if out[i].Delivered? {
        ReorderedWasHeard(s.heard, out[i].n, out[i].data, out[i].arrival);
        assert IsTrue(c, s.sent, Receiver.Arrive(out[i].n, out[i].data, out[i].arrival));
        Rtp.SeenWholeIff(s.sent[out[i].n - c.first].payload);
      }
    }
  }

  /**
   End to end: in every run, at every point, the delivered payloads are a subsequence of the sent
   ones. Their numbers strictly increase, so nothing is delivered twice or out of order, and each
   payload is the one sent under that number, retransmits included: byte for byte if it has at most
   2036 bytes, and cut to its first 2036 otherwise.
   */
  lemma DeliveredIsSubsequenceOfSent(c: Config, ss: seq<State>, es: seq<Event>, k: nat)
    requires Sane(c) && IsRun(c, ss, es) && k <= |es|
    ensures M.Increasing(Output(c, ss[k])) && PayloadsAreSent(c, Output(c, ss[k]), ss[k].sent)
  {
    RunKeeps(c, ss, es, k);
    M.InOrderFromArrivals(Arrivals(ss[k]), c.setup.cap, c.setup.hold);
    OutputIsSent(c, ss[k], Output(c, ss[k]));
  }
}
