/** One round of loss recovery: from the receiver's due list, over the wire, to the sender's answer. */
module NackRound {
  import opened Seq16
  import opened Sequences
  import opened Codec
  import opened NackEntries
  import opened Rtcp
  import Compound
  import Nack
  import NackModel
  import Retransmit
  import Service

  /** The sender reads RTCP into a buffer of this size; longer datagrams are cut off. */
  const RTCP_BUFFER := 2048

  /** The datagram the NACK pump builds: a receiver report and one bitmask NACK. */
  function NackDatagram(rr: Packet, own: U32, media: U32, due: seq<U16>): seq<Packet> {
    [rr, Nack(own, media, Bitmask(PackBitmask(due)))]
  }

  lemma {:induction false} PackFromLength(l: seq<U16>, s: nat)
    requires s <= |l|
    ensures |PackFrom(l, s)| <= |l| - s
    decreases |l| - s
  {
    if s < |l| {
      PackFromLength(l, RunEnd(l, s, s + 1));
    }
  }

  /** Read back from the wire, the datagram asks for exactly the due list, in order. */
  lemma DueListCrossesTheWire(rr: Packet, own: U32, media: U32, due: seq<U16>, ours: U32)
    requires rr.ReceiverReport? && WellFormed(rr) && Ascending(due) && |due| <= 4096
    requires Service.TargetsUs(media, ours)
    ensures var ps := NackDatagram(rr, own, media, due);
            && Compound.Parse(Compound.Serialize(ps)) == Ok(ps)
            && Service.AskedAll(ps, ours) == due
  {
    var ps := NackDatagram(rr, own, media, due);
    PackFromLength(due, 0);
    Compound.WriteThenRead(ps);
    PackIsExact(due);
    assert ps[1..][1..] == [];
    assert Service.AskedAll(ps[1..], ours) == due + [];
    assert Service.AskedAll(ps, ours) == [] + (due + []);
  }

  /**
   The NACK pump: from any reachable scheduler state, the datagram it emits asks the sender, once
   parsed and expanded, for exactly the due numbers; nothing is emitted if none is due.
   */
  method Pump(scheduler: Nack.NackScheduler, rr: Packet, own: U32, media: U32, now: nat, rtt: Option<nat>)
    returns (datagram: Option<Bytes>, ghost due: seq<U16>)
    requires scheduler.Valid() && rr.ReceiverReport? && WellFormed(rr)
    modifies scheduler.slots, scheduler`tracker, scheduler`activeCount
    ensures scheduler.Valid()
    ensures var delay := if rtt.Some? then rtt.value else scheduler.baseDelay;
            scheduler.tracker == NackModel.Poll(old(scheduler.tracker), now, delay, scheduler.maxRetries)
    ensures forall w :: w in due <==> NackModel.InDueList(old(scheduler.tracker), w, now, scheduler.maxRetries)
    ensures Ascending(due) && (datagram.None? <==> due == [])
    ensures datagram.Some? ==>
              && datagram.value == Compound.Serialize(NackDatagram(rr, own, media, due))
              && Asks(datagram.value, media, due)
  {
    var pending := scheduler.GetPendingNacks(now, rtt);
    due := pending;
    if pending == [] {
      return None, due;
    }
    var nacks := BuildBitmask(pending);
    var b := Compound.SerializeCompound([rr, Nack(own, media, Bitmask(nacks))]);
    forall ours: U32 | Service.TargetsUs(media, ours)
      ensures Compound.Parse(b).Ok? && Service.AskedAll(Compound.Parse(b).value, ours) == pending
    {
      DueListCrossesTheWire(rr, own, media, pending, ours);
    }
    datagram := Some(b);
  }

  /** Whoever owns `media` reads the datagram as a request for `l`, in that order. */
  ghost predicate Asks(b: Bytes, media: U32, l: seq<U16>) {
    forall ours: U32 :: Service.TargetsUs(media, ours) ==>
      Compound.Parse(b).Ok? && Service.AskedAll(Compound.Parse(b).value, ours) == l
  }

  lemma AscendingHasNoRepeats(l: seq<U16>)
    requires Ascending(l)
    ensures Service.NoRepeats(l)
  {
  }

  // ---- datagrams that do not fit the sender's buffer ----

  function CutOff(b: Bytes): Bytes {
    if |b| <= RTCP_BUFFER then b else b[..RTCP_BUFFER]
  }

  lemma SerializePair(p: Packet, q: Packet)
    ensures Compound.Serialize([p, q]) == PacketBytes(p) + PacketBytes(q)
  {
    Compound.SerializeCons(p, [q]);
    Compound.SerializeCons(q, []);
    assert [p] + [q] == [p, q] && [q] + [] == [q];
    assert Compound.Chunks([]) == [];
  }

  /** The size of the datagram for a due list, in bytes. */
  function DatagramLength(rr: Packet, due: seq<U16>): nat
    requires rr.ReceiverReport?
  {
    20 + 24 * |rr.reports| + 4 * |PackBitmask(due)|
  }

  lemma DatagramSize(rr: Packet, own: U32, media: U32, due: seq<U16>)
    requires rr.ReceiverReport? && WellFormed(rr) && |due| <= 4096
    ensures |Compound.Serialize(NackDatagram(rr, own, media, due))|
            == DatagramLength(rr, due)
  {
    var ps := NackDatagram(rr, own, media, due);
    SerializePair(ps[0], ps[1]);
  }

  /**
   A due list reaches the sender if and only if its datagram fits the buffer: of a longer one the
   NACK is lost whole, not in part, and the sender is asked for nothing.
   */
  lemma TruncatedNackIsLost(rr: Packet, own: U32, media: U32, due: seq<U16>, ours: U32)
    requires rr.ReceiverReport? && WellFormed(rr) && Ascending(due) && 0 < |due| <= 4096
    requires Service.TargetsUs(media, ours)
    ensures var seen := Compound.Parse(CutOff(Compound.Serialize(NackDatagram(rr, own, media, due))));
            && seen.Ok?
            && (Service.AskedAll(seen.value, ours) == due
                <==> DatagramLength(rr, due) <= RTCP_BUFFER)
            && (Service.AskedAll(seen.value, ours) == due || Service.AskedAll(seen.value, ours) == [])
  {
    var ps := NackDatagram(rr, own, media, due);
    var b := Compound.Serialize(ps);
    DatagramSize(rr, own, media, due);
    DueListCrossesTheWire(rr, own, media, due, ours);
    PackFromLength(due, 0);
    if |b| > RTCP_BUFFER {
      CutOffKeepsReport(rr, ps[1], b);
      assert Service.AskedAll([rr], ours) == [] + Service.AskedAll([], ours);
    }
  }

  /** Cut behind the report, the second sub-packet runs past the end and parsing stops. */
  lemma CutOffKeepsReport(rr: Packet, nack: Packet, b: Bytes)
    requires rr.ReceiverReport? && WellFormed(rr) && WellFormed(nack)
    requires b == Compound.Serialize([rr, nack]) && |b| > RTCP_BUFFER
    ensures Compound.Parse(CutOff(b)) == Ok([rr])
  {
    PacketReadsBack(rr);
    PacketReadsBack(nack);
    SerializePair(rr, nack);
    CutSecond(rr, nack, PacketBytes(rr), PacketBytes(nack), CutOff(b), 64, ParseBody);
  }

  /** Of two framed packets, a cut inside the second leaves the first. */
  lemma CutSecond<P>(p: P, q: P, s: Bytes, t: Bytes, c: Bytes, room: nat, f: BodyParser<P>)
    requires ReadsAs(p, s, f) && ReadsAs(q, t, f) && room >= 2
    requires |s| <= |c| < |s + t| && c == (s + t)[..|c|]
    ensures Compound.ParseAt(c, 0, room, f) == Ok([p])
  {
    assert c[0..|s|] == s;
    Compound.ParseThere(c, 0, p, s, room, f);
    SecondDoesNotFit(c, s, t, room - 1, f);
    assert [p] + [] == [p];
  }

  lemma SecondDoesNotFit<P>(c: Bytes, s: Bytes, t: Bytes, room: nat, f: BodyParser<P>)
    requires HeaderAt(t, 0).Ok? && HeaderAt(t, 0).value.Size() == |t|
    requires |s| <= |c| < |s + t| && c == (s + t)[..|c|]
    ensures Compound.ParseAt(c, |s|, room, f) == Ok([])
  {
    if |s| + 4 <= |c| {
      var o := |s|;
      assert c[o] == t[0] && c[o + 1] == t[1] && c[o + 2] == t[2] && c[o + 3] == t[3];
      assert HeaderAt(c, o) == HeaderAt(t, 0);
    }
  }

  /** The numbers the sender retransmits for a datagram read through its buffer. */
  ghost function AnswerTo(b: Bytes, ours: U32, log: seq<Retransmit.Entry>, bits: nat): seq<U16> {
    var r := Compound.Parse(CutOff(b));
    if r.Err? then []
    else Service.Serve(Service.AskedAll(r.value, ours), Service.ScanBudget(Pow2(bits)), Service.RetxBudget(Pow2(bits)),
                       Service.Holds(log, bits))
  }

  ghost function Answered(rr: Packet, own: U32, media: U32, due: seq<U16>, ours: U32, log: seq<Retransmit.Entry>,
                          bits: nat): seq<U16> {
    AnswerTo(Compound.Serialize(NackDatagram(rr, own, media, due)), ours, log, bits)
  }

  /**
   One round. If the datagram fits the sender's buffer, the budgets are spent on the due list in
   order, and a due list within the scan budget is answered with a copy of every packet on it that
   the sender still holds, once each, and of nothing else. If it does not fit, nothing is answered.
   */
  lemma DueListIsServed(rr: Packet, own: U32, media: U32, due: seq<U16>, ours: U32, log: seq<Retransmit.Entry>,
                        bits: nat)
    requires rr.ReceiverReport? && WellFormed(rr) && Ascending(due) && |due| <= 4096
    requires Service.TargetsUs(media, ours)
    ensures var scan, retx := Service.ScanBudget(Pow2(bits)), Service.RetxBudget(Pow2(bits));
            var held := Service.Holds(log, bits);
            var sent := Answered(rr, own, media, due, ours, log, bits);
            && (DatagramLength(rr, due) > RTCP_BUFFER ==> sent == [])
            && (DatagramLength(rr, due) <= RTCP_BUFFER ==> sent == Service.Serve(due, scan, retx, held))
            && (DatagramLength(rr, due) <= RTCP_BUFFER && |due| <= scan && Pow2(bits) <= Service.MAX_RETX ==>
                  sent == Filter(due, held))
  {
    DatagramSize(rr, own, media, due);
    DueListCrossesTheWire(rr, own, media, due, ours);
    if due != [] {
      TruncatedNackIsLost(rr, own, media, due, ours);
    }
    AscendingHasNoRepeats(due);
    if |due| <= Service.ScanBudget(Pow2(bits)) && Pow2(bits) <= Service.MAX_RETX {
      Service.ResidentsAllServed(due, log, bits);
    }
    NothingAsked(Service.ScanBudget(Pow2(bits)), Service.RetxBudget(Pow2(bits)), Service.Holds(log, bits));
  }

  /** A due number that the sender holds is among those it answers with. */
  lemma DueIsAnswered(rr: Packet, own: U32, media: U32, due: seq<U16>, ours: U32, log: seq<Retransmit.Entry>,
                      bits: nat, w: U16)
    requires rr.ReceiverReport? && WellFormed(rr) && Ascending(due) && |due| <= 4096 && Service.TargetsUs(media, ours)
    requires DatagramLength(rr, due) <= RTCP_BUFFER
    requires Pow2(bits) <= Service.MAX_RETX && |due| <= Service.ScanBudget(Pow2(bits))
    requires w in due && Retransmit.Lookup(log, w, bits).Some?
    ensures w in Answered(rr, own, media, due, ours, log, bits)
  {
    DueListIsServed(rr, own, media, due, ours, log, bits);
    FilterMembers(due, Service.Holds(log, bits));
    assert Service.Holds(log, bits)(w);
  }

  lemma NothingAsked(scan: nat, retx: nat, held: Service.Resident)
    ensures Service.Serve([], scan, retx, held) == []
  {
  }

  // ---- a due list that does not fit ----

  /** Every seventeenth number: no two share an entry. */
  function Scattered(k: nat): (l: seq<U16>)
    requires k <= 3855
    ensures |l| == k
  {
    seq(k, i requires 0 <= i < k => 17 * i)
  }

  lemma {:induction false} ScatteredPacksSingly(k: nat, s: nat)
    requires s <= k <= 3855
    ensures |PackFrom(Scattered(k), s)| == k - s
    decreases k - s
  {
    if s < k {
      var l := Scattered(k);
      assert s + 1 < k ==> !InMask(l[s], l[s + 1]);
      assert RunEnd(l, s, s + 1) == s + 1;
      ScatteredPacksSingly(k, s + 1);
    }
  }

  /**
   With one report block in front, up to 501 such numbers get through; 502 of them make a datagram of
   2052 bytes, and the sender retransmits nothing, even if it holds every one of them.
   */
  lemma ScatteredLossIsLost(rr: Packet, own: U32, media: U32, k: nat, ours: U32, log: seq<Retransmit.Entry>, bits: nat)
    requires rr.ReceiverReport? && |rr.reports| == 1 && WellFormed(rr) && Service.TargetsUs(media, ours)
    requires k <= 2048 && Pow2(bits) <= Service.MAX_RETX
    ensures Ascending(Scattered(k))
    ensures Answered(rr, own, media, Scattered(k), ours, log, bits)
            == if k <= 501 then Filter(Scattered(k), Service.Holds(log, bits)) else []
  {
    ScatteredPacksSingly(k, 0);
    DueListIsServed(rr, own, media, Scattered(k), ours, log, bits);
  }
}
