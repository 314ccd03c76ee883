/**
 Compound datagrams that ask for lost packets in any mix of the three encodings the sender
 understands: what they ask for after crossing the wire, and what comes back.
 */
module Requests {
  import opened Seq16
  import opened Sequences
  import opened Codec
  import opened NackEntries
  import opened Rtcp
  import Compound
  import NackRound
  import Retransmit
  import Service

  /** Generic NACK, TR-06-1 range NACK, and the RIST range request in an APP packet. */
  datatype Encoding = Generic | RangeNacks | AppRange

  /** One sub-packet: a request for `numbers` sent to the owner of `media`, or anything else. */
  datatype Part =
    | Request(encoding: Encoding, own: U32, media: U32, numbers: seq<U16>)
    | Other(packet: Packet)

  /**
   Bitmask entries keep the order of ascending lists only. A range request of more than 512 entries is
   cut when read. What is not a request is some other well-formed packet.
   */
  ghost predicate Sendable(part: Part) {
    match part
    case Request(encoding, _, _, l) =>
      && |l| <= 0xFFFD
      && (encoding.Generic? ==> Ascending(l))
      && (encoding.AppRange? ==> |PackRange(l)| <= 512)
    case Other(p) => WellFormed(p) && !p.Nack? && !(p.AppPacket? && p.app.RangeRequest?)
  }

  ghost function PacketOf(part: Part): Packet
    requires Sendable(part)
  {
    match part
    case Request(Generic, own, media, l) => Nack(own, media, Bitmask(PackBitmask(l)))
    case Request(RangeNacks, own, media, l) => Nack(own, media, Range(PackRange(l)))
    case Request(AppRange, _, media, l) => AppPacket(RangeRequest(media, PackRange(l)))
    case Other(p) => p
  }

  ghost function PacketsOf(parts: seq<Part>): (ps: seq<Packet>)
    requires forall i :: 0 <= i < |parts| ==> Sendable(parts[i])
    ensures |ps| == |parts|
    ensures forall i :: 0 <= i < |ps| ==> ps[i] == PacketOf(parts[i])
  {
    seq(|parts|, i requires 0 <= i < |parts| => PacketOf(parts[i]))
  }

  /** The numbers of the requests that name no SSRC, ours, or ours with the retransmit flag. */
  ghost function Wanted(parts: seq<Part>, ours: U32): seq<U16> {
    if parts == [] then []
    else (if parts[0].Request? && parts[0].media in {0, ours - ours % 2, ours - ours % 2 + 1}
          then parts[0].numbers else [])
         + Wanted(parts[1..], ours)
  }

  lemma {:induction false} PackRangeLength(l: seq<U16>, s: nat)
    requires s <= |l| <= 0x1_0000
    ensures |PackRangeFrom(l, s)| <= |l| - s
    decreases |l| - s
  {
    if s < |l| {
      PackRangeLength(l, ConsecutiveEnd(l, s, s + 1));
    }
  }

  lemma PartIsWellFormed(part: Part)
    requires Sendable(part)
    ensures WellFormed(PacketOf(part))
  {
    if part.Request? {
      NackRound.PackFromLength(part.numbers, 0);
      PackRangeLength(part.numbers, 0);
    }
  }

  /** In each encoding a sub-packet asks for exactly its numbers, in order, and only of the sender it names. */
  lemma PartAsks(part: Part, ours: U32)
    requires Sendable(part)
    ensures Service.Asked(PacketOf(part), ours)
            == if part.Request? && part.media in {0, ours - ours % 2, ours - ours % 2 + 1} then part.numbers else []
  {
    if part.Request? {
      Service.TargetsIff(part.media, ours);
      RangePackIsExact(part.numbers);
      if part.encoding.Generic? {
        PackIsExact(part.numbers);
      }
    }
  }

  lemma {:induction false} PartsAsk(parts: seq<Part>, ours: U32)
    requires forall i :: 0 <= i < |parts| ==> Sendable(parts[i])
    ensures Service.AskedAll(PacketsOf(parts), ours) == Wanted(parts, ours)
    decreases |parts|
  {
    if parts != [] {
      PartAsks(parts[0], ours);
      PartsAsk(parts[1..], ours);
      assert PacketsOf(parts)[1..] == PacketsOf(parts[1..]);
    }
  }

  /**
   Up to 64 sub-packets, written and parsed, ask for the numbers of those addressed to us, one request
   after the other, whatever the mix of encodings.
   */
  lemma RequestsCrossTheWire(parts: seq<Part>, ours: U32)
    requires |parts| <= 64 && forall i :: 0 <= i < |parts| ==> Sendable(parts[i])
    ensures Compound.Parse(Compound.Serialize(PacketsOf(parts))) == Ok(PacketsOf(parts))
    ensures Service.AskedAll(PacketsOf(parts), ours) == Wanted(parts, ours)
  {
    forall i | 0 <= i < |parts|
      ensures WellFormed(PacketsOf(parts)[i])
    {
      PartIsWellFormed(parts[i]);
    }
    Compound.WriteThenRead(PacketsOf(parts));
    PartsAsk(parts, ours);
  }

  /** The RTCP arm on the bytes of a datagram: one that does not parse is answered with nothing. */
  method AnswerDatagram(b: Bytes, ring: Retransmit.RetransmitBuffer, ours: U32) returns (copies: seq<Bytes>)
    requires ring.Valid()
    ensures Service.Answers(copies, NackRound.AnswerTo(b, ours, ring.log, ring.bits), ring.log, ring.bits)
  {
    var r := Compound.ParseCompound(NackRound.CutOff(b), ParseBody);
    if r.Err? {
      return [];
    }
    copies := Service.ServeDatagram(r.value, ring, ours);
  }

  /**
   A datagram that fits the buffer of 2048 bytes and asks for no number twice gets a copy of every packet it asks for
   that the sender still holds, once each and in the order asked, and of nothing else.
   */
  lemma RequestsAreServed(parts: seq<Part>, ours: U32, log: seq<Retransmit.Entry>, bits: nat)
    requires |parts| <= 64 && forall i :: 0 <= i < |parts| ==> Sendable(parts[i])
    requires |Compound.Serialize(PacketsOf(parts))| <= 2048
    requires Service.NoRepeats(Wanted(parts, ours)) && |Wanted(parts, ours)| <= Service.ScanBudget(Pow2(bits))
    requires Pow2(bits) <= 8192
    ensures NackRound.AnswerTo(Compound.Serialize(PacketsOf(parts)), ours, log, bits)
            == Filter(Wanted(parts, ours), Service.Holds(log, bits))
  {
    RequestsCrossTheWire(parts, ours);
    Service.ResidentsAllServed(Wanted(parts, ours), log, bits);
  }
}
