/** RTP data packets (section 5.1 of RFC 3550) as the sender writes them and the receiver reads them. */
module Rtp {
  import opened Seq16
  import opened Sequences
  import opened Codec

  /** What the receiver keeps of a packet. */
  datatype Media = Media(wire: U16, ssrc: U32, timestamp: U32, payload: Bytes)

  function IsRetransmit(ssrc: U32): bool { ssrc % 2 == 1 }

  function LogicalSsrc(ssrc: U32): U32 { ssrc / 2 * 2 }

  /** `write_rtp_header`: version 2, no CSRC, payload type 33. */
  function RtpHeader(ssrc: U32, wire: U16, timestamp: U32): (b: Bytes)
    ensures |b| == 12
  {
    [0x80, 33] + Be16(wire) + Be32(timestamp) + Be32(ssrc)
  }

  function RtpBytes(ssrc: U32, wire: U16, timestamp: U32, payload: Bytes): Bytes {
    RtpHeader(ssrc, wire, timestamp) + payload
  }

  /** The retransmit copy: the low bit of byte 11, the last SSRC byte, is set. */
  function Flagged(pkt: Bytes): (b: Bytes)
    ensures |b| == |pkt|
  {
    if |pkt| > 11 then pkt[11 := if pkt[11] % 2 == 0 then pkt[11] + 1 else pkt[11]] else pkt
  }

  /** `parse_rtp`: the fixed header and the CSRC list are skipped, everything behind is payload. */
  function ParseRtp(b: Bytes): Result<Media> {
    if |b| < 12 || b[0] < 0x80 || b[0] >= 0xC0 || |b| < 12 + 4 * (b[0] % 0x10) as int then Err
    else Ok(Media(Get16(b, 2), Get32(b, 8), Get32(b, 4), b[12 + 4 * (b[0] % 0x10) as int..]))
  }

  /**
   A packet is refused if and only if it has fewer than 12 bytes, another version than 2, or no room for
   the CSRCs its first byte announces. Otherwise number, timestamp and SSRC are bytes 2-3, 4-7 and 8-11, and the
   payload is everything behind the CSRC list, whatever the marker, the payload type and the flags.
   */
  lemma ParseRtpIs(b: Bytes)
    ensures ParseRtp(b).Err? <==> |b| < 12 || b[0] / 64 != 2 || |b| < 12 + 4 * (b[0] as int % 16)
    ensures ParseRtp(b).Ok? ==>
              var m := ParseRtp(b).value;
              && Half(b, 2, m.wire) && Word(b, 4, m.timestamp) && Word(b, 8, m.ssrc)
              && |m.payload| == |b| - 12 - 4 * (b[0] as int % 16)
              && forall i :: 0 <= i < |m.payload| ==> m.payload[i] == b[12 + 4 * (b[0] as int % 16) + i]
  {
    if |b| >= 12 {
      HeaderBits(b[0]);
      WordRead(b, 4);
      WordRead(b, 8);
    }
  }

  lemma HeaderFields(ssrc: U32, wire: U16, timestamp: U32, payload: Bytes)
    ensures var b := RtpBytes(ssrc, wire, timestamp, payload);
            && b[0] == 0x80 && b[1] == 33 && Get16(b, 2) == wire && Get32(b, 4) == timestamp && Get32(b, 8) == ssrc
            && b[12..] == payload
  {
    var b := RtpBytes(ssrc, wire, timestamp, payload);
    Get32OfBe32(timestamp, []);
    Get32OfBe32(ssrc, []);
    var t, s := Be32(timestamp), Be32(ssrc);
    assert t + [] == t && s + [] == s;
    assert b[2] == wire / 0x100 && b[3] == wire % 0x100;
    assert b[4] == t[0] && b[5] == t[1] && b[6] == t[2] && b[7] == t[3];
    assert b[8] == s[0] && b[9] == s[1] && b[10] == s[2] && b[11] == s[3];
  }

  /** A sent packet reads back with its number, SSRC and payload. */
  lemma SentReadsBack(ssrc: U32, wire: U16, timestamp: U32, payload: Bytes)
    ensures ParseRtp(RtpBytes(ssrc, wire, timestamp, payload)) == Ok(Media(wire, ssrc, timestamp, payload))
  {
    HeaderFields(ssrc, wire, timestamp, payload);
  }

  lemma Be32OfOdd(ssrc: U32)
    requires ssrc % 2 == 0
    ensures Be32(ssrc + 1) == Be32(ssrc)[3 := Be32(ssrc)[3] + 1]
  {
    var m := ssrc / 0x100;
    assert ssrc % 0x100 % 2 == 0 && ssrc % 0x100 + 1 < 0x100;
    assert (ssrc + 1) / 0x100 == m && (ssrc + 1) % 0x100 == ssrc % 0x100 + 1;
  }

  /** Flagging a packet of an even SSRC is writing it with the next odd one. */
  lemma FlagIsOddSsrc(ssrc: U32, wire: U16, timestamp: U32, payload: Bytes)
    requires ssrc % 2 == 0
    ensures Flagged(RtpBytes(ssrc, wire, timestamp, payload)) == RtpBytes(ssrc + 1, wire, timestamp, payload)
  {
    var b, c := RtpBytes(ssrc, wire, timestamp, payload), RtpBytes(ssrc + 1, wire, timestamp, payload);
    Be32OfOdd(ssrc);
    assert b[11] == Be32(ssrc)[3] == ssrc % 0x100;
    assert ssrc % 0x100 % 2 == 0;
    assert forall i :: 0 <= i < 8 ==> b[i] == c[i];
    assert forall i :: 8 <= i < 12 ==> b[i] == Be32(ssrc)[i - 8] && c[i] == Be32(ssrc + 1)[i - 8];
    assert forall i :: 12 <= i < |b| ==> b[i] == payload[i - 12] && c[i] == payload[i - 12];
  }

  /** A retransmit carries the same number and payload; only the flag in the SSRC tells it apart. */
  lemma RetransmitReadsBack(ssrc: U32, wire: U16, timestamp: U32, payload: Bytes)
    requires ssrc % 2 == 0
    ensures var r := ParseRtp(Flagged(RtpBytes(ssrc, wire, timestamp, payload)));
            && r == Ok(Media(wire, ssrc + 1, timestamp, payload))
            && IsRetransmit(r.value.ssrc) && LogicalSsrc(r.value.ssrc) == ssrc
  {
    FlagIsOddSsrc(ssrc, wire, timestamp, payload);
    SentReadsBack(ssrc + 1, wire, timestamp, payload);
  }

  // ---- the receiver's buffer ----

  /** The receiver reads each datagram into a buffer of this size; the rest of a longer one is lost. */
  const MAX_UDP_RECV := 2048

  /** What is left of the buffer for the payload. */
  const MAX_PAYLOAD := 2036

  function Received(b: Bytes): Bytes { Take(b, MAX_UDP_RECV) }

  function Seen(payload: Bytes): Bytes { Take(payload, MAX_PAYLOAD) }

  /** A payload is seen whole if and only if it has at most 2036 bytes. */
  lemma SeenWholeIff(payload: Bytes)
    ensures Seen(payload) == payload <==> |payload| <= 2036
  {
  }

  /** Cutting a packet to the buffer cuts its payload. */
  lemma ReceivedIsCut(ssrc: U32, wire: U16, timestamp: U32, payload: Bytes)
    ensures Received(RtpBytes(ssrc, wire, timestamp, payload)) == RtpBytes(ssrc, wire, timestamp, Seen(payload))
  {
    var h := RtpHeader(ssrc, wire, timestamp);
    if |payload| > MAX_PAYLOAD {
      assert (h + payload)[..MAX_UDP_RECV] == h + payload[..MAX_PAYLOAD];
    }
  }

  /** Through the buffer an original and its copy read back with the same number and the payload's first 2036 bytes. */
  lemma ReceivedReadsBack(ssrc: U32, wire: U16, timestamp: U32, payload: Bytes)
    requires ssrc % 2 == 0
    ensures var b := RtpBytes(ssrc, wire, timestamp, payload);
            && ParseRtp(Received(b)) == Ok(Media(wire, ssrc, timestamp, Seen(payload)))
            && ParseRtp(Received(Flagged(b))) == Ok(Media(wire, ssrc + 1, timestamp, Seen(payload)))
  {
    FlagIsOddSsrc(ssrc, wire, timestamp, payload);
    ReceivedIsCut(ssrc, wire, timestamp, payload);
    ReceivedIsCut(ssrc + 1, wire, timestamp, payload);
    SentReadsBack(ssrc, wire, timestamp, Seen(payload));
    SentReadsBack(ssrc + 1, wire, timestamp, Seen(payload));
  }
}
