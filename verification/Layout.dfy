/** Which bytes of an RTCP packet hold which field, and which bodies are not recognised. */
module Layout {
  import opened Seq16
  import opened Codec
  import opened NackEntries
  import opened Rtcp

  lemma HalvesRead(b: Bytes, o: nat)
    requires o + 4 <= |b|
    ensures Half(b, o, Hi(Get32(b, o))) && Half(b, o + 2, Lo(Get32(b, o)))
  {
    HalvesOfWord(b, o);
  }

  lemma {:induction false} ReadAt(b: Bytes, o: nat, k: nat, i: nat)
    requires o + 4 * k <= |b| && i < k
    ensures Read(b, o, k)[i] == Get32(b, o + 4 * i)
    decreases k
  {
    if i > 0 {
      ReadAt(b, o + 4, k - 1, i - 1);
      assert o + 4 + 4 * (i - 1) == o + 4 * i;
    }
  }

  /** A report block in 24 bytes; the loss is a two's complement number of 24 bits. */
  predicate BlockLaid(r: ReportBlock, b: Bytes, o: nat) {
    && o + 24 <= |b|
    && Word(b, o, r.ssrc)
    && b[o + 4] == r.fractionLost
    && -0x80_0000 <= r.cumulativeLost < 0x80_0000
    && b[o + 5] as int * 65536 + b[o + 6] as int * 256 + b[o + 7] as int
       == (if r.cumulativeLost < 0 then r.cumulativeLost + 0x100_0000 else r.cumulativeLost)
    && Word(b, o + 8, r.highest) && Word(b, o + 12, r.jitter) && Word(b, o + 16, r.lastSr) && Word(b, o + 20, r.delay)
  }

  predicate SaysRist(b: Bytes) {
    |b| >= 8 && b[4] == 0x52 && b[5] == 0x49 && b[6] == 0x53 && b[7] == 0x54
  }

  predicate RangesLaid(es: seq<RangeNack>, b: Bytes) {
    forall i :: 0 <= i < |es| ==> Half(b, 8 + 4 * i, es[i].start) && Half(b, 10 + 4 * i, es[i].extra)
  }

  predicate BitmasksLaid(es: seq<BitmaskNack>, b: Bytes) {
    forall i :: 0 <= i < |es| ==> Half(b, 8 + 4 * i, es[i].pid) && Half(b, 10 + 4 * i, es[i].blp)
  }

  predicate BlocksLaid(bs: seq<ReportBlock>, b: Bytes) {
    forall i :: 0 <= i < |bs| ==> BlockLaid(bs[i], b, 4 + 24 * i)
  }

  predicate AppLaid(a: App, b: Bytes) {
    match a
    case RttRequest(ssrc, msw, lsw) => SaysRist(b) && Word(b, 0, ssrc) && Word(b, 8, msw) && Word(b, 12, lsw)
    case RttResponse(ssrc, msw, lsw, d) =>
      SaysRist(b) && Word(b, 0, ssrc) && Word(b, 8, msw) && Word(b, 12, lsw) && Word(b, 16, d)
    case RangeRequest(media, es) =>
      && SaysRist(b) && Word(b, 0, media)
      && |es| == (if |b| <= 8 + 4 * 512 then (|b| - 8) / 4 else 512)
      && RangesLaid(es, b)
    case OtherApp(subtype, data) => data == b && !(SaysRist(b) && (subtype == 0 || subtype == 2 || subtype == 3))
  }

  /** The body `b`, the bytes behind the header, holds the fields of `p`. */
  predicate Laid(p: Packet, b: Bytes) {
    match p
    case SenderReport(ssrc, msw, lsw, rtp, packets, octets) =>
      && Word(b, 0, ssrc) && Word(b, 4, msw) && Word(b, 8, lsw)
      && Word(b, 12, rtp) && Word(b, 16, packets) && Word(b, 20, octets)
    case ReceiverReport(ssrc, bs) => Word(b, 0, ssrc) && BlocksLaid(bs, b)
    case Sdes(ssrc, cname) =>
      && Word(b, 0, ssrc) && |b| >= 6 + |cname|
      && b[4] == 1 && b[5] == |cname| && b[6..6 + |cname|] == cname
    case Nack(sender, media, Bitmask(es)) =>
      Word(b, 0, sender) && Word(b, 4, media) && |es| == (|b| - 8) / 4 && BitmasksLaid(es, b)
    case Nack(sender, media, Range(es)) =>
      Word(b, 0, sender) && Word(b, 4, media) && |es| == (|b| - 8) / 4 && RangesLaid(es, b)
    case AppPacket(a) => AppLaid(a, b)
    case Unknown(_, data) => data == b
  }

  /** The packet type and the five-bit count field that go with `p`. */
  predicate Labelled(p: Packet, packetType: Byte, count: Byte) {
    match p
    case SenderReport(_, _, _, _, _, _) => packetType == 200
    case ReceiverReport(_, bs) => packetType == 201 && count == |bs|
    case Sdes(_, _) => packetType == 202
    case AppPacket(RangeRequest(_, _)) => packetType == 204 && count == 0
    case AppPacket(RttRequest(_, _, _)) => packetType == 204 && count == 2
    case AppPacket(RttResponse(_, _, _, _)) => packetType == 204 && count == 3
    case AppPacket(OtherApp(subtype, _)) => packetType == 204 && count == subtype
    case Nack(_, _, Bitmask(_)) => packetType == 205 && count == 1
    case Nack(_, _, Range(_)) => packetType == 205 && count == 15
    case Unknown(pt, _) => packetType == pt
  }

  /** The bodies that are recognised; an echo without its timestamps is not. */
  predicate Recognised(packetType: Byte, count: Byte, b: Bytes) {
    || (packetType == 200 && |b| >= 24)
    || (packetType == 201 && |b| >= 4 + 24 * count as int)
    || (packetType == 202 && |b| >= 6 && b[4] == 1 && |b| >= 6 + b[5] as int)
    || (packetType == 204 && |b| >= 8
        && (SaysRist(b) && count == 2 ==> |b| >= 16) && (SaysRist(b) && count == 3 ==> |b| >= 20))
    || (packetType == 205 && |b| >= 8 && (count == 1 || count == 15))
  }

  lemma RistInAscii(b: Bytes)
    requires |b| >= 8
    ensures SaysRist(b) <==> Get32(b, 4) == APP_NAME
  {
  }

  lemma BlockFields(b: Bytes, i: nat)
    requires 4 + 24 * (i + 1) <= |b|
    ensures BlockLaid(BlockAt(b, i), b, 4 + 24 * i)
  {
    var o := 4 + 24 * i;
    var ws := Read(b, o, 6);
    forall j | 0 <= j < 6
      ensures Word(b, o + 4 * j, ws[j])
    {
      ReadAt(b, o, 6, j);
    }
    LossFields(b, o, ws[1]);
    assert Word(b, o + 4 * 0, ws[0]) && Word(b, o + 4 * 2, ws[2]) && Word(b, o + 4 * 3, ws[3]);
    assert Word(b, o + 4 * 4, ws[4]) && Word(b, o + 4 * 5, ws[5]);
  }

  lemma LossFields(b: Bytes, o: nat, w: U32)
    requires Word(b, o + 4, w)
    ensures b[o + 4] == w / 0x100_0000
    ensures b[o + 5] as int * 65536 + b[o + 6] as int * 256 + b[o + 7] as int == w % 0x100_0000
  {
  }

  lemma {:induction false} BlocksFields(b: Bytes, k: nat)
    requires 4 * (1 + 6 * k) <= |b|
    ensures BlocksLaid(BlocksAt(b, k), b)
    decreases k
  {
    if k > 0 {
      BlocksFields(b, k - 1);
      BlockFields(b, k - 1);
    }
  }

  lemma EntryFields(b: Bytes, k: nat)
    requires 8 + 4 * k <= |b|
    ensures RangesLaid(ToRanges(Read(b, 8, k)), b) && BitmasksLaid(ToBitmasks(Read(b, 8, k)), b)
  {
    forall i | 0 <= i < k
      ensures Half(b, 8 + 4 * i, Hi(Read(b, 8, k)[i])) && Half(b, 10 + 4 * i, Lo(Read(b, 8, k)[i]))
    {
      ReadAt(b, 8, k, i);
      HalvesRead(b, 8 + 4 * i);
    }
  }

  lemma SrFields(b: Bytes)
    requires |b| >= 24
    ensures Laid(ParseSr(b).value, b)
  {
    forall j | 0 <= j < 6
      ensures Word(b, 0 + 4 * j, Read(b, 0, 6)[j])
    {
      ReadAt(b, 0, 6, j);
    }
    assert Word(b, 4 * 0, Read(b, 0, 6)[0]) && Word(b, 4 * 1, Read(b, 0, 6)[1]) && Word(b, 4 * 2, Read(b, 0, 6)[2]);
    assert Word(b, 4 * 3, Read(b, 0, 6)[3]) && Word(b, 4 * 4, Read(b, 0, 6)[4]) && Word(b, 4 * 5, Read(b, 0, 6)[5]);
  }

  /** Every body is either recognised, and its fields are read from their places, or kept unread. */
  lemma FieldsAreRead(packetType: Byte, count: Byte, b: Bytes)
    ensures var p := ParseBody(packetType, count, b);
            && (p.Unknown? <==> !Recognised(packetType, count, b))
            && Labelled(p, packetType, count) && Laid(p, b)
  {
    if packetType == 200 && |b| >= 24 {
      SrFields(b);
    } else if packetType == 201 && |b| >= 4 * (1 + 6 * count as int) {
      BlocksFields(b, count);
    } else if |b| >= 8 {
      RistInAscii(b);
      EntryFields(b, (|b| - 8) / 4);
      EntryFields(b, Min((|b| - 8) / 4, MAX_RANGE_NACK_ENTRIES));
    }
  }

  /** The size of a packet on the wire. */
  function SizeOf(p: Packet): int
    requires WellFormed(p)
  {
    match p
    case SenderReport(_, _, _, _, _, _) => 28
    case ReceiverReport(_, bs) => 8 + 24 * |bs|
    case Sdes(_, cname) => 12 + (|cname| + 2) / 4 * 4
    case Nack(_, _, Bitmask(es)) => 12 + 4 * |es|
    case Nack(_, _, Range(es)) => 12 + 4 * |es|
    case AppPacket(RangeRequest(_, es)) => 12 + 4 * |es|
    case AppPacket(RttRequest(_, _, _)) => 20
    case AppPacket(RttResponse(_, _, _, _)) => 24
    case AppPacket(OtherApp(_, data)) => 4 + |data|
  }

  lemma FirstOfWords(count: Byte, packetType: Byte, ws: seq<U32>)
    requires count < 0x20
    ensures WordPacket(count, packetType, ws)[0] == 0x80 + count && |WordPacket(count, packetType, ws)| == 4 + 4 * |ws|
  {
  }

  lemma FirstOfApp(a: App)
    requires WellFormedApp(a)
    ensures |AppBytes(a)| == SizeOf(AppPacket(a)) && 0x80 <= AppBytes(a)[0] < 0xA0
  {
    match a
    case RttRequest(ssrc, msw, lsw) => FirstOfWords(2, 204, [ssrc, APP_NAME, msw, lsw]);
    case RttResponse(ssrc, msw, lsw, d) => FirstOfWords(3, 204, [ssrc, APP_NAME, msw, lsw, d]);
    case RangeRequest(media, es) => FirstOfWords(0, 204, [media, APP_NAME] + RangeWords(es));
    case OtherApp(_, _) =>
  }

  lemma FirstByte(p: Packet)
    requires WellFormed(p)
    ensures |PacketBytes(p)| == SizeOf(p) && 0x80 <= PacketBytes(p)[0] < 0xA0
    ensures (p.SenderReport? ==> PacketBytes(p)[0] == 0x80) && (p.Sdes? ==> PacketBytes(p)[0] == 0x81)
  {
    match p
    case SenderReport(a, b, c, d, e, f) => FirstOfWords(0, 200, [a, b, c, d, e, f]);
    case ReceiverReport(ssrc, bs) => {
      RrIsWordPacket(|bs|, [ssrc] + BlocksWords(bs));
      FirstOfWords(|bs|, 201, [ssrc] + BlocksWords(bs));
    }
    case Sdes(ssrc, cname) => SdesSize(ssrc, cname);
    case Nack(sender, media, Bitmask(es)) => FirstOfWords(1, 205, [sender, media] + BitmaskWords(es));
    case Nack(sender, media, Range(es)) => FirstOfWords(15, 205, [sender, media] + RangeWords(es));
    case AppPacket(a) => FirstOfApp(a);
  }

  lemma SdesSize(ssrc: U32, cname: Bytes)
    ensures |SdesBytes(ssrc, cname)| == 12 + (|cname| + 2) / 4 * 4 && SdesBytes(ssrc, cname)[0] == 0x81
  {
    PaddedTo(|cname|, SdesPadding(|cname|));
  }

  lemma PaddedTo(n: nat, pad: nat)
    requires 1 <= pad <= 4 && (6 + n + pad) % 4 == 0
    ensures 10 + n + pad == 12 + (n + 2) / 4 * 4
  {
  }

  /** Behind the name come zeros only, at least one. */
  lemma SdesEndsInZeros(ssrc: U32, cname: Bytes)
    ensures var b := PacketBytes(Sdes(ssrc, cname));
            |b| > 10 + |cname| && forall i :: 10 + |cname| <= i < |b| ==> b[i] == 0
  {
    var b := PacketBytes(Sdes(ssrc, cname));
    var k := |b| - SdesPadding(|cname|);
    assert b[k..] == Zeros(SdesPadding(|cname|));
    assert forall i :: k <= i < |b| ==> b[i] == b[k..][i - k];
  }

  /** `b` is a whole packet of version 2 without padding that holds the fields of `p`. */
  ghost predicate Framed(p: Packet, b: Bytes) {
    && |b| >= 4 && |b| % 4 == 0 && 0x80 <= b[0] < 0xA0
    && Half(b, 2, |b| / 4 - 1) && Labelled(p, b[1], b[0] - 0x80) && Laid(p, b[4..])
  }

  lemma FrameFields(p: Packet, b: Bytes)
    requires ReadsBack(p, b) && 0x80 <= b[0] < 0xA0
    ensures Framed(p, b)
  {
    FieldsAreRead(b[1], b[0] - 0x80, b[4..]);
  }

  /**
   Every well-formed packet is written with version 2, no padding flag, its type, its length in words less one,
   and its fields in their places.
   */
  lemma FieldsAreWritten(p: Packet)
    requires WellFormed(p)
    ensures |PacketBytes(p)| == SizeOf(p) && Framed(p, PacketBytes(p))
    ensures (p.SenderReport? ==> PacketBytes(p)[0] == 0x80) && (p.Sdes? ==> PacketBytes(p)[0] == 0x81)
  {
    PacketReadsBack(p);
    FirstByte(p);
    FrameFields(p, PacketBytes(p));
  }
}
