/**
 RTCP packets (sections 6.4.1, 6.4.2, 6.5 and 6.7 of RFC 3550, section 6.2.1 of RFC 4585):
 their bytes, and what survives writing and reading them back.
 */
module Rtcp {
  import opened Seq16
  import opened Sequences
  import opened Codec
  import opened NackEntries

  const PT_SR: Byte := 200
  const PT_RR: Byte := 201
  const PT_SDES: Byte := 202
  const PT_APP: Byte := 204
  const PT_RTPFB: Byte := 205
  const FMT_GENERIC: Byte := 1
  const FMT_RANGE: Byte := 15
  const APP_RANGE_NACK: Byte := 0
  const APP_RTT_REQUEST: Byte := 2
  const APP_RTT_RESPONSE: Byte := 3
  /** "RIST" in ASCII. */
  const APP_NAME: U32 := 0x5249_5354
  const MAX_RANGE_NACK_ENTRIES := 512

  datatype ReportBlock = ReportBlock(ssrc: U32, fractionLost: Byte, cumulativeLost: int, highest: U32,
                                     jitter: U32, lastSr: U32, delay: U32)

  datatype Entries = Bitmask(bitmasks: seq<BitmaskNack>) | Range(ranges: seq<RangeNack>)

  datatype App =
    | RttRequest(ssrc: U32, msw: U32, lsw: U32)
    | RttResponse(ssrc: U32, msw: U32, lsw: U32, processing: U32)
    | RangeRequest(media: U32, entries: seq<RangeNack>)
    | OtherApp(subtype: Byte, data: Bytes)

  datatype Packet =
    | SenderReport(ssrc: U32, ntpMsw: U32, ntpLsw: U32, rtp: U32, packets: U32, octets: U32)
    | ReceiverReport(ssrc: U32, reports: seq<ReportBlock>)
    | Sdes(ssrc: U32, cname: Bytes)
    | Nack(sender: U32, media: U32, entries: Entries)
    | AppPacket(app: App)
    | Unknown(packetType: Byte, data: Bytes)

  // ---- report blocks ----

  /** 24 bits of a signed count. */
  function BlockWords(b: ReportBlock): (ws: seq<U32>)
    ensures |ws| == 6
  {
    [b.ssrc, (b.fractionLost as int) * 0x100_0000 + b.cumulativeLost % 0x100_0000,
     b.highest, b.jitter, b.lastSr, b.delay]
  }

  function SignExtend24(raw: int): int
    requires 0 <= raw < 0x100_0000
  {
    if raw >= 0x80_0000 then raw - 0x100_0000 else raw
  }

  function BlockOf(ws: seq<U32>): ReportBlock
    requires |ws| == 6
  {
    ReportBlock(ws[0], ws[1] / 0x100_0000, SignExtend24(ws[1] % 0x100_0000), ws[2], ws[3], ws[4], ws[5])
  }

  predicate Fits24(lost: int) { -0x80_0000 <= lost < 0x80_0000 }

  /** A block survives exactly when its loss count fits 24 signed bits. */
  lemma BlockRoundTrip(b: ReportBlock)
    ensures BlockOf(BlockWords(b)) == b <==> Fits24(b.cumulativeLost)
  {
    var raw := b.cumulativeLost % 0x100_0000;
    var w := (b.fractionLost as int) * 0x100_0000 + raw;
    assert w / 0x100_0000 == b.fractionLost && w % 0x100_0000 == raw;
  }

  function BlocksWords(bs: seq<ReportBlock>): (ws: seq<U32>)
    ensures |ws| == 6 * |bs|
  {
    if bs == [] then [] else BlocksWords(bs[..|bs| - 1]) + BlockWords(bs[|bs| - 1])
  }

  /** The first `k` report blocks, which follow a one-word SSRC. */
  function BlocksAt(b: Bytes, k: nat): (bs: seq<ReportBlock>)
    requires 4 * (1 + 6 * k) <= |b|
    ensures |bs| == k
    decreases k, b
  {
    if k == 0 then [] else BlocksAt(b, k - 1) + [BlockAt(b, k - 1)]
  }

  function BlockAt(b: Bytes, i: nat): ReportBlock
    requires 4 * (1 + 6 * (i + 1)) <= |b|
  {
    BlockOf(Read(b, 4 * (1 + 6 * i), 6))
  }

  lemma {:induction false} BlocksWordsPart(bs: seq<ReportBlock>, i: nat)
    requires i < |bs|
    ensures BlocksWords(bs)[6 * i..6 * i + 6] == BlockWords(bs[i])
    decreases |bs|
  {
    var k := |bs| - 1;
    if i < k {
      BlocksWordsPart(bs[..k], i);
    }
  }

  lemma BlockWordsAfterSsrc(ssrc: U32, bs: seq<ReportBlock>, i: nat)
    requires i < |bs|
    ensures ([ssrc] + BlocksWords(bs))[1 + 6 * i..1 + 6 * i + 6] == BlockWords(bs[i])
  {
    BlocksWordsPart(bs, i);
    SliceAfterHead(ssrc, BlocksWords(bs), 6 * i, 6);
  }

  lemma BlockReadsBack(ssrc: U32, bs: seq<ReportBlock>, i: nat)
    requires i < |bs| && Fits24(bs[i].cumulativeLost)
    ensures BlockAt(Words([ssrc] + BlocksWords(bs)), i) == bs[i]
  {
    BlockWordsAfterSsrc(ssrc, bs, i);
    ReadBack([ssrc] + BlocksWords(bs), 1 + 6 * i, 6);
    BlockRoundTrip(bs[i]);
  }

  lemma {:induction false} BlocksRoundTrip(ssrc: U32, bs: seq<ReportBlock>, k: nat)
    requires k <= |bs| && forall i :: 0 <= i < |bs| ==> Fits24(bs[i].cumulativeLost)
    ensures BlocksAt(Words([ssrc] + BlocksWords(bs)), k) == bs[..k]
    decreases k
  {
    if k > 0 {
      BlocksRoundTrip(ssrc, bs, k - 1);
      BlockReadsBack(ssrc, bs, k - 1);
      assert bs[..k] == bs[..k - 1] + [bs[k - 1]];
    }
  }

  // ---- NACK entries ----

  function BitmaskWords(es: seq<BitmaskNack>): (ws: seq<U32>)
    ensures |ws| == |es|
  {
    seq(|es|, i requires 0 <= i < |es| => Pair(es[i].pid, es[i].blp))
  }

  function RangeWords(es: seq<RangeNack>): (ws: seq<U32>)
    ensures |ws| == |es|
  {
    seq(|es|, i requires 0 <= i < |es| => Pair(es[i].start, es[i].extra))
  }

  function ToBitmasks(ws: seq<U32>): (es: seq<BitmaskNack>)
    ensures |es| == |ws|
  {
    seq(|ws|, i requires 0 <= i < |ws| => BitmaskNack(Hi(ws[i]), Lo(ws[i])))
  }

  function ToRanges(ws: seq<U32>): (es: seq<RangeNack>)
    ensures |es| == |ws|
  {
    seq(|ws|, i requires 0 <= i < |ws| => RangeNack(Hi(ws[i]), Lo(ws[i])))
  }

  lemma BitmasksRoundTrip(es: seq<BitmaskNack>)
    ensures ToBitmasks(BitmaskWords(es)) == es
  {
    forall i | 0 <= i < |es|
      ensures ToBitmasks(BitmaskWords(es))[i] == es[i]
    {
      PairIsTwoHalves(es[i].pid, es[i].blp);
    }
  }

  lemma RangesRoundTrip(es: seq<RangeNack>)
    ensures ToRanges(RangeWords(es)) == es
  {
    forall i | 0 <= i < |es|
      ensures ToRanges(RangeWords(es))[i] == es[i]
    {
      PairIsTwoHalves(es[i].start, es[i].extra);
    }
  }

  // ---- writing ----

  /** A packet made of whole words after its header; the length field is cut to 16 bits. */
  function WordPacket(count: Byte, packetType: Byte, ws: seq<U32>): Bytes {
    HeaderBytes(count, packetType, |ws| % 0x1_0000) + Words(ws)
  }

  function Zeros(k: nat): (z: Bytes)
    ensures |z| == k
  {
    seq(k, _ => 0)
  }

  /** One to four zero bytes, up to the next 32-bit boundary. */
  function SdesPadding(nameLen: nat): (p: nat)
    ensures 1 <= p <= 4 && (6 + nameLen + p) % 4 == 0
  {
    var p := (4 - (6 + nameLen) % 4) % 4;
    if p == 0 then 4 else p
  }

  function SdesBody(ssrc: U32, cname: Bytes): (b: Bytes)
    ensures |b| == 6 + |cname| + SdesPadding(|cname|)
  {
    Be32(ssrc) + ([1, |cname| % 0x100] + cname + Zeros(SdesPadding(|cname|)))
  }

  function SdesBytes(ssrc: U32, cname: Bytes): Bytes {
    HeaderBytes(1, PT_SDES, ((4 + 6 + |cname| + SdesPadding(|cname|)) / 4 - 1) % 0x1_0000) + SdesBody(ssrc, cname)
  }

  /** The report count is cut to 8 bits before the length is computed from it. */
  function RrBytes(ssrc: U32, bs: seq<ReportBlock>): Bytes {
    RrPacket(|bs|, [ssrc] + BlocksWords(bs))
  }

  function RrPacket(reports: nat, ws: seq<U32>): Bytes {
    var rc := reports % 0x100;
    HeaderBytes(rc % 0x20, PT_RR, (1 + rc * 6) % 0x1_0000) + Words(ws)
  }

  function AppBytes(a: App): Bytes {
    match a
    case RttRequest(ssrc, msw, lsw) => WordPacket(APP_RTT_REQUEST, PT_APP, [ssrc, APP_NAME, msw, lsw])
    case RttResponse(ssrc, msw, lsw, p) => WordPacket(APP_RTT_RESPONSE, PT_APP, [ssrc, APP_NAME, msw, lsw, p])
    case RangeRequest(media, es) => WordPacket(APP_RANGE_NACK, PT_APP, [media, APP_NAME] + RangeWords(es))
    case OtherApp(subtype, data) =>
      var words := (4 + |data|) / 4;
      HeaderBytes(subtype % 0x20, PT_APP, (if words == 0 then 0 else words - 1) % 0x1_0000) + data
  }

  /** Unknown packets write nothing. */
  function PacketBytes(p: Packet): Bytes {
    match p
    case SenderReport(a, b, c, d, e, f) => WordPacket(0, PT_SR, [a, b, c, d, e, f])
    case ReceiverReport(ssrc, bs) => RrBytes(ssrc, bs)
    case Sdes(ssrc, cname) => SdesBytes(ssrc, cname)
    case Nack(sender, media, Bitmask(es)) => WordPacket(FMT_GENERIC, PT_RTPFB, [sender, media] + BitmaskWords(es))
    case Nack(sender, media, Range(es)) => WordPacket(FMT_RANGE, PT_RTPFB, [sender, media] + RangeWords(es))
    case AppPacket(a) => AppBytes(a)
    case Unknown(_, _) => []
  }

  // ---- reading the bytes after a header ----

  function ParseSr(b: Bytes): Result<Packet> {
    if |b| < 24 then Err
    else var w := Read(b, 0, 6); Ok(SenderReport(w[0], w[1], w[2], w[3], w[4], w[5]))
  }

  function ParseRr(b: Bytes, rc: nat): Result<Packet> {
    if |b| < 4 * (1 + 6 * rc) then Err else Ok(ReceiverReport(Get32(b, 0), BlocksAt(b, rc)))
  }

  function ParseSdes(b: Bytes): Result<Packet> {
    if |b| < 6 || b[4] != 1 || |b| < 6 + b[5] as int then Err
    else Ok(Sdes(Get32(b, 0), b[6..6 + b[5] as int]))
  }

  function ParseNack(b: Bytes, fmt: Byte): Result<Packet> {
    if |b| < 8 then Err
    else
      var ws := Read(b, 8, (|b| - 8) / 4);
      if fmt == FMT_GENERIC then Ok(Nack(Get32(b, 0), Get32(b, 4), Bitmask(ToBitmasks(ws))))
      else if fmt == FMT_RANGE then Ok(Nack(Get32(b, 0), Get32(b, 4), Range(ToRanges(ws))))
      else Err
  }

  function Min(a: nat, b: nat): nat { if a < b then a else b }

  function ParseApp(b: Bytes, subtype: Byte): Result<App> {
    if |b| < 8 then Err
    else if Get32(b, 4) != APP_NAME then Ok(OtherApp(subtype, b))
    else
      var ssrc := Get32(b, 0);
      if subtype == APP_RANGE_NACK then
        Ok(RangeRequest(ssrc, ToRanges(Read(b, 8, Min((|b| - 8) / 4, MAX_RANGE_NACK_ENTRIES)))))
      else if subtype == APP_RTT_REQUEST then
        if |b| < 16 then Err else Ok(RttRequest(ssrc, Get32(b, 8), Get32(b, 12)))
      else if subtype == APP_RTT_RESPONSE then
        if |b| < 20 then Err else Ok(RttResponse(ssrc, Get32(b, 8), Get32(b, 12), Get32(b, 16)))
      else Ok(OtherApp(subtype, b))
  }

  function OrUnknown(r: Result<Packet>, packetType: Byte, b: Bytes): Packet {
    if r.Ok? then r.value else Unknown(packetType, b)
  }

  /** The lenient dispatch: whatever does not parse is kept as unknown. */
  function ParseBody(packetType: Byte, count: Byte, b: Bytes): Packet {
    if packetType == PT_SR then OrUnknown(ParseSr(b), packetType, b)
    else if packetType == PT_RR then OrUnknown(ParseRr(b, count), packetType, b)
    else if packetType == PT_SDES then OrUnknown(ParseSdes(b), packetType, b)
    else if packetType == PT_RTPFB then OrUnknown(ParseNack(b, count), packetType, b)
    else if packetType == PT_APP then
      var a := ParseApp(b, count);
      if a.Ok? then AppPacket(a.value) else Unknown(packetType, b)
    else Unknown(packetType, b)
  }

  // ---- packets that survive ----

  predicate WellFormedApp(a: App) {
    match a
    case RangeRequest(_, es) => |es| <= MAX_RANGE_NACK_ENTRIES
    case OtherApp(subtype, data) =>
      && subtype < 0x20 && |data| % 4 == 0 && 8 <= |data| <= 4 * 0xFFFF
      && (Get32(data, 4) != APP_NAME || subtype !in {APP_RANGE_NACK, APP_RTT_REQUEST, APP_RTT_RESPONSE})
    case _ => true
  }

  predicate WellFormed(p: Packet) {
    match p
    case ReceiverReport(_, bs) => |bs| <= 31 && forall i :: 0 <= i < |bs| ==> Fits24(bs[i].cumulativeLost)
    case Sdes(_, cname) => |cname| <= 255
    case Nack(_, _, Bitmask(es)) => |es| <= 0xFFFD
    case Nack(_, _, Range(es)) => |es| <= 0xFFFD
    case AppPacket(a) => WellFormedApp(a)
    case Unknown(_, _) => false
    case _ => true
  }

  /** What reads a body, given the packet type and the count field of its header. */
  type BodyParser<!P> = (Byte, Byte, Bytes) -> P

  /** A whole packet: its header frames exactly these bytes, and its body reads as `p`. */
  ghost predicate ReadsAs<P>(p: P, b: Bytes, f: BodyParser<P>) {
    var h := HeaderAt(b, 0);
    h.Ok? && h.value.Size() == |b| && f(h.value.packetType, h.value.count, b[4..]) == p
  }

  ghost predicate ReadsBack(p: Packet, b: Bytes) {
    ReadsAs(p, b, ParseBody)
  }

  lemma WordPacketFrames(count: Byte, packetType: Byte, ws: seq<U32>)
    requires count < 0x20 && |ws| <= 0xFFFF
    ensures var b := WordPacket(count, packetType, ws);
            && HeaderAt(b, 0) == Ok(Header(false, count, packetType, |ws|))
            && |b| == 4 * (|ws| + 1) && b[4..] == Words(ws)
  {
    HeaderRoundTrip(count, packetType, |ws|, Words(ws));
  }

  lemma SrReadsBack(p: Packet)
    requires p.SenderReport?
    ensures ReadsBack(p, PacketBytes(p))
  {
    var ws: seq<U32> := [p.ssrc, p.ntpMsw, p.ntpLsw, p.rtp, p.packets, p.octets];
    WordPacketFrames(0, PT_SR, ws);
    ReadBack(ws, 0, 6);
    assert ws[0..6] == ws;
  }

  lemma RrBodyReadsBack(ssrc: U32, bs: seq<ReportBlock>)
    requires forall i :: 0 <= i < |bs| ==> Fits24(bs[i].cumulativeLost)
    ensures ParseRr(Words([ssrc] + BlocksWords(bs)), |bs|) == Ok(ReceiverReport(ssrc, bs))
  {
    WordAt([ssrc] + BlocksWords(bs), 0);
    BlocksRoundTrip(ssrc, bs, |bs|);
    assert bs[..|bs|] == bs;
  }

  lemma SmallCount(k: nat)
    requires k <= 31
    ensures k % 0x100 == k && k % 0x20 == k
  {
  }

  lemma RrIsWordPacket(k: nat, ws: seq<U32>)
    requires k <= 31 && |ws| == 1 + 6 * k
    ensures RrPacket(k, ws) == WordPacket(k, PT_RR, ws)
  {
    SmallCount(k);
    assert HeaderBytes(k % 0x100 % 0x20, PT_RR, (1 + k % 0x100 * 6) % 0x1_0000)
        == HeaderBytes(k, PT_RR, |ws| % 0x1_0000);
  }

  lemma RrReadsBack(p: Packet)
    requires p.ReceiverReport? && WellFormed(p)
    ensures ReadsBack(p, PacketBytes(p))
  {
    var ws, k := [p.ssrc] + BlocksWords(p.reports), |p.reports|;
    RrIsWordPacket(k, ws);
    WordPacketFrames(k, PT_RR, ws);
    RrBodyReadsBack(p.ssrc, p.reports);
  }

  lemma SdesBodyReadsBack(ssrc: U32, cname: Bytes)
    requires |cname| <= 255
    ensures ParseSdes(SdesBody(ssrc, cname)) == Ok(Sdes(ssrc, cname))
  {
    var tail := [1, |cname|] + cname + Zeros(SdesPadding(|cname|));
    var body := SdesBody(ssrc, cname);
    Get32OfBe32(ssrc, tail);
    assert body[4] == tail[0] && body[5] == tail[1];
    assert body[6..6 + |cname|] == cname;
  }

  lemma SdesFrames(ssrc: U32, cname: Bytes)
    requires |cname| <= 255
    ensures var b, body := SdesBytes(ssrc, cname), SdesBody(ssrc, cname);
            && HeaderAt(b, 0) == Ok(Header(false, 1, PT_SDES, |body| / 4))
            && |b| == 4 * (|body| / 4 + 1) && b[4..] == body
  {
    var body := SdesBody(ssrc, cname);
    HeaderRoundTrip(1, PT_SDES, |body| / 4, body);
  }

  lemma SdesReadsBack(p: Packet)
    requires p.Sdes? && WellFormed(p)
    ensures ReadsBack(p, PacketBytes(p))
  {
    SdesFrames(p.ssrc, p.cname);
    SdesBodyReadsBack(p.ssrc, p.cname);
  }

  lemma FirstWord(ws: seq<U32>)
    requires |ws| >= 2
    ensures Get32(Words(ws), 0) == ws[0]
  {
    WordAt(ws, 0);
  }

  lemma SecondWord(ws: seq<U32>)
    requires |ws| >= 2
    ensures Get32(Words(ws), 4) == ws[1]
  {
    WordAt(ws, 1);
  }

  lemma OtherWords(ws: seq<U32>)
    requires |ws| >= 2
    ensures Read(Words(ws), 8, |ws| - 2) == ws[2..]
  {
    ReadTail(ws, 2);
  }

  /** Two leading words and the rest. */
  lemma LeadingWords(ws: seq<U32>)
    requires |ws| >= 2
    ensures var b := Words(ws);
            Get32(b, 0) == ws[0] && Get32(b, 4) == ws[1] && Read(b, 8, |ws| - 2) == ws[2..]
  {
    FirstWord(ws);
    SecondWord(ws);
    OtherWords(ws);
  }

  lemma BitmaskReadsBack(p: Packet)
    requires p.Nack? && p.entries.Bitmask? && WellFormed(p)
    ensures ReadsBack(p, PacketBytes(p))
  {
    var es := BitmaskWords(p.entries.bitmasks);
    var ws := [p.sender, p.media] + es;
    WordPacketFrames(FMT_GENERIC, PT_RTPFB, ws);
    LeadingWords(ws);
    assert ws[2..] == es;
    BitmasksRoundTrip(p.entries.bitmasks);
  }

  lemma RangeReadsBack(p: Packet)
    requires p.Nack? && p.entries.Range? && WellFormed(p)
    ensures ReadsBack(p, PacketBytes(p))
  {
    var es := RangeWords(p.entries.ranges);
    var ws := [p.sender, p.media] + es;
    WordPacketFrames(FMT_RANGE, PT_RTPFB, ws);
    LeadingWords(ws);
    assert ws[2..] == es;
    RangesRoundTrip(p.entries.ranges);
  }

  lemma RangeRequestReadsBack(p: Packet)
    requires p.AppPacket? && p.app.RangeRequest? && WellFormed(p)
    ensures ReadsBack(p, PacketBytes(p))
  {
    var es := RangeWords(p.app.entries);
    var ws := [p.app.media, APP_NAME] + es;
    WordPacketFrames(APP_RANGE_NACK, PT_APP, ws);
    LeadingWords(ws);
    assert ws[2..] == es;
    RangesRoundTrip(p.app.entries);
  }

  lemma RttReadsBack(p: Packet)
    requires p.AppPacket? && (p.app.RttRequest? || p.app.RttResponse?)
    ensures ReadsBack(p, PacketBytes(p))
  {
    var request := p.app.RttRequest?;
    var ws: seq<U32> := if request then [p.app.ssrc, APP_NAME, p.app.msw, p.app.lsw]
                        else [p.app.ssrc, APP_NAME, p.app.msw, p.app.lsw, p.app.processing];
    WordPacketFrames(if request then APP_RTT_REQUEST else APP_RTT_RESPONSE, PT_APP, ws);
    WordAt(ws, 0);
    WordAt(ws, 1);
    WordAt(ws, 2);
    WordAt(ws, 3);
    if !request {
      WordAt(ws, 4);
    }
  }

  lemma OtherAppReadsBack(p: Packet)
    requires p.AppPacket? && p.app.OtherApp? && WellFormed(p)
    ensures ReadsBack(p, PacketBytes(p))
  {
    var data := p.app.data;
    HeaderRoundTrip(p.app.subtype, PT_APP, |data| / 4, data);
    assert (4 + |data|) / 4 - 1 == |data| / 4;
    assert PacketBytes(p) == HeaderBytes(p.app.subtype, PT_APP, |data| / 4) + data;
    assert PacketBytes(p)[4..] == data;
  }

  /** Every well-formed packet reads back from its own bytes. */
  lemma PacketReadsBack(p: Packet)
    requires WellFormed(p)
    ensures ReadsBack(p, PacketBytes(p))
  {
    match p
    case SenderReport(_, _, _, _, _, _) => SrReadsBack(p);
    case ReceiverReport(_, _) => RrReadsBack(p);
    case Sdes(_, _) => SdesReadsBack(p);
    case Nack(_, _, Bitmask(_)) => BitmaskReadsBack(p);
    case Nack(_, _, Range(_)) => RangeReadsBack(p);
    case AppPacket(OtherApp(_, _)) => OtherAppReadsBack(p);
    case AppPacket(RangeRequest(_, _)) => RangeRequestReadsBack(p);
    case AppPacket(_) => RttReadsBack(p);
  }

  lemma {:induction false} BlocksFit(b: Bytes, k: nat)
    requires 4 * (1 + 6 * k) <= |b|
    ensures forall i :: 0 <= i < k ==> Fits24(BlocksAt(b, k)[i].cumulativeLost)
    decreases k
  {
    if k > 0 {
      BlocksFit(b, k - 1);
    }
  }

  /** Whatever the dispatch recognises in a whole-word body is well-formed. */
  lemma ParsedIsWellFormed(packetType: Byte, count: Byte, b: Bytes)
    requires count < 0x20 && |b| % 4 == 0 && |b| <= 4 * 0xFFFF
    ensures ParseBody(packetType, count, b).Unknown? || WellFormed(ParseBody(packetType, count, b))
  {
    if packetType == PT_RR && |b| >= 4 * (1 + 6 * count as int) {
      BlocksFit(b, count);
    }
  }

  // ---- the loops that read bodies ----

  lemma HalvesOfWord(b: Bytes, o: nat)
    requires o + 4 <= |b|
    ensures Get16(b, o) == Hi(Get32(b, o)) && Get16(b, o + 2) == Lo(Get32(b, o))
  {
    var h, l := Get16(b, o), Get16(b, o + 2);
    assert Get32(b, o) == (h as int) * 0x1_0000 + l;
  }

  lemma MoreBitmasks(b: Bytes, k: nat)
    requires 8 + 4 * (k + 1) <= |b|
    ensures ToBitmasks(Read(b, 8, k + 1))
            == ToBitmasks(Read(b, 8, k)) + [BitmaskNack(Get16(b, 8 + 4 * k), Get16(b, 8 + 4 * k + 2))]
  {
    ReadSnoc(b, 8, k);
    HalvesOfWord(b, 8 + 4 * k);
  }

  lemma MoreRanges(b: Bytes, k: nat)
    requires 8 + 4 * (k + 1) <= |b|
    ensures ToRanges(Read(b, 8, k + 1))
            == ToRanges(Read(b, 8, k)) + [RangeNack(Get16(b, 8 + 4 * k), Get16(b, 8 + 4 * k + 2))]
  {
    ReadSnoc(b, 8, k);
    HalvesOfWord(b, 8 + 4 * k);
  }

  /** NACK bodies: two SSRCs, then as many entries as fit, two 16-bit reads each. */
  method ParseNackPacket(b: Bytes, fmt: Byte) returns (r: Result<Packet>)
    ensures r == ParseNack(b, fmt)
  {
    if |b| < 8 {
      return Err;
    }
    var entries := (|b| - 8) / 4;
    if fmt == FMT_GENERIC {
      var nacks: seq<BitmaskNack> := [];
      for i := 0 to entries
        invariant nacks == ToBitmasks(Read(b, 8, i))
      {
        MoreBitmasks(b, i);
        nacks := nacks + [BitmaskNack(Get16(b, 8 + 4 * i), Get16(b, 8 + 4 * i + 2))];
      }
      r := Ok(Nack(Get32(b, 0), Get32(b, 4), Bitmask(nacks)));
    } else if fmt == FMT_RANGE {
      var nacks: seq<RangeNack> := [];
      for i := 0 to entries
        invariant nacks == ToRanges(Read(b, 8, i))
      {
        MoreRanges(b, i);
        nacks := nacks + [RangeNack(Get16(b, 8 + 4 * i), Get16(b, 8 + 4 * i + 2))];
      }
      r := Ok(Nack(Get32(b, 0), Get32(b, 4), Range(nacks)));
    } else {
      r := Err;
    }
  }

  /** APP bodies. The entries of a range request are read while they last, up to the ceiling. */
  method ParseRistApp(b: Bytes, subtype: Byte) returns (r: Result<App>)
    ensures r == ParseApp(b, subtype)
  {
    if |b| < 8 {
      return Err;
    }
    if Get32(b, 4) != APP_NAME || subtype !in {APP_RANGE_NACK, APP_RTT_REQUEST, APP_RTT_RESPONSE} {
      return Ok(OtherApp(subtype, b));
    }
    if subtype == APP_RANGE_NACK {
      var entries: seq<RangeNack> := [];
      while |b| - (8 + 4 * |entries|) >= 4 && |entries| < MAX_RANGE_NACK_ENTRIES
        invariant |entries| <= Min((|b| - 8) / 4, MAX_RANGE_NACK_ENTRIES)
        invariant entries == ToRanges(Read(b, 8, |entries|))
        decreases |b| - 4 * |entries|
      {
        var at := 8 + 4 * |entries|;
        MoreRanges(b, |entries|);
        entries := entries + [RangeNack(Get16(b, at), Get16(b, at + 2))];
      }
      assert |entries| == Min((|b| - 8) / 4, MAX_RANGE_NACK_ENTRIES);
      r := Ok(RangeRequest(Get32(b, 0), entries));
    } else if subtype == APP_RTT_REQUEST {
      r := if |b| < 16 then Err else Ok(RttRequest(Get32(b, 0), Get32(b, 8), Get32(b, 12)));
    } else {
      r := if |b| < 20 then Err else Ok(RttResponse(Get32(b, 0), Get32(b, 8), Get32(b, 12), Get32(b, 16)));
    }
  }

  /** The report loop stops with an error at the first block that does not fit. */
  method ParseReceiverReport(b: Bytes, rc: Byte) returns (r: Result<Packet>)
    ensures r == ParseRr(b, rc)
  {
    if |b| < 4 {
      return Err;
    }
    var reports: seq<ReportBlock> := [];
    for i := 0 to rc
      invariant 4 * (1 + 6 * i) <= |b| && reports == BlocksAt(b, i)
    {
      var offset := 4 * (1 + 6 * i);
      if |b| - offset < 24 {
        return Err;
      }
      reports := reports + [BlockAt(b, i)];
    }
    r := Ok(ReceiverReport(Get32(b, 0), reports));
  }
}
