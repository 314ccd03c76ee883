/** Compound RTCP datagrams (section 6.1 of RFC 3550): framing, round trips, isolation of bodies. */
module Compound {
  import opened Seq16
  import opened Sequences
  import opened Codec
  import opened Rtcp

  const MAX_SUB_PACKETS := 64

  /** The sub-packets of `b` from offset `o`, at most `room`. A bad version fails the whole datagram. */
  function ParseAt<P>(b: Bytes, o: nat, room: nat, f: BodyParser<P>): (r: Result<seq<P>>)
    requires o <= |b|
    ensures r.Ok? ==> |r.value| <= room
    decreases room, b
  {
    if o + 4 > |b| || room == 0 then Ok([])
    else
      var h := HeaderAt(b, o);
      if h.Err? then Err
      else
        var end := o + h.value.Size();
        if end > |b| then Ok([])
        else Prepend([f(h.value.packetType, h.value.count, b[o + 4..end])], ParseAt(b, end, room - 1, f))
  }

  function Prepend<P>(ps: seq<P>, r: Result<seq<P>>): (r': Result<seq<P>>)
    ensures r'.Ok? <==> r.Ok?
    ensures r.Ok? ==> r' == Ok(ps + r.value)
  {
    if r.Err? then Err else Ok(ps + r.value)
  }

  function Parse(b: Bytes): Result<seq<Packet>> {
    ParseAt(b, 0, MAX_SUB_PACKETS, ParseBody)
  }

  function Chunks(ps: seq<Packet>): (cs: seq<Bytes>)
    ensures |cs| == |ps|
  {
    seq(|ps|, i requires 0 <= i < |ps| => PacketBytes(ps[i]))
  }

  function Serialize(ps: seq<Packet>): Bytes {
    Flatten(Chunks(ps))
  }

  /** The parsing loop: in bounds, terminating and with at most 64 elements on every input. */
  method ParseCompound<P>(b: Bytes, f: BodyParser<P>) returns (r: Result<seq<P>>)
    ensures r == ParseAt(b, 0, MAX_SUB_PACKETS, f)
  {
    var packets: seq<P> := [];
    var offset := 0;
    PrependNothing(ParseAt(b, 0, MAX_SUB_PACKETS, f));
    while offset + 4 <= |b| && |packets| < MAX_SUB_PACKETS
      invariant offset <= |b| && |packets| <= MAX_SUB_PACKETS
      invariant ParseAt(b, 0, MAX_SUB_PACKETS, f)
             == Prepend(packets, ParseAt(b, offset, MAX_SUB_PACKETS - |packets|, f))
      decreases |b| - offset
    {
      var h := ReadHeader(b, offset);
      if h.Err? {
        return Err;
      }
      var end := offset + h.value.Size();
      if end > |b| {
        break;
      }
      var pkt := f(h.value.packetType, h.value.count, b[offset + 4..end]);
      PrependStep(packets, pkt, ParseAt(b, end, MAX_SUB_PACKETS - |packets| - 1, f));
      packets := packets + [pkt];
      offset := end;
    }
    r := Ok(packets);
    assert packets + [] == packets;
  }

  lemma PrependNothing<P>(r: Result<seq<P>>)
    ensures Prepend([], r) == r
  {
    if r.Ok? {
      assert [] + r.value == r.value;
    }
  }

  lemma PrependStep<P>(ps: seq<P>, p: P, r: Result<seq<P>>)
    ensures Prepend(ps + [p], r) == Prepend(ps, Prepend([p], r))
  {
    if r.Ok? {
      assert (ps + [p]) + r.value == ps + ([p] + r.value);
    }
  }

  /** The writing loop. */
  method SerializeCompound(ps: seq<Packet>) returns (b: Bytes)
    ensures b == Serialize(ps)
  {
    b := [];
    ghost var cs := Chunks(ps);
    for i := 0 to |ps|
      invariant b == Flatten(cs[..i])
    {
      b := b + PacketBytes(ps[i]);
      FlattenSnoc(cs, i);
    }
    assert cs[..|ps|] == cs;
  }

  // ---- round trips ----

  predicate IsKnown(p: Packet) { !p.Unknown? }

  ghost predicate AllWellFormed(ps: seq<Packet>) {
    forall i :: 0 <= i < |ps| ==> WellFormed(ps[i])
  }

  /** A packet that reads back from its own bytes is read wherever it stands. */
  lemma ParseThere<P>(b: Bytes, o: nat, p: P, s: Bytes, room: nat, f: BodyParser<P>)
    requires o + |s| <= |b| && b[o..o + |s|] == s && ReadsAs(p, s, f) && room > 0
    ensures ParseAt(b, o, room, f) == Prepend([p], ParseAt(b, o + |s|, room - 1, f))
  {
    HeaderInside(b, o, s);
    assert b[o + 4..o + |s|] == s[4..];
  }

  lemma HeaderInside(b: Bytes, o: nat, s: Bytes)
    requires 4 <= |s| && o + |s| <= |b| && b[o..o + |s|] == s
    ensures HeaderAt(b, o) == HeaderAt(s, 0)
  {
    assert b[o] == s[0] && b[o + 1] == s[1] && b[o + 2] == s[2] && b[o + 3] == s[3];
  }

  ghost predicate AllReadAs<P>(ps: seq<P>, cs: seq<Bytes>, f: BodyParser<P>) {
    |ps| == |cs| && forall i :: 0 <= i < |ps| ==> ReadsAs(ps[i], cs[i], f)
  }

  /** From offset `o` on, `b` is the chunks one after the other. */
  ghost predicate EndsWith(b: Bytes, o: nat, cs: seq<Bytes>) {
    o <= |b| && b[o..] == Flatten(cs)
  }

  ghost predicate Yields<P>(b: Bytes, o: nat, room: nat, f: BodyParser<P>, ps: seq<P>) {
    o <= |b| && ParseAt(b, o, room, f) == Ok(ps)
  }

  /** Packets that read back one by one read back concatenated. */
  lemma {:induction false} ParseConcatenated<P>(b: Bytes, o: nat, ps: seq<P>, cs: seq<Bytes>, k: nat, room: nat,
                                               f: BodyParser<P>)
    requires AllReadAs(ps, cs, f) && k <= |ps| && EndsWith(b, o, cs[k..]) && |ps| - k <= room
    ensures Yields(b, o, room, f, ps[k..])
    decreases |ps| - k
  {
    if k == |ps| {
      ParseNothing(b, o, ps[k..], cs[k..], room, f);
    } else {
      HeadOfFlatten(b, o, cs, k);
      ParseConcatenated(b, o + |cs[k]|, ps, cs, k + 1, room - 1, f);
      ParseOneMore(b, o, ps, k, cs[k], room, f);
    }
  }

  lemma ParseNothing<P>(b: Bytes, o: nat, ps: seq<P>, cs: seq<Bytes>, room: nat, f: BodyParser<P>)
    requires EndsWith(b, o, cs) && |cs| == |ps| == 0
    ensures Yields(b, o, room, f, ps)
  {
    assert |b[o..]| == 0;
  }

  lemma ParseOneMore<P>(b: Bytes, o: nat, ps: seq<P>, k: nat, s: Bytes, room: nat, f: BodyParser<P>)
    requires k < |ps| && room > 0 && o + |s| <= |b| && b[o..o + |s|] == s && ReadsAs(ps[k], s, f)
    requires Yields(b, o + |s|, room - 1, f, ps[k + 1..])
    ensures Yields(b, o, room, f, ps[k..])
  {
    ParseThere(b, o, ps[k], s, room, f);
    assert ps[k..] == [ps[k]] + ps[k + 1..];
  }

  lemma HeadOfFlatten(b: Bytes, o: nat, cs: seq<Bytes>, k: nat)
    requires k < |cs| && EndsWith(b, o, cs[k..])
    ensures o + |cs[k]| <= |b| && b[o..o + |cs[k]|] == cs[k]
    ensures EndsWith(b, o + |cs[k]|, cs[k + 1..])
  {
    var all, s := b[o..], cs[k];
    assert cs[k..][0] == s && cs[k..][1..] == cs[k + 1..];
    assert all == s + Flatten(cs[k + 1..]);
    assert b[o..o + |s|] == all[..|s|] && b[o + |s|..] == all[|s|..];
  }

  lemma ChunksReadBack(ps: seq<Packet>)
    requires AllWellFormed(ps)
    ensures AllReadAs(ps, Chunks(ps), ParseBody)
  {
    forall i | 0 <= i < |ps|
      ensures ReadsAs(ps[i], Chunks(ps)[i], ParseBody)
    {
      PacketReadsBack(ps[i]);
    }
  }

  /** Every list of at most 64 well-formed packets survives writing and reading. */
  lemma WriteThenRead(ps: seq<Packet>)
    requires AllWellFormed(ps) && |ps| <= MAX_SUB_PACKETS
    ensures Parse(Serialize(ps)) == Ok(ps)
  {
    ChunksReadBack(ps);
    assert Serialize(ps)[0..] == Serialize(ps) && Chunks(ps)[0..] == Chunks(ps) && ps[0..] == ps;
    ParseConcatenated(Serialize(ps), 0, ps, Chunks(ps), 0, MAX_SUB_PACKETS, ParseBody);
  }

  lemma SerializeCons(p: Packet, ps: seq<Packet>)
    ensures Serialize([p] + ps) == PacketBytes(p) + Serialize(ps)
  {
    assert Chunks([p] + ps)[1..] == Chunks(ps);
  }

  lemma {:induction false} SerializeSkipsUnknown(ps: seq<Packet>)
    ensures Serialize(ps) == Serialize(Filter(ps, IsKnown))
  {
    if ps != [] {
      var p, rest := ps[0], ps[1..];
      SerializeSkipsUnknown(rest);
      SerializeCons(p, rest);
      assert ps == [p] + rest;
      if IsKnown(p) {
        SerializeCons(p, Filter(rest, IsKnown));
      } else {
        assert [] + Filter(rest, IsKnown) == Filter(rest, IsKnown) && [] + Serialize(rest) == Serialize(rest);
      }
    }
  }

  ghost predicate KnownAreWellFormed(ps: seq<Packet>) {
    forall i :: 0 <= i < |ps| ==> ps[i].Unknown? || WellFormed(ps[i])
  }

  lemma {:induction false} ParsedPackets(b: Bytes, o: nat, room: nat)
    requires o <= |b| && ParseAt(b, o, room, ParseBody).Ok?
    ensures KnownAreWellFormed(ParseAt(b, o, room, ParseBody).value)
    decreases room
  {
    if o + 4 <= |b| && room > 0 {
      var h := HeaderAt(b, o).value;
      var end := o + h.Size();
      if end <= |b| {
        ParsedPackets(b, end, room - 1);
        ParsedIsWellFormed(h.packetType, h.count, b[o + 4..end]);
      }
    }
  }

  lemma {:induction false} FilterKnown(ps: seq<Packet>)
    requires KnownAreWellFormed(ps)
    ensures AllWellFormed(Filter(ps, IsKnown)) && |Filter(ps, IsKnown)| <= |ps|
  {
    FilterMembers(ps, IsKnown);
    var known := Filter(ps, IsKnown);
    forall i | 0 <= i < |known|
      ensures WellFormed(known[i])
    {
      assert known[i] in known && known[i] in ps;
    }
  }

  /**
   Whatever the parser accepts, writing the packets and reading them again gives the same
   packets without the unknown ones.
   */
  lemma ReadThenWriteThenRead(b: Bytes)
    requires Parse(b).Ok?
    ensures Parse(Serialize(Parse(b).value)) == Ok(Filter(Parse(b).value, IsKnown))
  {
    var ps := Parse(b).value;
    ParsedPackets(b, 0, MAX_SUB_PACKETS);
    FilterKnown(ps);
    SerializeSkipsUnknown(ps);
    WriteThenRead(Filter(ps, IsKnown));
  }

  // ---- framing ----

  /** The offset of the `k`-th sub-packet from offset `o` on, if the framing reaches it. */
  function FrameAt(b: Bytes, o: nat, k: nat): (r: Option<nat>)
    ensures r.Some? ==> o <= r.value && HeaderAt(b, r.value).Ok? && r.value + HeaderAt(b, r.value).value.Size() <= |b|
    ensures r.Some? && k > 0 ==> HeaderAt(b, o).Ok? && o + HeaderAt(b, o).value.Size() <= r.value
    decreases k, b
  {
    var h := HeaderAt(b, o);
    if h.Err? || o + h.value.Size() > |b| then None
    else if k == 0 then Some(o)
    else FrameAt(b, o + h.value.Size(), k - 1)
  }

  /** The size that bytes 2 and 3 of a header announce. */
  function Extent(b: Bytes, o: nat): nat
    requires o + 4 <= |b|
  {
    4 + 4 * (b[o + 2] as int * 256 + b[o + 3] as int)
  }

  /** A sub-packet of version 2 starts at `o` and ends within `b`. */
  predicate Whole(b: Bytes, o: nat) {
    o + 4 <= |b| && b[o] / 64 == 2 && o + Extent(b, o) <= |b|
  }

  /** Where sub-packet `k` from offset `o` on would start, if the ones before it are whole. */
  function StartOf(b: Bytes, o: nat, k: nat): Option<nat>
    decreases k, b
  {
    if k == 0 then Some(o) else if Whole(b, o) then StartOf(b, o + Extent(b, o), k - 1) else None
  }

  lemma HeaderRaw(b: Bytes, o: nat)
    requires o + 4 <= |b|
    ensures var h := HeaderAt(b, o);
            && (h.Ok? <==> b[o] / 64 == 2)
            && (h.Ok? ==>
                  && h.value.packetType == b[o + 1] && h.value.count == b[o] % 32 && h.value.Size() == Extent(b, o)
                  && (h.value.padding <==> b[o] / 32 % 2 == 1))
  {
    HeaderBits(b[o]);
  }

  /** Behind `k` whole sub-packets comes a header of another version. */
  ghost predicate BadVersion(b: Bytes, o: nat, k: nat) {
    var t := StartOf(b, o, k);
    t.Some? && t.value + 4 <= |b| && b[t.value] / 64 != 2
  }

  ghost predicate FailsWithin(b: Bytes, o: nat, room: nat) {
    exists k :: 0 <= k < room && BadVersion(b, o, k)
  }

  lemma FailsLater(b: Bytes, o: nat, room: nat)
    requires room > 0
    ensures FailsWithin(b, o, room)
            <==> BadVersion(b, o, 0) || (Whole(b, o) && FailsWithin(b, o + Extent(b, o), room - 1))
  {
    if FailsWithin(b, o, room) {
      var k :| 0 <= k < room && BadVersion(b, o, k);
      assert k == 0 || BadVersion(b, o + Extent(b, o), k - 1);
    }
    if Whole(b, o) && FailsWithin(b, o + Extent(b, o), room - 1) {
      var k :| 0 <= k < room - 1 && BadVersion(b, o + Extent(b, o), k);
      assert BadVersion(b, o, k + 1);
    }
  }

  /**
   A datagram is refused whole if and only if a header of another version stands where one of its
   sub-packets starts, however many good ones are in front.
   */
  lemma {:induction false} RefusedIff<P>(b: Bytes, o: nat, room: nat, f: BodyParser<P>)
    requires o <= |b|
    ensures ParseAt(b, o, room, f).Err? <==> FailsWithin(b, o, room)
    decreases room
  {
    if room > 0 {
      FailsLater(b, o, room);
      if o + 4 <= |b| {
        HeaderRaw(b, o);
        if Whole(b, o) {
          RefusedIff(b, o + Extent(b, o), room - 1, f);
        }
      }
    }
  }

  /** Element `i` is the body of sub-packet `i`, read with byte 1 and the low five bits of byte 0 of its header. */
  ghost predicate ElementIs<P>(b: Bytes, o: nat, i: nat, p: P, f: BodyParser<P>) {
    var t := StartOf(b, o, i);
    && t.Some? && Whole(b, t.value)
    && p == f(b[t.value + 1], b[t.value] % 32, b[t.value + 4..t.value + Extent(b, t.value)])
  }

  ghost predicate ElementsAre<P>(b: Bytes, o: nat, room: nat, ps: seq<P>, f: BodyParser<P>) {
    && (forall i :: 0 <= i < |ps| ==> ElementIs(b, o, i, ps[i], f))
    && (|ps| == room || (|ps| < room && StartOf(b, o, |ps| + 1).None?))
  }

  lemma ElementsShift<P>(b: Bytes, o: nat, room: nat, p: P, ps: seq<P>, f: BodyParser<P>)
    requires room > 0 && Whole(b, o) && ElementIs(b, o, 0, p, f)
    requires ElementsAre(b, o + Extent(b, o), room - 1, ps, f)
    ensures ElementsAre(b, o, room, [p] + ps, f)
  {
    forall i | 0 <= i < 1 + |ps|
      ensures ElementIs(b, o, i, ([p] + ps)[i], f)
    {
      assert i > 0 ==> ElementIs(b, o + Extent(b, o), i - 1, ps[i - 1], f);
    }
  }

  /** Otherwise the elements are the whole sub-packets in front, in order and all of them up to `room`. */
  lemma {:induction false} AcceptedIs<P>(b: Bytes, o: nat, room: nat, f: BodyParser<P>)
    requires o <= |b| && ParseAt(b, o, room, f).Ok?
    ensures ElementsAre(b, o, room, ParseAt(b, o, room, f).value, f)
    decreases room
  {
    if room > 0 && o + 4 <= |b| {
      HeaderRaw(b, o);
      if Whole(b, o) {
        var h, end := HeaderAt(b, o).value, o + Extent(b, o);
        AcceptedIs(b, end, room - 1, f);
        ElementsShift(b, o, room, f(h.packetType, h.count, b[o + 4..end]), ParseAt(b, end, room - 1, f).value, f);
      }
    }
  }

  /** The two together, of a whole datagram and with at most 64 sub-packets. */
  lemma ParseIs(b: Bytes)
    ensures Parse(b).Err? <==> FailsWithin(b, 0, 64)
    ensures Parse(b).Ok? ==> ElementsAre(b, 0, 64, Parse(b).value, ParseBody)
  {
    RefusedIff(b, 0, 64, ParseBody);
    if Parse(b).Ok? {
      AcceptedIs(b, 0, 64, ParseBody);
    }
  }

  /** Equal bytes everywhere outside `lo .. hi - 1`. */
  ghost predicate AgreeOutside(b: Bytes, b': Bytes, lo: int, hi: int) {
    |b| == |b'| && forall i :: 0 <= i < |b| && !(lo <= i < hi) ==> b[i] == b'[i]
  }

  lemma AgreeingHeaders(b: Bytes, b': Bytes, lo: int, hi: int, o: nat)
    requires AgreeOutside(b, b', lo, hi) && o <= |b| && (o + 4 <= lo || hi <= o)
    ensures HeaderAt(b, o) == HeaderAt(b', o)
  {
  }

  lemma AgreeingBodies(b: Bytes, b': Bytes, lo: int, hi: int, s: nat, e: nat)
    requires AgreeOutside(b, b', lo, hi) && s <= e <= |b| && (e <= lo || hi <= s)
    ensures b[s..e] == b'[s..e]
  {
  }

  ghost predicate ParseAlike<P>(b: Bytes, b': Bytes, o: nat, room: nat, f: BodyParser<P>) {
    o <= |b| == |b'| && ParseAt(b, o, room, f) == ParseAt(b', o, room, f)
  }

  /** Behind the difference, both datagrams parse alike. */
  lemma {:induction false} AgreeingTails<P>(b: Bytes, b': Bytes, lo: int, hi: int, o: nat, room: nat, f: BodyParser<P>)
    requires AgreeOutside(b, b', lo, hi) && hi <= o <= |b|
    ensures ParseAlike(b, b', o, room, f)
    decreases room
  {
    if o + 4 <= |b| && room > 0 {
      AgreeingHeaders(b, b', lo, hi, o);
      var h := HeaderAt(b, o);
      if h.Ok? && o + h.value.Size() <= |b| {
        AgreeingBodies(b, b', lo, hi, o + 4, o + h.value.Size());
        AgreeingTails(b, b', lo, hi, o + h.value.Size(), room - 1, f);
      }
    }
  }

  /** Same outcome, and the same packets except at position `k`. */
  ghost predicate SameExceptAt<P>(r: Result<seq<P>>, r': Result<seq<P>>, k: nat) {
    && (r.Ok? <==> r'.Ok?)
    && (r.Ok? ==> |r.value| == |r'.value| && forall i :: 0 <= i < |r.value| && i != k ==> r.value[i] == r'.value[i])
  }

  ghost predicate ParseAlikeExceptAt<P>(b: Bytes, b': Bytes, o: nat, room: nat, f: BodyParser<P>, k: nat) {
    o <= |b| == |b'| && SameExceptAt(ParseAt(b, o, room, f), ParseAt(b', o, room, f), k)
  }

  lemma PrependSame<P>(p: P, p': P, r: Result<seq<P>>, r': Result<seq<P>>, k: nat)
    requires if k == 0 then r == r' else p == p' && SameExceptAt(r, r', k - 1)
    ensures SameExceptAt(Prepend([p], r), Prepend([p'], r'), k)
  {
  }

  /**
   Framing depends on headers alone: replacing the body of the `k`-th sub-packet, which starts
   at `t`, by any bytes of the same length changes at most that one element, however bodies are read.
   */
  lemma {:induction false} BodiesAreIsolated<P>(b: Bytes, b': Bytes, o: nat, k: nat, t: nat, room: nat,
                                               f: BodyParser<P>)
    requires o <= |b| && FrameAt(b, o, k) == Some(t)
    requires AgreeOutside(b, b', t + 4, t + HeaderAt(b, t).value.Size())
    ensures ParseAlikeExceptAt(b, b', o, room, f, k)
    decreases k
  {
    if room > 0 {
      var end := o + HeaderAt(b, o).value.Size();
      if k == 0 {
        IsolatedHere(b, b', o, room, f);
      } else {
        BodiesAreIsolated(b, b', end, k - 1, t, room - 1, f);
        IsolatedLater(b, b', o, k, t, room, f);
      }
    }
  }

  lemma IsolatedHere<P>(b: Bytes, b': Bytes, o: nat, room: nat, f: BodyParser<P>)
    requires room > 0 && HeaderAt(b, o).Ok? && o + HeaderAt(b, o).value.Size() <= |b|
    requires AgreeOutside(b, b', o + 4, o + HeaderAt(b, o).value.Size())
    ensures ParseAlikeExceptAt(b, b', o, room, f, 0)
  {
    var h := HeaderAt(b, o).value;
    var end := o + h.Size();
    AgreeingHeaders(b, b', o + 4, end, o);
    AgreeingTails(b, b', o + 4, end, end, room - 1, f);
    OneFrame(b, o, end, h, room, f);
    OneFrame(b', o, end, h, room, f);
    PrependSame(f(h.packetType, h.count, b[o + 4..end]), f(h.packetType, h.count, b'[o + 4..end]),
                ParseAt(b, end, room - 1, f), ParseAt(b', end, room - 1, f), 0);
  }

  lemma IsolatedLater<P>(b: Bytes, b': Bytes, o: nat, k: nat, t: nat, room: nat, f: BodyParser<P>)
    requires room > 0 && k > 0 && HeaderAt(b, o).Ok?
    requires o + HeaderAt(b, o).value.Size() <= t <= |b| && HeaderAt(b, t).Ok?
    requires AgreeOutside(b, b', t + 4, t + HeaderAt(b, t).value.Size())
    requires ParseAlikeExceptAt(b, b', o + HeaderAt(b, o).value.Size(), room - 1, f, k - 1)
    ensures ParseAlikeExceptAt(b, b', o, room, f, k)
  {
    var lo, hi := t + 4, t + HeaderAt(b, t).value.Size();
    var h := HeaderAt(b, o).value;
    var end := o + h.Size();
    AgreeingHeaders(b, b', lo, hi, o);
    AgreeingBodies(b, b', lo, hi, o + 4, end);
    OneFrame(b, o, end, h, room, f);
    OneFrame(b', o, end, h, room, f);
    PrependSame(f(h.packetType, h.count, b[o + 4..end]), f(h.packetType, h.count, b'[o + 4..end]),
                ParseAt(b, end, room - 1, f), ParseAt(b', end, room - 1, f), k);
  }

  lemma OneFrame<P>(b: Bytes, o: nat, end: nat, h: Header, room: nat, f: BodyParser<P>)
    requires room > 0 && HeaderAt(b, o) == Ok(h) && end == o + h.Size() <= |b|
    ensures ParseAt(b, o, room, f) == Prepend([f(h.packetType, h.count, b[o + 4..end])], ParseAt(b, end, room - 1, f))
  {
  }
}
