/**
 Source admission without authentication: a slot that has carried traffic lately does not
 move to another IP address. Times are nanoseconds of a monotone clock.
 */
module Guard {
  import opened Seq16

  const GRACE := 12_000_000_000

  datatype Addr = Addr(ip: nat, port: U16)

  /** The latched address of a peer and when it was last live. */
  datatype Slot = Slot(current: Option<Addr>, live: Option<nat>)

  function SaturatingSince(now: nat, t: nat): nat {
    if now > t then now - t else 0
  }

  predicate PeerIsProtected(live: Option<nat>, now: nat) {
    live.Some? && SaturatingSince(now, live.value) < GRACE
  }

  predicate PeerMoveAllowed(from: Addr, current: Addr, live: Option<nat>, now: nat) {
    from.ip == current.ip || !PeerIsProtected(live, now)
  }

  predicate SourceAllowed(from: Addr, pinned: Option<nat>, current: Option<Addr>, live: Option<nat>, now: nat) {
    && (pinned.Some? ==> from.ip == pinned.value)
    && (current.Some? ==> PeerMoveAllowed(from, current.value, live, now))
  }

  /** A live slot is kept for 12 s: then, as from the same IP or before it was ever live, it may move. */
  predicate MayTake(ip: nat, current: Option<Addr>, live: Option<nat>, at: nat) {
    current.None? || ip == current.value.ip || live.None? || at >= live.value + 12_000_000_000
  }

  lemma SourceAllowedIff(from: Addr, pinned: Option<nat>, current: Option<Addr>, live: Option<nat>, now: nat)
    ensures SourceAllowed(from, pinned, current, live, now)
            <==> (pinned.None? || from.ip == pinned.value) && MayTake(from.ip, current, live, now)
  {
  }

  // ---- the receiver's media slot ----

  /**
   A burst from `from`, first read at `arrived`; `parsed` tells whether any of its datagrams was
   RTP, and `now` is the clock when the batch is inserted.
   */
  datatype Burst = Burst(from: Addr, arrived: nat, parsed: bool, now: nat)

  /** The media arm: admitted bursts move the latch, but only parsed ones make the slot live. */
  function OnBurst(s: Slot, b: Burst, pinned: Option<nat>): Slot {
    if !SourceAllowed(b.from, pinned, s.current, s.live, b.arrived) then s
    else Slot(Some(b.from), if b.parsed then Some(b.now) else s.live)
  }

  predicate BurstAccepted(s: Slot, b: Burst, pinned: Option<nat>) {
    b.parsed && SourceAllowed(b.from, pinned, s.current, s.live, b.arrived)
  }

  class MediaSlot {
    var senderRtpAddr: Option<Addr>
    var rtpPeerLive: Option<nat>
    const pinnedIp: Option<nat>
    ghost var seen: seq<Burst>

    /** The fields are what every burst seen so far has made of them. */
    ghost predicate Valid()
      reads this
    {
      Slot(senderRtpAddr, rtpPeerLive) == Bursts(seen, pinnedIp).0
    }

    constructor (pinnedIp: Option<nat>)
      ensures Valid() && seen == [] && this.pinnedIp == pinnedIp
    {
      senderRtpAddr, rtpPeerLive := None, None;
      this.pinnedIp := pinnedIp;
      seen := [];
    }

    /** A burst is accepted exactly when the run records a group for it; accepted groups stay spaced. */
    method Receive(b: Burst) returns (accepted: bool)
      requires Valid()
      modifies this
      ensures Valid() && seen == old(seen) + [b]
      ensures var allowed := (pinnedIp.None? || b.from.ip == pinnedIp.value)
                             && MayTake(b.from.ip, old(senderRtpAddr), old(rtpPeerLive), b.arrived);
              && accepted == (b.parsed && allowed)
              && senderRtpAddr == (if allowed then Some(b.from) else old(senderRtpAddr))
              && rtpPeerLive == (if accepted then Some(b.now) else old(rtpPeerLive))
      ensures Bursts(seen, pinnedIp).1
              == Bursts(old(seen), pinnedIp).1 + (if accepted then [Group(b.from.ip, b.arrived, b.now)] else [])
      ensures ClockRuns(seen) ==> Spaced(Bursts(seen, pinnedIp).1)
    {
      seen := seen + [b];
      assert seen[..|seen| - 1] == old(seen);
      if ClockRuns(seen) {
        MediaGroupsSpaced(seen, pinnedIp);
      }
      if !SourceAllowed(b.from, pinnedIp, senderRtpAddr, rtpPeerLive, b.arrived) {
        return false;
      }
      if senderRtpAddr != Some(b.from) {
        senderRtpAddr := Some(b.from);
      }
      if b.parsed {
        rtpPeerLive := Some(b.now);
      }
      accepted := b.parsed;
    }
  }

  // ---- the sender's RTCP slot ----

  /** An RTCP datagram; `decoded` tells whether it parsed to at least one sub-packet. */
  datatype Datagram = Datagram(from: Addr, at: nat, decoded: bool)

  /** The RTCP arm: nothing moves on a datagram that does not decode. */
  function OnDatagram(s: Slot, d: Datagram): Slot {
    if !d.decoded || !SourceAllowed(d.from, None, s.current, s.live, d.at) then s
    else Slot(Some(d.from), Some(d.at))
  }

  predicate DatagramAccepted(s: Slot, d: Datagram) {
    d.decoded && SourceAllowed(d.from, None, s.current, s.live, d.at)
  }

  class RtcpSlot {
    var remoteRtcpAddr: Addr
    var rtcpPeerLive: Option<nat>
    const configured: Addr
    ghost var seen: seq<Datagram>

    ghost predicate Valid()
      reads this
    {
      Slot(Some(remoteRtcpAddr), rtcpPeerLive) == Datagrams(seen, configured).0
    }

    constructor (configured: Addr)
      ensures Valid() && seen == [] && this.configured == configured
    {
      remoteRtcpAddr, rtcpPeerLive := configured, None;
      this.configured := configured;
      seen := [];
    }

    /** A datagram is accepted exactly when the run records a group for it; accepted groups stay spaced. */
    method Receive(d: Datagram) returns (accepted: bool)
      requires Valid()
      modifies this
      ensures Valid() && seen == old(seen) + [d]
      ensures accepted <==> d.decoded && MayTake(d.from.ip, Some(old(remoteRtcpAddr)), old(rtcpPeerLive), d.at)
      ensures remoteRtcpAddr == if accepted then d.from else old(remoteRtcpAddr)
      ensures rtcpPeerLive == if accepted then Some(d.at) else old(rtcpPeerLive)
      ensures Datagrams(seen, configured).1
              == Datagrams(old(seen), configured).1 + (if accepted then [Group(d.from.ip, d.at, d.at)] else [])
      ensures InOrder(seen) ==> Spaced(Datagrams(seen, configured).1)
    {
      seen := seen + [d];
      assert seen[..|seen| - 1] == old(seen);
      if InOrder(seen) {
        RtcpGroupsSpaced(seen, configured);
      }
      if !d.decoded || !PeerMoveAllowed(d.from, remoteRtcpAddr, rtcpPeerLive, d.at) {
        return false;
      }
      if d.from != remoteRtcpAddr {
        remoteRtcpAddr := d.from;
      }
      rtcpPeerLive := Some(d.at);
      accepted := true;
    }
  }

  // ---- whole runs ----

  /** A group the slot accepted: where it came from, when it arrived and when it was booked. */
  datatype Group = Group(ip: nat, arrived: nat, booked: nat)

  /** Slot and accepted groups after a run of bursts. */
  function Bursts(bs: seq<Burst>, pinned: Option<nat>): (Slot, seq<Group>) {
    if bs == [] then (Slot(None, None), [])
    else
      var k := |bs| - 1;
      var (s, gs) := Bursts(bs[..k], pinned);
      (OnBurst(s, bs[k], pinned),
       if BurstAccepted(s, bs[k], pinned) then gs + [Group(bs[k].from.ip, bs[k].arrived, bs[k].now)] else gs)
  }

  function Datagrams(ds: seq<Datagram>, configured: Addr): (Slot, seq<Group>) {
    if ds == [] then (Slot(Some(configured), None), [])
    else
      var k := |ds| - 1;
      var (s, gs) := Datagrams(ds[..k], configured);
      (OnDatagram(s, ds[k]),
       if DatagramAccepted(s, ds[k]) then gs + [Group(ds[k].from.ip, ds[k].at, ds[k].at)] else gs)
  }

  /** The clock never runs backwards, from one burst to the next and within each. */
  ghost predicate ClockRuns(bs: seq<Burst>) {
    && (forall i :: 0 <= i < |bs| ==> bs[i].arrived <= bs[i].now)
    && (forall i, j :: 0 <= i < j < |bs| ==> bs[i].now <= bs[j].arrived)
  }

  ghost predicate InOrder(ds: seq<Datagram>) {
    forall i, j :: 0 <= i < j < |ds| ==> ds[i].at <= ds[j].at
  }

  ghost predicate Spaced(gs: seq<Group>) {
    forall i :: 0 < i < |gs| && gs[i].ip != gs[i - 1].ip ==> gs[i].arrived >= gs[i - 1].booked + 12_000_000_000
  }

  /**
   The slot was last live with the last accepted group, and as long as that is less than the grace
   period ago the latch still points at its IP, even if it moved on bursts that did not parse.
   */
  ghost predicate Pinned(s: Slot, gs: seq<Group>, now: nat) {
    if gs == [] then s.live.None?
    else
      var g := gs[|gs| - 1];
      && s.live == Some(g.booked) && s.current.Some?
      && (now < g.booked + GRACE ==> s.current.value.ip == g.ip)
  }

  /** One admission keeps the spacing. */
  lemma AdmitSpaced(s: Slot, gs: seq<Group>, from: Addr, pinned: Option<nat>, arrived: nat, booked: nat)
    requires Spaced(gs) && Pinned(s, gs, arrived) && arrived <= booked
    requires SourceAllowed(from, pinned, s.current, s.live, arrived)
    ensures Spaced(gs + [Group(from.ip, arrived, booked)])
    ensures forall later: nat :: later >= arrived ==>
              Pinned(Slot(Some(from), Some(booked)), gs + [Group(from.ip, arrived, booked)], later)
    ensures forall later: nat :: later >= arrived ==> Pinned(Slot(Some(from), s.live), gs, later)
  {
  }

  lemma {:induction false} BurstsSpaced(bs: seq<Burst>, pinned: Option<nat>, now: nat)
    requires ClockRuns(bs) && (bs != [] ==> bs[|bs| - 1].now <= now)
    ensures Spaced(Bursts(bs, pinned).1) && Pinned(Bursts(bs, pinned).0, Bursts(bs, pinned).1, now)
    decreases |bs|
  {
    if bs != [] {
      var k := |bs| - 1;
      var b := bs[k];
      BurstsSpaced(bs[..k], pinned, b.arrived);
      BurstsSpaced(bs[..k], pinned, now);
      var (s, gs) := Bursts(bs[..k], pinned);
      if SourceAllowed(b.from, pinned, s.current, s.live, b.arrived) {
        AdmitSpaced(s, gs, b.from, pinned, b.arrived, b.now);
      }
    }
  }

  /**
   In every run, consecutive media groups accepted from different IPs are at least 12 s apart,
   although the latch may move on bursts that do not parse.
   */
  lemma MediaGroupsSpaced(bs: seq<Burst>, pinned: Option<nat>)
    requires ClockRuns(bs)
    ensures Spaced(Bursts(bs, pinned).1)
  {
    BurstsSpaced(bs, pinned, if bs == [] then 0 else bs[|bs| - 1].now);
  }

  lemma {:induction false} DatagramsSpaced(ds: seq<Datagram>, configured: Addr, now: nat)
    requires InOrder(ds)
    requires ds != [] ==> ds[|ds| - 1].at <= now
    ensures Spaced(Datagrams(ds, configured).1) && Pinned(Datagrams(ds, configured).0, Datagrams(ds, configured).1, now)
    decreases |ds|
  {
    if ds != [] {
      var k := |ds| - 1;
      DatagramsSpaced(ds[..k], configured, ds[k].at);
      DatagramsSpaced(ds[..k], configured, now);
      var (s, gs) := Datagrams(ds[..k], configured);
      if DatagramAccepted(s, ds[k]) {
        AdmitSpaced(s, gs, ds[k].from, None, ds[k].at, ds[k].at);
      }
    }
  }

  /** The same spacing for the RTCP datagrams the sender accepts. */
  lemma RtcpGroupsSpaced(ds: seq<Datagram>, configured: Addr)
    requires InOrder(ds)
    ensures Spaced(Datagrams(ds, configured).1)
  {
    DatagramsSpaced(ds, configured, if ds == [] then 0 else ds[|ds| - 1].at);
  }

  // ---- who is let in ----

  lemma {:induction false} LatchFollows(bs: seq<Burst>, pinned: Option<nat>)
    ensures var (s, gs) := Bursts(bs, pinned);
            && (s.live.Some? <==> gs != []) && (gs != [] ==> s.live == Some(gs[|gs| - 1].booked))
            && (pinned.Some? ==> forall i :: 0 <= i < |gs| ==> gs[i].ip == pinned.value)
    decreases |bs|
  {
    if bs != [] {
      var k := |bs| - 1;
      LatchFollows(bs[..k], pinned);
      var s := Bursts(bs[..k], pinned).0;
      SourceAllowedIff(bs[k].from, pinned, s.current, s.live, bs[k].arrived);
    }
  }

  /** With a pin, every group ever accepted has the pinned IP. */
  lemma {:induction false} PinIsObeyed(bs: seq<Burst>, ip: nat)
    ensures var gs := Bursts(bs, Some(ip)).1;
            forall i :: 0 <= i < |gs| ==> gs[i].ip == ip
  {
    LatchFollows(bs, Some(ip));
  }

  /**
   Protection ends: after any run, a parsed burst that comes 12 s or more after the last accepted group,
   or before there was any, is accepted from every IP the pin allows.
   */
  lemma {:induction false} ProtectionEnds(bs: seq<Burst>, pinned: Option<nat>, b: Burst)
    requires b.parsed && (pinned.None? || b.from.ip == pinned.value)
    requires var gs := Bursts(bs, pinned).1;
             gs == [] || b.arrived >= gs[|gs| - 1].booked + 12_000_000_000
    ensures Bursts(bs + [b], pinned).1 == Bursts(bs, pinned).1 + [Group(b.from.ip, b.arrived, b.now)]
  {
    var s := Bursts(bs, pinned).0;
    LatchFollows(bs, pinned);
    SourceAllowedIff(b.from, pinned, s.current, s.live, b.arrived);
    assert (bs + [b])[..|bs|] == bs;
  }

  /** And within these 12 s only the IP of the last accepted group gets in; another one changes nothing. */
  lemma {:induction false} ProtectionHolds(bs: seq<Burst>, pinned: Option<nat>, b: Burst)
    requires ClockRuns(bs + [b])
    requires var gs := Bursts(bs, pinned).1;
             gs != [] && b.arrived < gs[|gs| - 1].booked + 12_000_000_000 && b.from.ip != gs[|gs| - 1].ip
    ensures Bursts(bs + [b], pinned) == Bursts(bs, pinned)
  {
    var (s, gs) := Bursts(bs, pinned);
    assert (bs + [b])[..|bs|] == bs && (bs + [b])[|bs|] == b;
    assert forall i :: 0 <= i < |bs| ==> bs[i] == (bs + [b])[i];
    BurstsSpaced(bs, pinned, b.arrived);
    SourceAllowedIff(b.from, pinned, s.current, s.live, b.arrived);
  }

  lemma {:induction false} FeedbackFollows(ds: seq<Datagram>, configured: Addr)
    ensures var (s, gs) := Datagrams(ds, configured);
            s.current.Some? && s.live == if gs == [] then None else Some(gs[|gs| - 1].booked)
    decreases |ds|
  {
    if ds != [] {
      FeedbackFollows(ds[..|ds| - 1], configured);
    }
  }

  /** The same for feedback: a datagram that decodes gets in 12 s after the last accepted one, from anywhere. */
  lemma {:induction false} FeedbackProtectionEnds(ds: seq<Datagram>, configured: Addr, d: Datagram)
    requires d.decoded
    requires var gs := Datagrams(ds, configured).1;
             gs == [] || d.at >= gs[|gs| - 1].booked + 12_000_000_000
    ensures Datagrams(ds + [d], configured).1 == Datagrams(ds, configured).1 + [Group(d.from.ip, d.at, d.at)]
  {
    var s := Datagrams(ds, configured).0;
    FeedbackFollows(ds, configured);
    SourceAllowedIff(d.from, None, s.current, s.live, d.at);
    assert (ds + [d])[..|ds|] == ds;
  }
}
