/**
 What one RTCP datagram makes the sender retransmit: every NACK sub-packet is walked
 lazily under one work budget for the whole datagram.
 */
module Service {
  import opened Seq16
  import opened Sequences
  import opened Codec
  import opened NackEntries
  import opened Rtcp
  import opened Retransmit
  import Rtp

  const MIN_RETX := 512
  const MAX_RETX := 8192

  /** `retransmit_capacity.clamp(512, 8192)`. */
  function RetxBudget(capacity: nat): (r: nat)
    ensures 512 <= r <= 8192 && (512 <= capacity <= 8192 ==> r == capacity)
    ensures (capacity <= 512 ==> r == 512) && (capacity >= 8192 ==> r == 8192)
  {
    if capacity < MIN_RETX then MIN_RETX else if capacity > MAX_RETX then MAX_RETX else capacity
  }

  /** Four numbers may be looked up for each packet that may be sent. */
  function ScanBudget(capacity: nat): (s: nat)
    ensures 2048 <= s <= 32768 && (512 <= capacity <= 8192 ==> s == 4 * capacity)
  {
    4 * RetxBudget(capacity)
  }

  class NackWorkBudget {
    var scan: nat
    var retx: nat

    constructor (capacity: nat)
      ensures scan == ScanBudget(capacity) && retx == RetxBudget(capacity)
    {
      scan, retx := ScanBudget(capacity), RetxBudget(capacity);
    }

    method ChargeScan() returns (ok: bool)
      modifies `scan
      ensures ok == (old(scan) > 0) && scan == old(scan) - (if ok then 1 else 0)
    {
      ok := scan != 0;
      if ok {
        scan := scan - 1;
      }
    }

    method ChargeRetx() returns (ok: bool)
      modifies `retx
      ensures ok == (old(retx) > 0) && retx == old(retx) - (if ok then 1 else 0)
    {
      ok := retx != 0;
      if ok {
        retx := retx - 1;
      }
    }
  }

  /** Does a NACK naming `media` refer to what we sent? The low bit is the retransmit flag; zero is accepted. */
  predicate TargetsUs(media: U32, ours: U32) {
    media == 0 || media / 2 == ours / 2
  }

  /** A NACK is for us if it names no SSRC, ours, or ours with the retransmit flag in the low bit; and no other. */
  lemma TargetsIff(media: U32, ours: U32)
    ensures TargetsUs(media, ours) <==> media == 0 || media == ours - ours % 2 || media == ours - ours % 2 + 1
  {
  }

  /** The numbers a sub-packet asks us for, in the order they are walked. */
  function Asked(p: Packet, ours: U32): seq<U16> {
    match p
    case Nack(_, media, Bitmask(es)) => if TargetsUs(media, ours) then Expand(es) else []
    case Nack(_, media, Range(es)) => if TargetsUs(media, ours) then ExpandRange(es) else []
    case AppPacket(RangeRequest(media, es)) => if TargetsUs(media, ours) then ExpandRange(es) else []
    case _ => []
  }

  function AskedAll(ps: seq<Packet>, ours: U32): seq<U16> {
    if ps == [] then [] else Asked(ps[0], ours) + AskedAll(ps[1..], ours)
  }

  // ---- the walk ----

  /** Numbers retransmitted, what is left of the budget, and whether it ran out. */
  datatype Walk = Walk(sent: seq<U16>, scan: nat, retx: nat, spent: bool)

  type Resident = U16 -> bool

  function WalkList(l: seq<U16>, scan: nat, retx: nat, held: Resident): Walk {
    if l == [] then Walk([], scan, retx, false)
    else if scan == 0 then Walk([], 0, retx, true)
    else if !held(l[0]) then WalkList(l[1..], scan - 1, retx, held)
    else if retx == 0 then Walk([], scan - 1, 0, true)
    else
      var w := WalkList(l[1..], scan - 1, retx - 1, held);
      w.(sent := [l[0]] + w.sent)
  }

  /** The simple statement: the first `scan` numbers, the resident ones of these, the first `retx` of those. */
  function Serve(l: seq<U16>, scan: nat, retx: nat, held: Resident): seq<U16> {
    Take(Filter(Take(l, scan), held), retx)
  }

  lemma ServeHead(l: seq<U16>, scan: nat, retx: nat, held: Resident)
    requires l != [] && scan > 0
    ensures !held(l[0]) ==> Serve(l, scan, retx, held) == Serve(l[1..], scan - 1, retx, held)
    ensures held(l[0]) && retx > 0 ==> Serve(l, scan, retx, held) == [l[0]] + Serve(l[1..], scan - 1, retx - 1, held)
  {
    var rest := Take(l[1..], scan - 1);
    assert Take(l, scan)[0] == l[0] && Take(l, scan)[1..] == rest;
    var f := Filter(rest, held);
    assert [] + f == f;
    if retx > 0 {
      assert Take([l[0]] + f, retx) == [l[0]] + Take(f, retx - 1);
    }
  }

  lemma {:induction false} WalkServes(l: seq<U16>, scan: nat, retx: nat, held: Resident)
    ensures WalkList(l, scan, retx, held).sent == Serve(l, scan, retx, held)
  {
    if l != [] && scan > 0 {
      ServeHead(l, scan, retx, held);
      if !held(l[0]) {
        WalkServes(l[1..], scan - 1, retx, held);
      } else if retx > 0 {
        WalkServes(l[1..], scan - 1, retx - 1, held);
      }
    }
  }

  /** No more than `retx` packets go out, all of them held and among the first `scan` asked for; and if fewer go
      out, then every one of these that is held does. */
  lemma {:induction false} ServeKeepsBudget(l: seq<U16>, scan: nat, retx: nat, held: Resident)
    ensures var sent, near := Serve(l, scan, retx, held), if scan <= |l| then l[..scan] else l;
            && |sent| <= retx
            && (forall w :: w in sent ==> w in near && held(w))
            && (|sent| < retx ==> forall w :: w in near && held(w) ==> w in sent)
  {
    FilterMembers(Take(l, scan), held);
    var f := Filter(Take(l, scan), held);
    assert forall w :: w in Take(f, retx) ==> w in f;
  }

  /** Walking on after a list that did not exhaust the budget is walking the concatenation. */
  lemma {:induction false} WalkConcat(a: seq<U16>, b: seq<U16>, scan: nat, retx: nat, held: Resident)
    ensures var w := WalkList(a, scan, retx, held);
            var v := WalkList(b, w.scan, w.retx, held);
            WalkList(a + b, scan, retx, held) == if w.spent then w else v.(sent := w.sent + v.sent)
  {
    if a == [] {
      assert a + b == b;
      var v := WalkList(b, scan, retx, held);
      assert [] + v.sent == v.sent;
    } else {
      assert (a + b)[0] == a[0] && (a + b)[1..] == a[1..] + b;
      if scan > 0 {
        if !held(a[0]) {
          WalkConcat(a[1..], b, scan - 1, retx, held);
        } else if retx > 0 {
          WalkConcat(a[1..], b, scan - 1, retx - 1, held);
          var w := WalkList(a[1..], scan - 1, retx - 1, held);
          var v := WalkList(b, w.scan, w.retx, held);
          assert [a[0]] + (w.sent + v.sent) == ([a[0]] + w.sent) + v.sent;
        }
      }
    }
  }

  // ---- the loops ----

  function Copies(ws: seq<U16>, log: seq<Entry>, bits: nat): (r: seq<Bytes>)
    requires forall i :: 0 <= i < |ws| ==> Lookup(log, ws[i], bits).Some?
    ensures |r| == |ws|
  {
    seq(|ws|, i requires 0 <= i < |ws| => Rtp.Flagged(Lookup(log, ws[i], bits).value))
  }

  function Holds(log: seq<Entry>, bits: nat): Resident {
    (w: U16) => Lookup(log, w, bits).Some?
  }

  /** All of `ws` are held, and `copies` are their flagged packets, in that order. */
  ghost predicate Answers(copies: seq<Bytes>, ws: seq<U16>, log: seq<Entry>, bits: nat) {
    (forall i :: 0 <= i < |ws| ==> Lookup(log, ws[i], bits).Some?) && copies == Copies(ws, log, bits)
  }

  lemma AnswersConcat(c: seq<Bytes>, a: seq<U16>, d: seq<Bytes>, b: seq<U16>, log: seq<Entry>, bits: nat)
    requires Answers(c, a, log, bits) && Answers(d, b, log, bits)
    ensures Answers(c + d, a + b, log, bits)
  {
  }

  lemma AnswersSnoc(c: seq<Bytes>, a: seq<U16>, w: U16, log: seq<Entry>, bits: nat)
    requires Answers(c, a, log, bits) && Lookup(log, w, bits).Some?
    ensures Answers(c + [Rtp.Flagged(Lookup(log, w, bits).value)], a + [w], log, bits)
  {
  }

  /** `whole` is what was sent so far and then the walk of what is left to serve. */
  ghost predicate Remaining(whole: Walk, sent: seq<U16>, l: seq<U16>, scan: nat, retx: nat, held: Resident) {
    var w := WalkList(l, scan, retx, held);
    whole == w.(sent := sent + w.sent)
  }

  lemma RemainingAfter(whole: Walk, sent: seq<U16>, a: seq<U16>, b: seq<U16>, scan: nat, retx: nat, held: Resident)
    requires Remaining(whole, sent, a + b, scan, retx, held)
    ensures var w := WalkList(a, scan, retx, held);
            if w.spent then whole.sent == sent + w.sent
            else Remaining(whole, sent + w.sent, b, w.scan, w.retx, held)
  {
    WalkConcat(a, b, scan, retx, held);
    var w := WalkList(a, scan, retx, held);
    var v := WalkList(b, w.scan, w.retx, held);
    assert sent + (w.sent + v.sent) == (sent + w.sent) + v.sent;
  }

  /** One number: out of scans, not held, out of retransmits, or retransmitted. */
  lemma RemainingNext(whole: Walk, sent: seq<U16>, l: seq<U16>, i: nat, scan: nat, retx: nat, held: Resident)
    requires i < |l| && Remaining(whole, sent, l[i..], scan, retx, held)
    ensures if scan == 0 then whole == Walk(sent, 0, retx, true)
            else if !held(l[i]) then Remaining(whole, sent, l[i + 1..], scan - 1, retx, held)
            else if retx == 0 then whole == Walk(sent, scan - 1, 0, true)
            else Remaining(whole, sent + [l[i]], l[i + 1..], scan - 1, retx - 1, held)
  {
    assert l[i..][0] == l[i] && l[i..][1..] == l[i + 1..];
    assert sent + [] == sent;
    if scan > 0 && retx > 0 {
      var rest := WalkList(l[i + 1..], scan - 1, retx - 1, held).sent;
      assert sent + ([l[i]] + rest) == (sent + [l[i]]) + rest;
    }
  }

  /** `serve_nack_entries`: walk a list, charging the budget, and put the flagged copies on the wire. */
  method ServeEntries(l: seq<U16>, ring: RetransmitBuffer, budget: NackWorkBudget)
    returns (copies: seq<Bytes>, spent: bool, ghost sent: seq<U16>)
    requires ring.Valid()
    modifies budget
    ensures ring.Valid() && ring.log == old(ring.log)
    ensures Walk(sent, budget.scan, budget.retx, spent)
            == WalkList(l, old(budget.scan), old(budget.retx), Holds(ring.log, ring.bits))
    ensures Answers(copies, sent, ring.log, ring.bits)
  {
    ghost var held := Holds(ring.log, ring.bits);
    ghost var whole := WalkList(l, budget.scan, budget.retx, held);
    copies, sent := [], [];
    assert l[0..] == l && [] + whole.sent == whole.sent;
    for i := 0 to |l|
      invariant ring.Valid() && ring.log == old(ring.log)
      invariant Remaining(whole, sent, l[i..], budget.scan, budget.retx, held)
      invariant Answers(copies, sent, ring.log, ring.bits)
    {
      RemainingNext(whole, sent, l, i, budget.scan, budget.retx, held);
      var ok := budget.ChargeScan();
      if !ok {
        return copies, true, sent;
      }
      var pkt := ring.Get(l[i]);
      if pkt.None? {
        continue;
      }
      ok := budget.ChargeRetx();
      if !ok {
        return copies, true, sent;
      }
      AnswersSnoc(copies, sent, l[i], ring.log, ring.bits);
      copies := copies + [Rtp.Flagged(pkt.value)];
      sent := sent + [l[i]];
    }
    assert l[|l|..] == [] && sent + [] == sent;
    spent := false;
  }

  /** The sub-packet loop: one budget for the whole datagram, left as soon as it is spent. */
  method ServePackets(ps: seq<Packet>, ring: RetransmitBuffer, ours: U32, budget: NackWorkBudget)
    returns (copies: seq<Bytes>, ghost sent: seq<U16>)
    requires ring.Valid()
    modifies budget
    ensures ring.Valid() && ring.log == old(ring.log)
    ensures sent == WalkList(AskedAll(ps, ours), old(budget.scan), old(budget.retx), Holds(ring.log, ring.bits)).sent
    ensures Answers(copies, sent, ring.log, ring.bits)
  {
    ghost var held := Holds(ring.log, ring.bits);
    ghost var whole := WalkList(AskedAll(ps, ours), budget.scan, budget.retx, held);
    copies, sent := [], [];
    assert ps[0..] == ps && [] + whole.sent == whole.sent;
    for i := 0 to |ps|
      invariant ring.Valid() && ring.log == old(ring.log)
      invariant Remaining(whole, sent, AskedAll(ps[i..], ours), budget.scan, budget.retx, held)
      invariant Answers(copies, sent, ring.log, ring.bits)
    {
      assert ps[i..][0] == ps[i] && ps[i..][1..] == ps[i + 1..];
      RemainingAfter(whole, sent, Asked(ps[i], ours), AskedAll(ps[i + 1..], ours), budget.scan, budget.retx, held);
      var more, spent;
      ghost var added;
      more, spent, added := ServeEntries(Asked(ps[i], ours), ring, budget);
      AnswersConcat(copies, sent, more, added, ring.log, ring.bits);
      copies, sent := copies + more, sent + added;
      if spent {
        return;
      }
    }
    assert sent + [] == sent;
  }

  /**
   The RTCP arm, given the sub-packets: what goes out is the simple statement applied to all
   numbers asked for, whatever the mix of sub-packets.
   */
  method ServeDatagram(ps: seq<Packet>, ring: RetransmitBuffer, ours: U32) returns (copies: seq<Bytes>)
    requires ring.Valid()
    ensures Answers(copies,
                    Serve(AskedAll(ps, ours), ScanBudget(ring.capacity), RetxBudget(ring.capacity),
                          Holds(ring.log, ring.bits)),
                    ring.log, ring.bits)
  {
    var budget := new NackWorkBudget(ring.capacity);
    WalkServes(AskedAll(ps, ours), budget.scan, budget.retx, Holds(ring.log, ring.bits));
    ghost var sent;
    copies, sent := ServePackets(ps, ring, ours, budget);
  }

  // ---- honest requests are served in full ----

  ghost predicate NoRepeats(l: seq<U16>) {
    forall i, j :: 0 <= i < j < |l| ==> l[i] != l[j]
  }

  lemma {:induction false} FilterNoRepeats(l: seq<U16>, held: Resident)
    requires NoRepeats(l)
    ensures NoRepeats(Filter(l, held))
  {
    if l != [] {
      var rest := Filter(l[1..], held);
      FilterNoRepeats(l[1..], held);
      FilterMembers(l[1..], held);
      forall i | 0 <= i < |rest|
        ensures rest[i] != l[0]
      {
        assert rest[i] in rest && rest[i] in l[1..];
      }
    }
  }

  lemma AmpleBudget(l: seq<U16>, scan: nat, retx: nat, held: Resident)
    requires |l| <= scan && |Filter(l, held)| <= retx
    ensures Serve(l, scan, retx, held) == Filter(l, held)
  {
    assert Take(l, scan) == l;
    assert Take(Filter(l, held), retx) == Filter(l, held);
  }

  /**
   With at most 8192 ring slots, a datagram that names no number twice and at most `scan` numbers
   gets every resident packet it names, once each and in order: the residents occupy distinct
   slots, so the retransmit budget cannot run out.
   */
  lemma ResidentsAllServed(l: seq<U16>, log: seq<Entry>, bits: nat)
    requires Pow2(bits) <= MAX_RETX && NoRepeats(l) && |l| <= ScanBudget(Pow2(bits))
    ensures Serve(l, ScanBudget(Pow2(bits)), RetxBudget(Pow2(bits)), Holds(log, bits)) == Filter(l, Holds(log, bits))
  {
    var held := Holds(log, bits);
    var f := Filter(l, held);
    FilterNoRepeats(l, held);
    FilterMembers(l, held);
    forall i | 0 <= i < |f|
      ensures Lookup(log, f[i], bits).Some?
    {
      assert f[i] in f && held(f[i]);
    }
    ResidentAtMostCapacity(log, f, bits);
    AmpleBudget(l, ScanBudget(Pow2(bits)), RetxBudget(Pow2(bits)), held);
  }
}
