/** Receiver report accounting (appendix A.3 of RFC 3550). */
module Reception {
  import opened Seq16
  import opened Codec
  import opened Sequences
  import opened Rtcp

  // ---- the books over unwrapped numbers ----

  /** Numbers `base .. top` were expected so far; the priors are the totals at the last report. */
  datatype Books = Books(base: int, top: int, received: nat, expectedPrior: int, receivedPrior: nat)

  function Expected(b: Books): int { b.top - b.base + 1 }

  function Arrive(b: Books, n: int): Books {
    b.(top := if n > b.top then n else b.top, received := b.received + 1)
  }

  function Close(b: Books): Books {
    b.(expectedPrior := Expected(b), receivedPrior := b.received)
  }

  /** `(lost / expected * 256) as u8`, which saturates. */
  function FractionLost(expected: int, received: int): Byte
    requires expected >= 0
  {
    if expected == 0 || received >= expected then 0
    else
      var q := 256 * (expected - received) / expected;
      if q > 255 then 255 else if q < 0 then 0 else q
  }

  /**
   `q` is the share of `expected` that was not received, in 256ths and rounded down; the byte cannot
   say 256, so a total loss reads 255.
   */
  predicate IsFraction(q: int, expected: int, received: int) {
    if received >= expected then q == 0
    else
      var lost := expected - received;
      0 <= q <= 255 && q * expected <= 256 * lost && (q == 255 || 256 * lost < (q + 1) * expected)
  }

  lemma FractionLostIs(expected: nat, received: nat)
    ensures IsFraction(FractionLost(expected, received), expected, received)
  {
    if received < expected {
      var lost := expected - received;
      var q := 256 * lost / expected;
      QuotientBounds(256 * lost, expected);
      if q > 255 {
        assert 255 * expected <= 256 * lost;
      }
    }
  }

  lemma QuotientBounds(a: nat, b: nat)
    requires b > 0
    ensures a / b * b <= a < (a / b + 1) * b
    ensures a / b > 255 ==> 255 * b <= a
  {
    var q := a / b;
    assert a == q * b + a % b;
    if q > 255 {
      assert q * b >= 256 * b;
    }
  }

  /** The nearest value of 24 signed bits. */
  function Clamp24(x: int): (c: int)
    ensures c == if x < -8388608 then -8388608 else if x > 8388607 then 8388607 else x
  {
    if x < -0x80_0000 then -0x80_0000 else if x > 0x7F_FFFF then 0x7F_FFFF else x
  }

  ghost predicate Sound(b: Books) {
    b.base <= b.top && 0 <= b.expectedPrior <= Expected(b) && b.receivedPrior <= b.received
  }

  /** The low 32 bits, which is what an unsigned counter keeps. */
  function Low32(n: int): U32 { n % 0x1_0000_0000 }

  /** No total has left the range of a 32-bit counter yet. */
  predicate WithinCounters(b: Books) {
    0 <= b.base && b.top < 0x1_0000_0000 && b.received < 0x1_0000_0000 && Expected(b) < 0x1_0000_0000
  }

  /** The block reported from books `b`, every total and interval cut to 32 bits. */
  function Block(b: Books, senderSsrc: U32, jitter: U32, lastSr: U32, delay: U32): ReportBlock {
    ReportBlock(senderSsrc, FractionLost(Low32(Expected(b) - b.expectedPrior), Low32(b.received - b.receivedPrior)),
                Clamp24(Low32(Expected(b)) as int - Low32(b.received) as int), Low32(b.top), jitter, lastSr, delay)
  }

  class RtcpReceiverState {
    const ssrc: U32
    var extendedMaxSeq: U32
    var seqCycles: U16
    var maxSeq: U16
    var firstPacketReceived: bool
    var baseSeq: U16
    var packetsReceived: U32
    var expectedPrior: U32
    var receivedPrior: U32
    ghost var books: Books

    /** The fields are the low 32 bits of the books, however long the session. */
    ghost predicate Valid()
      reads this
    {
      && (!firstPacketReceived ==> seqCycles == 0 && packetsReceived == expectedPrior == receivedPrior == 0)
      && (firstPacketReceived ==>
          && Sound(books) && books.base == baseSeq
          && extendedMaxSeq == seqCycles as int * 0x1_0000 + maxSeq == Low32(books.top)
          && packetsReceived == Low32(books.received)
          && expectedPrior == Low32(books.expectedPrior) && receivedPrior == Low32(books.receivedPrior))
    }

    constructor (ssrc: U32)
      ensures Valid() && !firstPacketReceived && this.ssrc == ssrc
    {
      this.ssrc := ssrc;
      extendedMaxSeq, seqCycles, maxSeq, firstPacketReceived := 0, 0, 0, false;
      baseSeq, packetsReceived, expectedPrior, receivedPrior := 0, 0, 0, 0;
    }

    /** The extended number is the first number plus all forward movement, and never goes back. */
    method OnPacketReceived(wire: U16, isDuplicate: bool)
      requires Valid()
      modifies this
      ensures Valid()
      ensures isDuplicate ==> books == old(books) && firstPacketReceived == old(firstPacketReceived)
      ensures !isDuplicate ==> firstPacketReceived
      ensures !isDuplicate && !old(firstPacketReceived) ==> books == Books(wire, wire, 1, 0, 0)
      ensures !isDuplicate && old(firstPacketReceived) ==>
                books == Arrive(old(books), Unwrap(old(books.top), wire)) && books.top >= old(books.top)
    {
      if isDuplicate {
        return;
      }
      if !firstPacketReceived {
        firstPacketReceived := true;
        baseSeq, maxSeq, extendedMaxSeq := wire, wire, wire;
        books := Books(wire, wire, 0, 0, 0);
      } else {
        var diff := SignedDiff(wire, maxSeq);
        Movement(books.top, seqCycles, maxSeq, wire);
        if diff > 0 {
          if wire < maxSeq {
            seqCycles := WrappingAdd(seqCycles, 1);
          }
          maxSeq := wire;
          extendedMaxSeq := seqCycles as int * 0x1_0000 + wire;
          books := books.(top := books.top + diff);
        }
      }
      Low32OfNext(packetsReceived, books.received, 1);
      packetsReceived := Low32(packetsReceived as int + 1);
      books := books.(received := books.received + 1);
    }

    /**
     A report of the interval since the last one, in 32-bit arithmetic; see `NothingWraps` for what
     that means while the totals fit. The block always survives writing and reading.
     */
    method GenerateRr(senderSsrc: U32, jitter: U32, lastSr: U32, delay: U32) returns (rr: Packet)
      requires Valid()
      modifies `expectedPrior, `receivedPrior, `books
      ensures Valid() && firstPacketReceived == old(firstPacketReceived) && WellFormed(rr)
      ensures !firstPacketReceived ==> rr == ReceiverReport(ssrc, []) && books == old(books)
      ensures firstPacketReceived ==> books == Close(old(books))
      ensures firstPacketReceived ==>
                && rr == ReceiverReport(ssrc, [Block(old(books), senderSsrc, jitter, lastSr, delay)])
                && IsFraction(rr.reports[0].fractionLost, Low32(Expected(books) - old(books.expectedPrior)),
                              Low32(books.received - old(books.receivedPrior)))
    {
      if !firstPacketReceived {
        return ReceiverReport(ssrc, []);
      }
      var expected := Low32(extendedMaxSeq as int - baseSeq as int + 1);
      var expectedInterval := Low32(expected as int - expectedPrior as int);
      var receivedInterval := Low32(packetsReceived as int - receivedPrior as int);
      Low32OfNext(extendedMaxSeq, books.top, 1 - baseSeq as int);
      Low32OfDifference(expected, Expected(books), expectedPrior, books.expectedPrior);
      Low32OfDifference(packetsReceived, books.received, receivedPrior, books.receivedPrior);
      FractionLostIs(expectedInterval, receivedInterval);
      expectedPrior := expected;
      receivedPrior := packetsReceived;
      books := Close(books);
      var lost := Clamp24(expected as int - packetsReceived as int);
      rr := ReceiverReport(ssrc, [ReportBlock(senderSsrc, FractionLost(expectedInterval, receivedInterval), lost,
                                              extendedMaxSeq, jitter, lastSr, delay)]);
    }
  }

  lemma Low32OfNext(low: U32, n: int, k: int)
    requires low == Low32(n)
    ensures Low32(low as int + k) == Low32(n + k)
  {
    var q := n / 0x1_0000_0000;
    assert n + k == low as int + k + 0x1_0000_0000 * q;
    Low32Shift(low as int + k, q);
  }

  lemma Low32Shift(n: int, q: int)
    ensures Low32(n + 0x1_0000_0000 * q) == Low32(n)
  {
  }

  lemma Low32OfDifference(a: U32, x: int, b: U32, y: int)
    requires a == Low32(x) && b == Low32(y)
    ensures Low32(a as int - b as int) == Low32(x - y)
  {
    var p, q := x / 0x1_0000_0000, y / 0x1_0000_0000;
    assert x - y == a as int - b as int + 0x1_0000_0000 * (p - q);
    Low32Shift(a as int - b as int, p - q);
  }

  /**
   While the totals fit the counters no subtraction wraps: the report's intervals are the growth of
   the totals since the last report and its loss is their difference. The intervals stay right even
   after that, as long as each of them fits.
   */
  lemma NothingWraps(b: Books, senderSsrc: U32, jitter: U32, lastSr: U32, delay: U32)
    requires Sound(b)
    ensures var (expected, received) := (Expected(b) - b.expectedPrior, b.received - b.receivedPrior);
            && expected >= 0 && received >= 0
            && (expected < 0x1_0000_0000 && received < 0x1_0000_0000 ==>
                  Block(b, senderSsrc, jitter, lastSr, delay).fractionLost == FractionLost(expected, received))
    ensures WithinCounters(b) ==>
              Block(b, senderSsrc, jitter, lastSr, delay)
              == ReportBlock(senderSsrc, FractionLost(Expected(b) - b.expectedPrior, b.received - b.receivedPrior),
                             Clamp24(Expected(b) - b.received), b.top, jitter, lastSr, delay)
  {
    Low32OfSmall(Expected(b) - b.expectedPrior);
    Low32OfSmall(b.received - b.receivedPrior);
    Low32OfSmall(Expected(b));
    Low32OfSmall(b.received);
    Low32OfSmall(b.top);
  }

  lemma Low32OfSmall(n: int)
    ensures 0 <= n < 0x1_0000_0000 ==> Low32(n) == n
  {
  }

  /** The top moves by the signed distance, and forward movement past 65535 is one more cycle. */
  lemma Movement(top: int, cycles: U16, max: U16, wire: U16)
    requires Low32(top) == cycles as int * 0x1_0000 + max
    ensures Unwrap(top, wire) == top + SignedDiff(wire, max)
    ensures SignedDiff(wire, max) > 0 ==>
              Low32(top + SignedDiff(wire, max))
              == (if wire < max then WrappingAdd(cycles, 1) else cycles) as int * 0x1_0000 + wire
  {
    var q := top / 0x1_0000_0000;
    assert top == (0x1_0000 * q + cycles as int) * 0x1_0000 + max;
    RemainderUnique(top, 0x1_0000 * q + cycles as int, max);
    if SignedDiff(wire, max) > 0 {
      var d := SignedDiff(wire, max);
      var low := cycles as int * 0x1_0000 + max + d;
      Low32Shift(low, q);
      assert top + d == low + 0x1_0000_0000 * q;
      if wire < max {
        assert max + d == 0x1_0000 + wire;
        if cycles == 0xFFFF {
          Low32Shift(wire, 1);
        }
      } else {
        assert max + d == wire;
      }
    }
  }

  // ---- whole runs ----

  datatype Event = Packet(n: int) | Report

  /** What one report said about its interval. */
  datatype Interval = Interval(expected: int, received: int)

  datatype Run = Run(books: Books, forward: int, reports: seq<Interval>)

  /** A run that starts with packet `first`; `forward` adds up every move of the top. */
  function RunOf(first: int, es: seq<Event>): Run {
    if es == [] then Run(Books(first, first, 1, 0, 0), 0, [])
    else
      var k := |es| - 1;
      var r := RunOf(first, es[..k]);
      match es[k]
      case Packet(n) =>
        Run(Arrive(r.books, n), r.forward + (if n > r.books.top then n - r.books.top else 0), r.reports)
      case Report =>
        Run(Close(r.books), r.forward,
            r.reports + [Interval(Expected(r.books) - r.books.expectedPrior, r.books.received - r.books.receivedPrior)])
  }

  function SumExpected(rs: seq<Interval>): int {
    if rs == [] then 0 else SumExpected(rs[..|rs| - 1]) + rs[|rs| - 1].expected
  }

  function SumReceived(rs: seq<Interval>): int {
    if rs == [] then 0 else SumReceived(rs[..|rs| - 1]) + rs[|rs| - 1].received
  }

  /**
   Over every run: the extended number is the first one plus all forward movement, no interval is
   negative, and the reported intervals telescope to the totals at the last report.
   */
  lemma {:induction false} ReportsTelescope(first: int, es: seq<Event>)
    ensures var r := RunOf(first, es);
            && Sound(r.books) && r.books.top == first + r.forward && r.books.base == first
            && (forall i :: 0 <= i < |r.reports| ==> r.reports[i].expected >= 0 && r.reports[i].received >= 0)
            && SumExpected(r.reports) == r.books.expectedPrior
            && SumReceived(r.reports) == r.books.receivedPrior
    decreases |es|
  {
    if es != [] {
      var k := |es| - 1;
      ReportsTelescope(first, es[..k]);
      var r, r' := RunOf(first, es[..k]), RunOf(first, es);
      if es[k].Report? {
        assert r'.reports[..|r'.reports| - 1] == r.reports;
      }
    }
  }

  // ---- what a report says about the run ----

  /** The highest number of the run. */
  function Top(first: int, es: seq<Event>): int {
    if es == [] then first
    else
      var t, e := Top(first, es[..|es| - 1]), es[|es| - 1];
      if e.Packet? && e.n > t then e.n else t
  }

  lemma {:induction false} TopIsHighest(first: int, es: seq<Event>)
    ensures first <= Top(first, es) && forall e :: e in es && e.Packet? ==> e.n <= Top(first, es)
    ensures Top(first, es) == first || Packet(Top(first, es)) in es
    decreases |es|
  {
    if es != [] {
      var k := |es| - 1;
      TopIsHighest(first, es[..k]);
      assert es == es[..k] + [es[k]];
    }
  }

  predicate IsPacket(e: Event) { e.Packet? }

  /** The packets of the run; the first one started it. */
  function Received(es: seq<Event>): nat {
    1 + Count(es, IsPacket)
  }

  /** The run up to and with its last report. */
  function Reported(es: seq<Event>): seq<Event> {
    if es == [] || es[|es| - 1].Report? then es else Reported(es[..|es| - 1])
  }

  lemma ReceivedSnoc(es: seq<Event>, e: Event)
    ensures Received(es + [e]) == Received(es) + (if e.Packet? then 1 else 0)
  {
    CountConcat(es, [e], IsPacket);
  }

  /** The books hold the highest number and the number of packets, now and at the last report. */
  lemma {:induction false} BooksOfRun(first: int, es: seq<Event>)
    ensures var b, was := RunOf(first, es).books, Reported(es);
            && b.base == first && b.top == Top(first, es) && b.received == Received(es)
            && b.expectedPrior == (if was == [] then 0 else Top(first, was) - first + 1)
            && b.receivedPrior == (if was == [] then 0 else Received(was))
    decreases |es|
  {
    if es != [] {
      var k := |es| - 1;
      BooksOfRun(first, es[..k]);
      assert es == es[..k] + [es[k]];
      ReceivedSnoc(es[..k], es[k]);
    }
  }

  lemma BlockSays(b: Books, senderSsrc: U32, jitter: U32, lastSr: U32, delay: U32)
    requires Sound(b) && WithinCounters(b)
    ensures var q := Block(b, senderSsrc, jitter, lastSr, delay);
            && q.ssrc == senderSsrc && q.jitter == jitter && q.lastSr == lastSr && q.delay == delay
            && q.highest == b.top && q.cumulativeLost == Clamp24(b.top - b.base + 1 - b.received)
            && IsFraction(q.fractionLost, b.top - b.base + 1 - b.expectedPrior, b.received - b.receivedPrior)
  {
    NothingWraps(b, senderSsrc, jitter, lastSr, delay);
    FractionLostIs(Expected(b) - b.expectedPrior, b.received - b.receivedPrior);
  }

  /**
   What the block reported after a run says, while the totals fit the counters: the highest number; all
   numbers up to it less the packets received, cut to 24 bits; and, of the numbers that became due since
   the last report, the share for which no packet came.
   */
  lemma ReportSays(first: U16, es: seq<Event>, senderSsrc: U32, jitter: U32, lastSr: U32, delay: U32)
    requires WithinCounters(RunOf(first, es).books)
    ensures var q, was := Block(RunOf(first, es).books, senderSsrc, jitter, lastSr, delay), Reported(es);
            && q.ssrc == senderSsrc && q.jitter == jitter && q.lastSr == lastSr && q.delay == delay
            && q.highest == Top(first, es)
            && q.cumulativeLost == Clamp24(Top(first, es) - first + 1 - Received(es))
            && IsFraction(q.fractionLost,
                          if was == [] then Top(first, es) - first + 1 else Top(first, es) - Top(first, was),
                          if was == [] then Received(es) else Received(es) - Received(was))
  {
    var b := RunOf(first, es).books;
    BooksOfRun(first, es);
    ReportsTelescope(first, es);
    BlockSays(b, senderSsrc, jitter, lastSr, delay);
  }
}
