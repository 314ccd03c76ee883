/**
 NACK entries (section 6.2.1 of RFC 4585, section 5.3.2.2 of TR-06-1:2020) and the
 builders that pack a sorted list of lost numbers into them.
 */
module NackEntries {
  import opened Seq16
  import opened Bits
  import opened Sequences

  // ---- bitmask entries ----

  datatype BitmaskNack = BitmaskNack(pid: U16, blp: U16)

  function LostFrom(pid: U16, blp: nat, i: nat): seq<U16>
    requires i <= 16
    decreases 16 - i, blp
  {
    if i == 16 then []
    else (if TestBit(blp, i) then [WrappingAdd(pid, i + 1)] else []) + LostFrom(pid, blp, i + 1)
  }

  /** The numbers an entry names: its pid, then one per bit. */
  function LostSeqs(e: BitmaskNack): seq<U16> {
    [e.pid] + LostFrom(e.pid, e.blp, 0)
  }

  function Expand(es: seq<BitmaskNack>): seq<U16> {
    if es == [] then [] else LostSeqs(es[0]) + Expand(es[1..])
  }

  /** Bit `j` is set and stands for `x`. */
  predicate BitNames(pid: U16, blp: nat, j: nat, x: U16)
    requires j < 16
  {
    TestBit(blp, j) && x == WrappingAdd(pid, j + 1)
  }

  lemma {:induction false} LostFromIff(pid: U16, blp: nat, i: nat, x: U16)
    requires i <= 16
    ensures x in LostFrom(pid, blp, i) <==> exists j :: i <= j < 16 && BitNames(pid, blp, j, x)
    decreases 16 - i
  {
    if i < 16 {
      LostFromIff(pid, blp, i + 1, x);
      var head := if TestBit(blp, i) then [WrappingAdd(pid, i + 1)] else [];
      assert LostFrom(pid, blp, i) == head + LostFrom(pid, blp, i + 1);
      assert x in head <==> BitNames(pid, blp, i, x);
    }
  }

  /** An entry names its pid and, for each bit `j` that is set, the number `j + 1` after it. */
  lemma NamesIff(e: BitmaskNack, x: U16)
    ensures x in LostSeqs(e) <==> x == e.pid || exists j :: 0 <= j < 16 && BitNames(e.pid, e.blp, j, x)
  {
    LostFromIff(e.pid, e.blp, 0, x);
  }

  predicate InMask(pid: U16, x: U16) {
    1 <= WrappingSub(x, pid) <= 16
  }

  /** `blp | 1 << (x - pid - 1)`. */
  function AddToMask(blp: U16, pid: U16, x: U16): U16
    requires InMask(pid, x)
  {
    Pow2Of16();
    SetBitBound(blp, WrappingSub(x, pid) - 1, 16);
    SetBit(blp, WrappingSub(x, pid) - 1)
  }

  /** The first position from `i` on whose number does not fit the mask of the one at `s`. */
  function RunEnd(l: seq<U16>, s: nat, i: nat): (e: nat)
    requires s < i <= |l|
    ensures i <= e <= |l|
    ensures forall j :: i <= j < e ==> InMask(l[s], l[j])
    ensures e < |l| ==> !InMask(l[s], l[e])
    decreases |l| - i
  {
    if i < |l| && InMask(l[s], l[i]) then RunEnd(l, s, i + 1) else i
  }

  function MaskTo(l: seq<U16>, s: nat, e: nat): U16
    requires s < e <= |l| && forall j :: s < j < e ==> InMask(l[s], l[j])
    decreases e
  {
    if e == s + 1 then 0 else AddToMask(MaskTo(l, s, e - 1), l[s], l[e - 1])
  }

  function PackFrom(l: seq<U16>, s: nat): seq<BitmaskNack>
    requires s <= |l|
    decreases |l| - s
  {
    if s == |l| then []
    else
      var e := RunEnd(l, s, s + 1);
      [BitmaskNack(l[s], MaskTo(l, s, e))] + PackFrom(l, e)
  }

  function PackBitmask(l: seq<U16>): seq<BitmaskNack> {
    PackFrom(l, 0)
  }

  /** The packing loop. */
  method BuildBitmask(l: seq<U16>) returns (nacks: seq<BitmaskNack>)
    ensures nacks == PackBitmask(l)
  {
    nacks := [];
    var i := 0;
    while i < |l|
      invariant i <= |l| && nacks + PackFrom(l, i) == PackBitmask(l)
    {
      var entry, e := BuildEntry(l, i);
      assert nacks + ([entry] + PackFrom(l, e)) == (nacks + [entry]) + PackFrom(l, e);
      nacks := nacks + [entry];
      i := e;
    }
  }

  /** One round: the entry for the number at `s` and the position where the next one starts. */
  method BuildEntry(l: seq<U16>, s: nat) returns (entry: BitmaskNack, i: nat)
    requires s < |l|
    ensures i == RunEnd(l, s, s + 1) && entry == BitmaskNack(l[s], MaskTo(l, s, i))
  {
    var blp: U16 := 0;
    i := s + 1;
    while i < |l| && InMask(l[s], l[i])
      invariant s < i <= |l| && RunEnd(l, s, i) == RunEnd(l, s, s + 1)
      invariant forall j :: s < j < i ==> InMask(l[s], l[j])
      invariant blp == MaskTo(l, s, i)
    {
      blp := AddToMask(blp, l[s], l[i]);
      i := i + 1;
    }
    entry := BitmaskNack(l[s], blp);
  }

  // ---- what the mask remembers ----

  /** Some number strictly between `s` and `e` lies `d` after the one at `s`. */
  ghost predicate Names(l: seq<U16>, s: nat, e: nat, d: int)
    requires s < e <= |l|
  {
    exists j :: s < j < e && WrappingSub(l[j], l[s]) == d
  }

  lemma {:induction false} MaskTests(l: seq<U16>, s: nat, e: nat, i: nat)
    requires s < e <= |l| && forall j :: s < j < e ==> InMask(l[s], l[j])
    ensures TestBit(MaskTo(l, s, e), i) <==> Names(l, s, e, i + 1)
    decreases e
  {
    if e == s + 1 {
      ZeroHasNoBits(i);
    } else {
      MaskTests(l, s, e - 1, i);
      SetBitTests(MaskTo(l, s, e - 1), WrappingSub(l[e - 1], l[s]) - 1, i);
      NamesSnoc(l, s, e, i + 1);
    }
  }

  lemma NamesSnoc(l: seq<U16>, s: nat, e: nat, d: int)
    requires s + 1 < e <= |l|
    ensures Names(l, s, e, d) <==> Names(l, s, e - 1, d) || WrappingSub(l[e - 1], l[s]) == d
  {
    if Names(l, s, e - 1, d) {
      var j :| s < j < e - 1 && WrappingSub(l[j], l[s]) == d;
      assert s < j < e;
    }
  }

  lemma SliceHead<T>(l: seq<T>, s: nat, e: nat)
    requires s < e <= |l|
    ensures l[s..e] == [l[s]] + l[s + 1..e]
  {
  }

  lemma SliceSplit<T>(l: seq<T>, s: nat, e: nat)
    requires s <= e <= |l|
    ensures l[s..] == l[s..e] + l[e..]
  {
  }

  /**
   Reading the bits from `i` upwards gives back the numbers from position `k` on, if these are
   the ones more than `i` after the pid.
   */
  lemma {:induction false} LostFromMask(l: seq<U16>, s: nat, e: nat, k: nat, i: nat)
    requires Ascending(l) && s < k <= e <= |l| && i <= 16
    requires forall j :: s < j < e ==> InMask(l[s], l[j])
    requires forall j :: s < j < e ==> (j < k <==> l[j] - l[s] <= i)
    ensures LostFrom(l[s], MaskTo(l, s, e), i) == l[k..e]
    decreases 16 - i
  {
    if i < 16 {
      MaskTests(l, s, e, i);
      if k < e && l[k] - l[s] == i + 1 {
        assert Names(l, s, e, i + 1);
        LostFromMask(l, s, e, k + 1, i + 1);
        SliceHead(l, k, e);
      } else {
        assert !Names(l, s, e, i + 1);
        LostFromMask(l, s, e, k, i + 1);
      }
    }
  }

  lemma FirstIsLeast(l: seq<U16>, s: nat, e: nat)
    requires Ascending(l) && s < e <= |l|
    ensures forall j :: s < j < e ==> (j < s + 1 <==> l[j] - l[s] <= 0)
  {
    forall j | s < j < e
      ensures l[j] - l[s] > 0
    {
      assert l[s] < l[j];
    }
  }

  lemma EntryIsExact(l: seq<U16>, s: nat)
    requires Ascending(l) && s < |l|
    ensures var e := RunEnd(l, s, s + 1);
            LostSeqs(BitmaskNack(l[s], MaskTo(l, s, e))) == l[s..e]
  {
    var e := RunEnd(l, s, s + 1);
    assert forall j :: s < j < e ==> InMask(l[s], l[j]);
    FirstIsLeast(l, s, e);
    LostFromMask(l, s, e, s + 1, 0);
    SliceHead(l, s, e);
  }

  lemma ExpandCons(e: BitmaskNack, es: seq<BitmaskNack>)
    ensures Expand([e] + es) == LostSeqs(e) + Expand(es)
  {
    assert ([e] + es)[1..] == es;
  }

  lemma {:induction false} PackFromIsExact(l: seq<U16>, s: nat)
    requires Ascending(l) && s <= |l|
    ensures Expand(PackFrom(l, s)) == l[s..]
    decreases |l| - s
  {
    if s < |l| {
      var e := RunEnd(l, s, s + 1);
      var head := BitmaskNack(l[s], MaskTo(l, s, e));
      EntryIsExact(l, s);
      PackFromIsExact(l, e);
      ExpandCons(head, PackFrom(l, e));
      SliceSplit(l, s, e);
    }
  }

  /** Packing a strictly ascending list and expanding the entries gives the list back, in order. */
  lemma PackIsExact(l: seq<U16>)
    requires Ascending(l)
    ensures Expand(PackBitmask(l)) == l
  {
    PackFromIsExact(l, 0);
    assert l[0..] == l;
  }

  // ---- range entries ----

  datatype RangeNack = RangeNack(start: U16, extra: U16)

  function RangeLost(e: RangeNack): (r: seq<U16>)
    ensures |r| == e.extra + 1
    ensures forall i :: 0 <= i <= e.extra ==> r[i] == WrappingAdd(e.start, i)
  {
    seq(e.extra + 1, i requires 0 <= i <= e.extra => WrappingAdd(e.start, i))
  }

  function ExpandRange(es: seq<RangeNack>): seq<U16> {
    if es == [] then [] else RangeLost(es[0]) + ExpandRange(es[1..])
  }

  /** A list of ranges names what its entries name: each start and the `extra` numbers after it. */
  lemma {:induction false} ExpandRangeIff(es: seq<RangeNack>, x: U16)
    ensures x in ExpandRange(es)
            <==> exists i :: 0 <= i < |es| && WrappingSub(x, es[i].start) <= es[i].extra
  {
    if es != [] {
      ExpandRangeIff(es[1..], x);
      InRangeIff(es[0], x);
      assert ExpandRange(es) == RangeLost(es[0]) + ExpandRange(es[1..]);
      assert forall i :: 0 <= i < |es| - 1 ==> es[1..][i] == es[i + 1];
      assert forall i :: 0 < i < |es| ==> es[i] == es[1..][i - 1];
    }
  }

  lemma InRangeIff(e: RangeNack, x: U16)
    ensures x in RangeLost(e) <==> WrappingSub(x, e.start) <= e.extra
  {
    if WrappingSub(x, e.start) <= e.extra {
      assert RangeLost(e)[WrappingSub(x, e.start)] == x;
    }
  }

  /** The first position from `i` on that does not continue the run begun at `s`. */
  function ConsecutiveEnd(l: seq<U16>, s: nat, i: nat): (e: nat)
    requires s < i <= |l| <= 0x1_0000
    ensures i <= e <= |l|
    ensures forall j :: i <= j < e ==> l[j] == WrappingAdd(l[s], j - s)
    decreases |l| - i
  {
    if i < |l| && l[i] == WrappingAdd(l[s], i - s) then ConsecutiveEnd(l, s, i + 1) else i
  }

  function PackRangeFrom(l: seq<U16>, s: nat): seq<RangeNack>
    requires s <= |l| <= 0x1_0000
    decreases |l| - s
  {
    if s == |l| then []
    else
      var e := ConsecutiveEnd(l, s, s + 1);
      [RangeNack(l[s], e - s - 1)] + PackRangeFrom(l, e)
  }

  function PackRange(l: seq<U16>): seq<RangeNack>
    requires |l| <= 0x1_0000
  {
    PackRangeFrom(l, 0)
  }

  /** The range-packing loop. A list of at most 65536 numbers cannot overflow `extra + 1`. */
  method BuildRange(l: seq<U16>) returns (nacks: seq<RangeNack>)
    requires |l| <= 0x1_0000
    ensures nacks == PackRange(l)
  {
    nacks := [];
    var i := 0;
    while i < |l|
      invariant i <= |l| && nacks + PackRangeFrom(l, i) == PackRange(l)
    {
      var entry, e := BuildRangeEntry(l, i);
      assert nacks + ([entry] + PackRangeFrom(l, e)) == (nacks + [entry]) + PackRangeFrom(l, e);
      nacks := nacks + [entry];
      i := e;
    }
  }

  /** One round: the run that starts at `s` and the position after it. */
  method BuildRangeEntry(l: seq<U16>, s: nat) returns (entry: RangeNack, i: nat)
    requires s < |l| <= 0x1_0000
    ensures i == ConsecutiveEnd(l, s, s + 1) && entry == RangeNack(l[s], i - s - 1)
  {
    var extra: U16 := 0;
    i := s + 1;
    while i < |l| && l[i] == WrappingAdd(l[s], extra + 1)
      invariant s < i <= |l| && extra == i - s - 1
      invariant ConsecutiveEnd(l, s, i) == ConsecutiveEnd(l, s, s + 1)
    {
      extra := extra + 1;
      i := i + 1;
    }
    entry := RangeNack(l[s], extra);
  }

  lemma {:induction false} PackRangeFromIsExact(l: seq<U16>, s: nat)
    requires s <= |l| <= 0x1_0000
    ensures ExpandRange(PackRangeFrom(l, s)) == l[s..]
    decreases |l| - s
  {
    if s < |l| {
      var e := ConsecutiveEnd(l, s, s + 1);
      PackRangeFromIsExact(l, e);
      assert RangeLost(RangeNack(l[s], e - s - 1)) == l[s..e];
      assert l[s..] == l[s..e] + l[e..];
    }
  }

  /** Range packing decodes to exactly its input, sorted or not. */
  lemma RangePackIsExact(l: seq<U16>)
    requires |l| <= 0x1_0000
    ensures ExpandRange(PackRange(l)) == l
  {
    PackRangeFromIsExact(l, 0);
    assert l[0..] == l;
  }

  // ---- no shorter list of ranges ----

  lemma WrappingAddTwice(a: U16, x: nat, y: nat)
    requires x + y < 0x1_0000
    ensures WrappingAdd(WrappingAdd(a, x), y) == WrappingAdd(a, x + y)
  {
  }

  /** A run goes on as long as each number is the one after the number before it. */
  lemma {:induction false} RunReaches(l: seq<U16>, s: nat, i: nat, k: nat)
    requires s < i <= k <= |l| <= 0x1_0000
    requires forall j :: i <= j < k ==> l[j] == WrappingAdd(l[s], j - s)
    ensures k <= ConsecutiveEnd(l, s, i)
    decreases k - i
  {
    if i < k {
      RunReaches(l, s, i + 1, k);
    }
  }

  lemma {:induction false} RunGoesOn(l: seq<U16>, s: nat, i: nat, k: nat)
    requires s < i <= |l| <= 0x1_0000 && i <= k <= ConsecutiveEnd(l, s, i)
    ensures ConsecutiveEnd(l, s, k) == ConsecutiveEnd(l, s, i)
    decreases k - i
  {
    if i < k {
      RunGoesOn(l, s, i + 1, k);
    }
  }

  lemma {:induction false} SeenFromInside(l: seq<U16>, a: nat, b: nat, i: nat)
    requires a < b < i <= |l| <= 0x1_0000 && l[b] == WrappingAdd(l[a], b - a)
    ensures ConsecutiveEnd(l, b, i) == ConsecutiveEnd(l, a, i)
    decreases |l| - i
  {
    if i < |l| {
      WrappingAddTwice(l[a], b - a, i - b);
      SeenFromInside(l, a, b, i + 1);
    }
  }

  /** Seen from inside, a run ends where it ends. */
  lemma RunEndsTogether(l: seq<U16>, a: nat, b: nat)
    requires a < b < |l| <= 0x1_0000 && b < ConsecutiveEnd(l, a, a + 1)
    ensures ConsecutiveEnd(l, b, b + 1) == ConsecutiveEnd(l, a, a + 1)
  {
    SeenFromInside(l, a, b, b + 1);
    RunGoesOn(l, a, a + 1, b + 1);
  }

  /** Starting later never takes more entries. */
  lemma {:induction false} LaterTakesNoMore(l: seq<U16>, a: nat, b: nat)
    requires a <= b <= |l| <= 0x1_0000
    ensures |PackRangeFrom(l, b)| <= |PackRangeFrom(l, a)|
    decreases |l| - a
  {
    if a < b {
      var e := ConsecutiveEnd(l, a, a + 1);
      if b < e {
        RunEndsTogether(l, a, b);
      } else {
        LaterTakesNoMore(l, e, b);
      }
    }
  }

  /** An entry at the front of the list covers no more than the first run. */
  lemma FirstEntryFits(l: seq<U16>, s: nat, e: RangeNack, rest: seq<U16>)
    requires s < |l| <= 0x1_0000 && l[s..] == RangeLost(e) + rest
    ensures s + e.extra + 1 <= ConsecutiveEnd(l, s, s + 1) && rest == l[s + e.extra + 1..]
  {
    var k := e.extra + 1;
    assert |l[s..]| == k + |rest|;
    assert forall j :: 0 <= j < k ==> l[s + j] == l[s..][j] == RangeLost(e)[j];
    assert rest == l[s..][k..];
    assert l[s] == l[s + 0] == WrappingAdd(e.start, 0);
    forall j | s + 1 <= j < s + k
      ensures l[j] == WrappingAdd(l[s], j - s)
    {
      assert l[j] == l[s + (j - s)];
    }
    RunReaches(l, s, s + 1, s + k);
  }

  /** No shorter list of ranges expands to the same numbers in the same order. */
  lemma {:induction false} RangesAreFewest(l: seq<U16>, s: nat, es: seq<RangeNack>)
    requires s <= |l| <= 0x1_0000 && ExpandRange(es) == l[s..]
    ensures |PackRangeFrom(l, s)| <= |es|
    decreases |es|
  {
    if s < |l| {
      assert es != [];
      var next := s + es[0].extra + 1;
      FirstEntryFits(l, s, es[0], ExpandRange(es[1..]));
      RangesAreFewest(l, next, es[1..]);
      LaterTakesNoMore(l, next, ConsecutiveEnd(l, s, s + 1));
    }
  }

  lemma RangePackIsShortest(l: seq<U16>, es: seq<RangeNack>)
    requires |l| <= 0x1_0000 && ExpandRange(es) == l
    ensures |PackRange(l)| <= |es|
  {
    assert l[0..] == l;
    RangesAreFewest(l, 0, es);
  }

  // ---- greedy packing is optimal ----

  ghost predicate Named(es: seq<BitmaskNack>, x: int) {
    exists i :: 0 <= i < |es| && x in LostSeqs(es[i])
  }

  /** A list of bitmask entries names what its entries name. */
  lemma {:induction false} ExpandIff(es: seq<BitmaskNack>, x: U16)
    ensures x in Expand(es) <==> Named(es, x)
  {
    if es != [] {
      ExpandIff(es[1..], x);
      assert Expand(es) == LostSeqs(es[0]) + Expand(es[1..]);
      assert forall i :: 0 <= i < |es| - 1 ==> es[1..][i] == es[i + 1];
      assert forall i :: 0 < i < |es| ==> es[i] == es[1..][i - 1];
    }
  }

  ghost predicate Covers(es: seq<BitmaskNack>, l: seq<U16>) {
    forall x :: x in l ==> Named(es, x)
  }

  lemma {:induction false} LostNearPid(pid: U16, blp: nat, i: nat, x: U16)
    requires i <= 16 && x in LostFrom(pid, blp, i)
    ensures 0 < WrappingSub(x, pid) <= 16
    decreases 16 - i
  {
    if i < 16 && !(TestBit(blp, i) && x == WrappingAdd(pid, i + 1)) {
      LostNearPid(pid, blp, i + 1, x);
    }
  }

  /** No entry names two numbers that are 17 to 65519 apart. */
  lemma EntrySpansSeventeen(e: BitmaskNack, x: U16, y: U16)
    requires x in LostSeqs(e) && y in LostSeqs(e) && x < y
    ensures y - x <= 16 || y - x >= 0x1_0000 - 16
  {
    if x != e.pid {
      LostNearPid(e.pid, e.blp, 0, x);
    }
    if y != e.pid {
      LostNearPid(e.pid, e.blp, 0, y);
    }
  }

  /** The pids of the greedy packing. */
  function Pids(l: seq<U16>, s: nat): seq<int>
    requires s <= |l|
    decreases |l| - s
  {
    if s == |l| then [] else [l[s]] + Pids(l, RunEnd(l, s, s + 1))
  }

  ghost predicate Sparse(ps: seq<int>) {
    forall i, j :: 0 <= i < j < |ps| ==> ps[i] + 17 <= ps[j]
  }

  /** Greedy pids are at least 17 apart. */
  lemma {:induction false} PidsAreSparse(l: seq<U16>, s: nat)
    requires Ascending(l) && s <= |l|
    ensures |Pids(l, s)| == |PackFrom(l, s)|
    ensures forall x :: x in Pids(l, s) ==> x in l[s..]
    ensures Sparse(Pids(l, s))
    decreases |l| - s
  {
    if s < |l| {
      var e := RunEnd(l, s, s + 1);
      PidsAreSparse(l, e);
      var ps := Pids(l, e);
      forall i | 0 <= i < |ps|
        ensures l[s] + 17 <= ps[i] && ps[i] in l[s..]
      {
        assert ps[i] in ps;
        assert ps[i] in l[e..];
        var j :| e <= j < |l| && l[j] == ps[i];
        assert !InMask(l[s], l[e]) && l[e] <= l[j] && l[s..][j - s] == l[j];
      }
    }
  }

  ghost predicate Hits(e: BitmaskNack, ps: seq<int>) {
    exists j :: 0 <= j < |ps| && ps[j] in LostSeqs(e)
  }

  /** An entry naming the last of some sparse numbers names none of the others. */
  lemma HitsNoOther(e: BitmaskNack, ps: seq<int>)
    requires Sparse(ps) && ps != [] && ps[|ps| - 1] in LostSeqs(e) && ps[|ps| - 1] - ps[0] <= 65519
    ensures !Hits(e, ps[..|ps| - 1])
  {
    var k := |ps| - 1;
    if Hits(e, ps[..k]) {
      var j :| 0 <= j < k && ps[..k][j] in LostSeqs(e);
      EntrySpansSeventeen(e, ps[j], ps[k]);
    }
  }

  /** Sparse numbers spanning at most 65519 need one covering entry each. */
  lemma {:induction false} OneEntryEach(es: seq<BitmaskNack>, ps: seq<int>) returns (used: set<int>)
    requires forall j :: 0 <= j < |ps| ==> Named(es, ps[j])
    requires Sparse(ps)
    requires ps != [] ==> ps[|ps| - 1] - ps[0] <= 65519
    ensures |used| == |ps|
    ensures forall i :: i in used ==> 0 <= i < |es| && Hits(es[i], ps)
    decreases |ps|
  {
    used := {};
    if ps != [] {
      var k := |ps| - 1;
      var less := ps[..k];
      used := OneEntryEach(es, less);
      assert Named(es, ps[k]);
      var i :| 0 <= i < |es| && ps[k] in LostSeqs(es[i]);
      HitsNoOther(es[i], ps);
      forall m | m in used
        ensures Hits(es[m], ps)
      {
        var j :| 0 <= j < k && less[j] in LostSeqs(es[m]);
        assert ps[j] in LostSeqs(es[m]);
      }
      used := used + {i};
    }
  }

  /**
   Greedy packing is optimal: no list of fewer entries, with any pids and masks, names all
   the numbers of a strictly ascending list that spans at most 65519.
   */
  lemma GreedyIsOptimal(l: seq<U16>, es: seq<BitmaskNack>)
    requires Ascending(l) && Covers(es, l)
    requires l != [] ==> l[|l| - 1] - l[0] <= 65519
    ensures |PackBitmask(l)| <= |es|
  {
    PidsAreSparse(l, 0);
    assert l[0..] == l;
    var ps := Pids(l, 0);
    if ps != [] {
      assert ps[|ps| - 1] in ps && ps[|ps| - 1] in l;
    }
    forall j | 0 <= j < |ps|
      ensures Named(es, ps[j])
    {
      assert ps[j] in ps && ps[j] in l;
    }
    var used := OneEntryEach(es, ps);
    BoundedSet(used, |es|);
  }

  /** All pids but the last span at most 65519: the last one is at least 17 higher. */
  lemma AllButLastSpan(ps: seq<int>)
    requires Sparse(ps) && |ps| > 1 && forall j :: 0 <= j < |ps| ==> 0 <= ps[j] < 0x1_0000
    ensures ps[|ps| - 2] - ps[0] <= 65519
  {
    assert ps[|ps| - 2] + 17 <= ps[|ps| - 1];
  }

  /** Whatever the span, greedy packing needs at most one entry more than any other. */
  lemma GreedyIsWithinOne(l: seq<U16>, es: seq<BitmaskNack>)
    requires Ascending(l) && Covers(es, l)
    ensures |PackBitmask(l)| <= |es| + 1
  {
    PidsAreSparse(l, 0);
    assert l[0..] == l;
    var ps := Pids(l, 0);
    if |ps| > 1 {
      forall j | 0 <= j < |ps|
        ensures Named(es, ps[j]) && 0 <= ps[j] < 0x1_0000
      {
        assert ps[j] in ps && ps[j] in l;
      }
      AllButLastSpan(ps);
      var used := OneEntryEach(es, ps[..|ps| - 1]);
      BoundedSet(used, |es|);
    }
  }

  /** The span is the exact limit: any two numbers further apart fit one entry that wraps around. */
  lemma GreedyIsNotOptimalBeyond(d: U16)
    requires d > 65519
    ensures var l := [0, d];
            exists e :: Covers([e], l) && |PackBitmask(l)| == 2
  {
    var i := 0x1_0000 - d - 1;
    Pow2Of16();
    SetBitBound(0, i, 16);
    var e := BitmaskNack(d, SetBit(0, i));
    SetBitTests(0, i, i);
    BitIsNamed(d, SetBit(0, i), 0, i);
    var l := [0, d];
    assert [e][0] == e && 0 in LostSeqs(e) && d in LostSeqs(e);
    assert Named([e], 0) && Named([e], d);
    assert Covers([e], l);
    assert RunEnd(l, 0, 1) == 1 && RunEnd(l, 1, 2) == 2;
    assert PackFrom(l, 1) == [BitmaskNack(d, MaskTo(l, 1, 2))] + PackFrom(l, 2);
  }

  lemma {:induction false} BitIsNamed(pid: U16, blp: nat, from: nat, i: nat)
    requires from <= i < 16 && TestBit(blp, i)
    ensures WrappingAdd(pid, i + 1) in LostFrom(pid, blp, from)
    decreases i - from
  {
    if from < i {
      BitIsNamed(pid, blp, from + 1, i);
    }
  }
}
