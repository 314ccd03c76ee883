/**
 The SMPTE 2022-7 merger: a 1024-bit sliding bitmap over 16-bit numbers that behaves
 like the set of every number ever emitted.
 */
module Bonding {
  import opened Seq16
  import opened Bits

  const WINDOW_SIZE := 1024
  const BITMAP_WORDS := 16

  // ---- the merger over unwrapped numbers ----

  datatype Verdict = Emitted | Duplicate | Late

  datatype Merger = Merger(highest: Option<int>, emitted: set<int>)

  /** A number goes out if it is new and not too far behind the highest one. */
  function Judge(m: Merger, n: int): Verdict {
    if m.highest.None? then Emitted
    else if n <= m.highest.value - WINDOW_SIZE then Late
    else if n in m.emitted then Duplicate
    else Emitted
  }

  function Merge(m: Merger, n: int): Merger {
    if Judge(m, n) != Emitted then m
    else Merger(Some(if m.highest.None? || n > m.highest.value then n else m.highest.value), m.emitted + {n})
  }

  // ---- the bitmap ----

  predicate Marked(words: seq<nat>, i: int)
    requires |words| == BITMAP_WORDS && 0 <= i < WINDOW_SIZE
  {
    TestBit(words[i / 64], i % 64)
  }

  /** Numbers of the window are marked exactly when they have been emitted. */
  ghost predicate Shows(words: seq<nat>, highest: int, emitted: set<int>)
    requires |words| == BITMAP_WORDS
  {
    forall n {:trigger n in emitted} :: highest - WINDOW_SIZE < n <= highest ==>
      (Marked(words, n % WINDOW_SIZE) <==> n in emitted)
  }

  /** Changing the bit of position `i` changes that position alone. */
  lemma OneBitChanges(words: seq<nat>, i: int, j: int)
    requires |words| == BITMAP_WORDS && 0 <= i < WINDOW_SIZE && 0 <= j < WINDOW_SIZE
    ensures Marked(words[i / 64 := SetBit(words[i / 64], i % 64)], j) <==> i == j || Marked(words, j)
    ensures Marked(words[i / 64 := ClearBit(words[i / 64], i % 64)], j) <==> i != j && Marked(words, j)
  {
    assert i == i / 64 * 64 + i % 64 && j == j / 64 * 64 + j % 64;
    SetBitTests(words[i / 64], i % 64, j % 64);
    ClearBitTests(words[i / 64], i % 64, j % 64);
  }

  lemma ZeroesShowNothing(words: seq<nat>, highest: int, emitted: set<int>)
    requires |words| == BITMAP_WORDS && forall k :: 0 <= k < BITMAP_WORDS ==> words[k] == 0
    requires forall n :: n in emitted ==> n <= highest - WINDOW_SIZE
    ensures Shows(words, highest, emitted)
  {
    forall n | highest - WINDOW_SIZE < n <= highest
      ensures !Marked(words, n % WINDOW_SIZE)
    {
      ZeroHasNoBits(n % WINDOW_SIZE % 64);
    }
  }

  /** Marking a number of the window. */
  lemma MarkShows(words: seq<nat>, highest: int, emitted: set<int>, n: int)
    requires |words| == BITMAP_WORDS && Shows(words, highest, emitted) && highest - WINDOW_SIZE < n <= highest
    ensures var i := n % WINDOW_SIZE;
            Shows(words[i / 64 := SetBit(words[i / 64], i % 64)], highest, emitted + {n})
  {
    var i := n % WINDOW_SIZE;
    var words' := words[i / 64 := SetBit(words[i / 64], i % 64)];
    forall k | highest - WINDOW_SIZE < k <= highest
      ensures Marked(words', k % WINDOW_SIZE) <==> k in emitted + {n}
    {
      OneBitChanges(words, i, k % WINDOW_SIZE);
      SamePosition(k, n);
    }
  }

  lemma SamePosition(a: int, b: int)
    requires -WINDOW_SIZE < a - b < WINDOW_SIZE
    ensures a % WINDOW_SIZE == b % WINDOW_SIZE <==> a == b
  {
  }

  /** Moving the window up by one: the recycled position is cleared, so the new number is unmarked. */
  lemma AdvanceShows(words: seq<nat>, highest: int, emitted: set<int>)
    requires |words| == BITMAP_WORDS && Shows(words, highest, emitted) && forall n :: n in emitted ==> n <= highest
    ensures var i := (highest + 1) % WINDOW_SIZE;
            Shows(words[i / 64 := ClearBit(words[i / 64], i % 64)], highest + 1, emitted)
  {
    var i := (highest + 1) % WINDOW_SIZE;
    var words' := words[i / 64 := ClearBit(words[i / 64], i % 64)];
    forall k | highest + 1 - WINDOW_SIZE < k <= highest + 1
      ensures Marked(words', k % WINDOW_SIZE) <==> k in emitted
    {
      OneBitChanges(words, i, k % WINDOW_SIZE);
      SamePosition(k, highest + 1);
      if k <= highest {
        assert Marked(words, k % WINDOW_SIZE) <==> k in emitted;
      }
    }
  }

  lemma WrapKeepsPosition(n: int)
    ensures Wrap(n) % WINDOW_SIZE == n % WINDOW_SIZE
  {
  }

  class BondingMerger {
    const bitmap: array<nat>
    var highestSeq: Option<U16>
    var packetsEmitted: nat
    var duplicatesDropped: nat
    var lateDropped: nat
    ghost var merger: Merger

    ghost predicate Valid()
      reads this, bitmap
    {
      && bitmap.Length == BITMAP_WORDS
      && (highestSeq.Some? <==> merger.highest.Some?)
      && (merger.highest.Some? ==>
          && highestSeq.value == Wrap(merger.highest.value)
          && Shows(bitmap[..], merger.highest.value, merger.emitted)
          && (forall n :: n in merger.emitted ==> n <= merger.highest.value)
          && merger.highest.value in merger.emitted)
      && (merger.highest.None? ==> merger.emitted == {})
    }

    constructor ()
      ensures Valid() && fresh(bitmap) && merger == Merger(None, {})
      ensures packetsEmitted == duplicatesDropped == lateDropped == 0
    {
      bitmap := new nat[BITMAP_WORDS](_ => 0);
      highestSeq, packetsEmitted, duplicatesDropped, lateDropped := None, 0, 0, 0;
      merger := Merger(None, {});
    }

    /** A packet gets the verdict the set gives it, for the number nearest the highest one. */
    method Process(wire: U16, data: Bytes) returns (r: Option<Bytes>)
      requires Valid()
      modifies this, bitmap
      ensures Valid()
      ensures var n := if old(merger.highest).None? then wire else Unwrap(old(merger.highest.value), wire);
              var v := Judge(old(merger), n);
              && merger == Merge(old(merger), n)
              && r == (if v == Emitted then Some(data) else None)
              && packetsEmitted == old(packetsEmitted) + (if v == Emitted then 1 else 0)
              && duplicatesDropped == old(duplicatesDropped) + (if v == Duplicate then 1 else 0)
              && lateDropped == old(lateDropped) + (if v == Late then 1 else 0)
    {
      if highestSeq.None? {
        Begin(wire);
        packetsEmitted := packetsEmitted + 1;
        return Some(data);
      }
      ghost var h, set0 := merger.highest.value, merger.emitted;
      ghost var n := Unwrap(h, wire);
      UnwrapIsNearest(h, wire, n);
      var diff := SignedDiff(wire, highestSeq.value);
      if diff > 0 {
        MoveUp(wire, diff, n);
        packetsEmitted := packetsEmitted + 1;
        return Some(data);
      } else if diff == 0 {
        duplicatesDropped := duplicatesDropped + 1;
        return None;
      }
      if NegatedAsUsize(diff) >= WINDOW_SIZE {
        lateDropped := lateDropped + 1;
        return None;
      }
      WrapKeepsPosition(n);
      var i := wire % WINDOW_SIZE;
      assert Marked(bitmap[..], n % WINDOW_SIZE) <==> n in set0;
      if TestBit(bitmap[i / 64], i % 64) {
        duplicatesDropped := duplicatesDropped + 1;
        return None;
      }
      Mark(wire, n, h, set0);
      merger := Merger(Some(h), set0 + {n});
      packetsEmitted := packetsEmitted + 1;
      return Some(data);
    }

    /** The first packet. */
    method Begin(wire: U16)
      requires bitmap.Length == BITMAP_WORDS
      modifies `highestSeq, `merger, bitmap
      ensures Valid() && merger == Merger(Some(wire), {wire})
    {
      ClearBitmap();
      ZeroesShowNothing(bitmap[..], wire, {});
      highestSeq := Some(wire);
      Mark(wire, wire, wire, {});
      merger := Merger(Some(wire), {wire});
      assert {} + {wire as int} == {wire as int};
    }

    /** A packet `diff` ahead of the highest number. */
    method MoveUp(wire: U16, diff: U16, ghost n: int)
      requires Valid() && merger.highest.Some? && diff > 0 && n == merger.highest.value + diff && wire == Wrap(n)
      modifies `highestSeq, `merger, bitmap
      ensures Valid() && merger == Merger(Some(n), old(merger.emitted) + {n})
    {
      ghost var emitted := merger.emitted;
      AdvanceWindow(diff, merger.highest.value, emitted);
      highestSeq := Some(wire);
      Mark(wire, n, n, emitted);
      merger := Merger(Some(n), emitted + {n});
    }

    method Mark(wire: U16, ghost n: int, ghost h: int, ghost emitted: set<int>)
      requires bitmap.Length == BITMAP_WORDS && wire == Wrap(n) && h - WINDOW_SIZE < n <= h
      requires Shows(bitmap[..], h, emitted)
      modifies bitmap
      ensures Shows(bitmap[..], h, emitted + {n})
    {
      ghost var words := bitmap[..];
      WrapKeepsPosition(n);
      var i := wire % WINDOW_SIZE;
      MarkShows(words, h, emitted, n);
      bitmap[i / 64] := SetBit(bitmap[i / 64], i % 64);
      assert bitmap[..] == words[i / 64 := SetBit(words[i / 64], i % 64)];
    }

    method AdvanceWindow(advance: U16, ghost h: int, ghost emitted: set<int>)
      requires bitmap.Length == BITMAP_WORDS && advance > 0 && highestSeq == Some(Wrap(h))
      requires Shows(bitmap[..], h, emitted) && forall n :: n in emitted ==> n <= h
      modifies bitmap
      ensures Shows(bitmap[..], h + advance, emitted)
    {
      if advance >= WINDOW_SIZE {
        ClearBitmap();
        ZeroesShowNothing(bitmap[..], h + advance, emitted);
        return;
      }
      ghost var top := h;
      for i := 1 to advance + 1
        invariant top == h + i - 1 && Shows(bitmap[..], top, emitted)
      {
        var recycled := WrappingAdd(highestSeq.value, i);
        WrapOfNext(highestSeq.value, h, i, top + 1);
        WrapKeepsPosition(top + 1);
        var p := recycled % WINDOW_SIZE;
        ghost var words := bitmap[..];
        AdvanceShows(words, top, emitted);
        bitmap[p / 64] := ClearBit(bitmap[p / 64], p % 64);
        assert bitmap[..] == words[p / 64 := ClearBit(words[p / 64], p % 64)];
        top := top + 1;
      }
      assert top == h + advance;
    }

    method ClearBitmap()
      requires bitmap.Length == BITMAP_WORDS
      modifies bitmap
      ensures forall k :: 0 <= k < BITMAP_WORDS ==> bitmap[k] == 0
    {
      forall k | 0 <= k < BITMAP_WORDS {
        bitmap[k] := 0;
      }
    }
  }

  /** `(-diff) as usize` with wrapping negation, which keeps -32768 negative. */
  function NegatedAsUsize(diff: int): int
    requires -0x8000 <= diff < 0
  {
    if diff == -0x8000 then 0x1_0000_0000_0000_0000 - 0x8000 else -diff
  }

  // ---- whole runs ----

  datatype Tally = Tally(merger: Merger, out: seq<int>, duplicates: nat, late: nat)

  /** Packets with the given unwrapped numbers, from any mix of paths. */
  function Run(ns: seq<int>): Tally {
    if ns == [] then Tally(Merger(None, {}), [], 0, 0)
    else
      var k := |ns| - 1;
      var t := Run(ns[..k]);
      var v := Judge(t.merger, ns[k]);
      Tally(Merge(t.merger, ns[k]),
            if v == Emitted then t.out + [ns[k]] else t.out,
            t.duplicates + (if v == Duplicate then 1 else 0),
            t.late + (if v == Late then 1 else 0))
  }

  /**
   Over every run each number is emitted at most once, the emitted numbers are exactly the set
   the verdicts consult, only processed numbers are emitted, and every packet is counted once.
   */
  lemma {:induction false} EmittedOnce(ns: seq<int>)
    ensures var t := Run(ns);
            && (forall i, j :: 0 <= i < j < |t.out| ==> t.out[i] != t.out[j])
            && (forall n :: n in t.merger.emitted <==> n in t.out)
            && (forall n :: n in t.out ==> n in ns)
            && |t.out| + t.duplicates + t.late == |ns|
    decreases |ns|
  {
    if ns != [] {
      var k := |ns| - 1;
      EmittedOnce(ns[..k]);
      assert ns == ns[..k] + [ns[k]];
    }
  }

  /**
   After any run a packet goes out if and only if its number has never gone out and no number at
   least 1024 higher has; it is late if and only if such a higher number has.
   */
  lemma EmittedIff(ns: seq<int>, n: int)
    ensures var t := Run(ns);
            && (Judge(t.merger, n) == Emitted <==> n !in t.out && forall h :: h in t.out ==> h < n + 1024)
            && (Judge(t.merger, n) == Late <==> exists h :: h in t.out && h >= n + 1024)
  {
    EmittedOnce(ns);
    HighestIsTop(ns);
    var m := Run(ns).merger;
    if m.highest.Some? {
      assert m.highest.value in Run(ns).out;
    }
  }

  lemma {:induction false} HighestIsTop(ns: seq<int>)
    ensures var m := Run(ns).merger;
            && (m.highest.None? ==> m.emitted == {})
            && (m.highest.Some? ==> m.highest.value in m.emitted && forall n :: n in m.emitted ==> n <= m.highest.value)
    decreases |ns|
  {
    if ns != [] {
      HighestIsTop(ns[..|ns| - 1]);
    }
  }
}
