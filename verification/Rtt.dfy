/** RTT smoothing (section 2 of RFC 6298) in whole nanoseconds, every quotient rounded down. */
module Rtt {
  import opened Seq16

  /** `srtt * 7 / 8 + sample / 8`. */
  function Smooth(srtt: nat, sample: nat): nat {
    srtt * 7 / 8 + sample / 8
  }

  /** `rttvar * 3 / 4 + |srtt - sample| / 4`. */
  function SmoothVar(rttvar: nat, srtt: nat, sample: nat): nat {
    rttvar * 3 / 4 + (if sample > srtt then sample - srtt else srtt - sample) / 4
  }

  /** The smoothed value after a series of samples. */
  function Srtt(samples: seq<nat>): nat
    requires samples != []
  {
    var k := |samples| - 1;
    if k == 0 then samples[0] else Smooth(Srtt(samples[..k]), samples[k])
  }

  function Rttvar(samples: seq<nat>): nat
    requires samples != []
  {
    var k := |samples| - 1;
    if k == 0 then samples[0] / 2 else SmoothVar(Rttvar(samples[..k]), Srtt(samples[..k]), samples[k])
  }

  function Distance(x: int, y: int): nat { if x < y then y - x else x - y }

  /** Eight times the new value is seven times the old one plus the sample, less the two remainders. */
  predicate MovesAnEighth(x: nat, sample: nat, y: nat) {
    && 8 * y == 7 * x - 7 * x % 8 + sample - sample % 8
    && 7 * x + sample - 14 <= 8 * y <= 7 * x + sample
  }

  predicate MovesAQuarter(v: nat, d: nat, y: nat) {
    && 4 * y == 3 * v - 3 * v % 4 + d - d % 4
    && 3 * v + d - 6 <= 4 * y <= 3 * v + d
  }

  lemma SmoothMoves(x: nat, sample: nat)
    ensures MovesAnEighth(x, sample, Smooth(x, sample))
  {
    var a := 7 * x;
    assert a == 8 * (a / 8) + a % 8 && sample == 8 * (sample / 8) + sample % 8;
  }

  lemma SmoothVarMoves(v: nat, x: nat, sample: nat)
    ensures MovesAQuarter(v, Distance(x, sample), SmoothVar(v, x, sample))
  {
    var a, d := 3 * v, Distance(x, sample);
    assert a == 4 * (a / 4) + a % 4 && d == 4 * (d / 4) + d % 4;
  }

  class RttEstimator {
    var srtt: Option<nat>
    var rttvar: Option<nat>
    ghost var samples: seq<nat>

    /** The fields are the smoothed values of every sample so far. */
    ghost predicate Valid()
      reads this
    {
      if samples == [] then srtt.None? && rttvar.None?
      else srtt == Some(Srtt(samples)) && rttvar == Some(Rttvar(samples))
    }

    constructor ()
      ensures Valid() && samples == []
    {
      srtt, rttvar, samples := None, None, [];
    }

    /**
     The estimate moves an eighth of the way to the sample and the variation a quarter of the way to the
     sample's distance from the old estimate, each part rounded down: eight times the one and four times
     the other fall short of the exact values by the remainders. Whatever came before, the estimate stays
     within the range of all samples, but for the rounding.
     */
    method UpdateRtt(sample: nat)
      requires Valid()
      modifies this
      ensures Valid() && samples == old(samples) + [sample]
      ensures srtt.Some? && rttvar.Some?
      ensures old(srtt).None? ==> srtt.value == sample && rttvar.value == sample / 2
      ensures old(srtt).Some? && old(rttvar).Some? ==>
                && MovesAnEighth(old(srtt.value), sample, srtt.value)
                && MovesAQuarter(old(rttvar.value), Distance(old(srtt.value), sample), rttvar.value)
      ensures forall lo: nat, hi: nat :: InRange(samples, lo, hi) ==> lo / 8 * 8 <= srtt.value <= hi
    {
      if srtt.None? {
        srtt, rttvar := Some(sample), Some(sample / 2);
      } else {
        var half := sample / 2;
        SmoothMoves(srtt.value, sample);
        SmoothVarMoves(if rttvar.Some? then rttvar.value else half, srtt.value, sample);
        var v := if rttvar.Some? then rttvar.value else half;
        rttvar := Some(SmoothVar(v, srtt.value, sample));
        srtt := Some(Smooth(srtt.value, sample));
      }
      samples := samples + [sample];
      assert samples[..|samples| - 1] == old(samples);
      forall lo: nat, hi: nat | InRange(samples, lo, hi)
        ensures lo / 8 * 8 <= srtt.value <= hi
      {
        StaysInRange(samples, lo, hi);
      }
    }
  }

  ghost predicate InRange(samples: seq<nat>, lo: nat, hi: nat) {
    forall i :: 0 <= i < |samples| ==> lo <= samples[i] <= hi
  }

  /**
   Rounding never accumulates: for samples in [lo, hi] the smoothed value stays in [lo', hi] for
   ever, where lo' is lo rounded down to a multiple of 8 (so it is never more than 7 ns below lo),
   and the variation stays at most the larger of hi / 2 and hi - lo'.
   */
  lemma {:induction false} StaysInRange(samples: seq<nat>, lo: nat, hi: nat)
    requires samples != [] && InRange(samples, lo, hi)
    ensures lo - 7 <= lo / 8 * 8 <= Srtt(samples) <= hi
    ensures Rttvar(samples) <= hi / 2 || Rttvar(samples) <= hi - lo / 8 * 8
    decreases |samples|
  {
    var k := |samples| - 1;
    if k > 0 {
      StaysInRange(samples[..k], lo, hi);
      SmoothInRange(Srtt(samples[..k]), samples[k], lo / 8, hi);
      VarInRange(Rttvar(samples[..k]), Srtt(samples[..k]), samples[k], lo / 8 * 8, hi);
    }
  }

  lemma SmoothInRange(srtt: nat, sample: nat, k: nat, hi: nat)
    requires 8 * k <= srtt <= hi && 8 * k <= sample <= hi
    ensures 8 * k <= Smooth(srtt, sample) <= hi
  {
    var q, r := srtt / 8, srtt % 8;
    assert srtt == 8 * q + r && srtt * 7 / 8 == 7 * q + r * 7 / 8;
    assert r * 7 / 8 <= r && k <= q && k <= sample / 8;
  }

  lemma VarInRange(v: nat, srtt: nat, sample: nat, low: nat, hi: nat)
    requires low <= srtt <= hi && low <= sample <= hi
    requires v <= hi / 2 || v <= hi - low
    ensures SmoothVar(v, srtt, sample) <= hi / 2 || SmoothVar(v, srtt, sample) <= hi - low
  {
  }

  lemma OneLess(k: nat, j: nat)
    requires j <= 7
    ensures Smooth(8 * k + j, 8 * k + 7) == 8 * k + (if j > 0 then j - 1 else 0)
  {
    assert (8 * k + j) * 7 == 8 * (7 * k + j - 1) + 8 - j;
    assert (8 * k + 7) / 8 == k;
  }

  /**
   The bound is reached: a constant sample of 8k + 7 loses one nanosecond per round down to 8k,
   and stays there for ever.
   */
  lemma {:induction false} BoundIsTight(k: nat, samples: seq<nat>)
    requires samples != [] && forall i :: 0 <= i < |samples| ==> samples[i] == 8 * k + 7
    ensures Srtt(samples) == 8 * k + (if |samples| <= 8 then 8 - |samples| else 0)
    decreases |samples|
  {
    var m := |samples| - 1;
    if m > 0 {
      BoundIsTight(k, samples[..m]);
      OneLess(k, if m <= 8 then 8 - m else 0);
    }
  }

  // ---- one sample over and over ----

  /** One step towards `w * m`, a `w`-th of the way, rounded down. */
  function Relax(x: nat, w: nat, m: nat): nat
    requires w == 4 || w == 8
  {
    if w == 8 then x * 7 / 8 + m else x * 3 / 4 + m
  }

  function Repeat(x: nat, w: nat, m: nat, n: nat): nat
    requires w == 4 || w == 8
    decreases n
  {
    if n == 0 then x else Relax(Repeat(x, w, m, n - 1), w, m)
  }

  /** Where it ends: at `w * m` from above, at the first value that rounds up to it from below. */
  function Limit(x: nat, w: nat, m: nat): (l: int)
    requires w == 4 || w == 8
    ensures l >= 0
  {
    if x > w * m then w * m else if x > w * m - w then x else w * m - w + 1
  }

  lemma RelaxMoves(x: nat, w: nat, m: nat)
    requires w == 4 || w == 8
    ensures x > w * m ==> w * m <= Relax(x, w, m) < x
    ensures w * m - w < x <= w * m ==> Relax(x, w, m) == x
    ensures x <= w * m - w ==> x < Relax(x, w, m) <= w * m - w + 1
  {
  }

  /** Each step comes closer by at least one, so the limit is reached and kept. */
  lemma {:induction false} Settles(x: nat, w: nat, m: nat, n: nat)
    requires w == 4 || w == 8
    ensures var y, l := Repeat(x, w, m, n), Limit(x, w, m);
            && Limit(y, w, m) == l && Distance(y, l) <= (if n < Distance(x, l) then Distance(x, l) - n else 0)
    decreases n
  {
    if n > 0 {
      Settles(x, w, m, n - 1);
      RelaxMoves(Repeat(x, w, m, n - 1), w, m);
    }
  }

  function Copies(sample: nat, n: nat): (s: seq<nat>)
    ensures |s| == n
  {
    seq(n, _ => sample)
  }

  lemma {:induction false} SrttRepeats(samples: seq<nat>, sample: nat, n: nat)
    requires samples != []
    ensures Srtt(samples + Copies(sample, n)) == Repeat(Srtt(samples), 8, sample / 8, n)
    decreases n
  {
    var all := samples + Copies(sample, n);
    if n == 0 {
      assert all == samples;
    } else {
      SrttRepeats(samples, sample, n - 1);
      assert all[..|all| - 1] == samples + Copies(sample, n - 1);
    }
  }

  /**
   From any estimate, enough repeats of one sample bring SRTT to its limit and keep it there: from above
   to the sample rounded down to a multiple of 8, from below to 7 ns less than that.
   */
  lemma SrttSettles(samples: seq<nat>, sample: nat, n: nat)
    requires samples != [] && n >= Distance(Srtt(samples), Limit(Srtt(samples), 8, sample / 8))
    ensures Srtt(samples + Copies(sample, n)) == Limit(Srtt(samples), 8, sample / 8)
    ensures sample - 14 <= Srtt(samples + Copies(sample, n)) <= sample
  {
    SrttRepeats(samples, sample, n);
    Settles(Srtt(samples), 8, sample / 8, n);
  }

  /** It ends within 7 ns of the sample if and only if it starts no lower, or the sample is a multiple of 8. */
  lemma SettlesWithinSevenIff(x: nat, sample: nat)
    ensures Distance(Limit(x, 8, sample / 8), sample) <= 7 <==> x >= sample - 7 || sample % 8 == 0
  {
  }

  /** An estimate of 1 ns never moves towards a sample of 15 ns, however often it is repeated. */
  lemma StuckFourteenBelow(n: nat)
    ensures Srtt([1] + Copies(15, n)) == 1
  {
    assert Srtt([1]) == 1;
    SrttRepeats([1], 15, n);
    Settles(1, 8, 1, n);
  }

  lemma SettledStep(x: nat, sample: nat, v: nat)
    requires Limit(x, 8, sample / 8) == x
    ensures Smooth(x, sample) == x && SmoothVar(v, x, sample) == Relax(v, 4, Distance(x, sample) / 4)
  {
    RelaxMoves(x, 8, sample / 8);
  }

  /** The same for the variation, once the estimate has settled: it goes to the distance that is left. */
  lemma {:induction false} RttvarRepeats(samples: seq<nat>, sample: nat, n: nat)
    requires samples != [] && Limit(Srtt(samples), 8, sample / 8) == Srtt(samples)
    ensures var all := samples + Copies(sample, n);
            && Srtt(all) == Srtt(samples)
            && Rttvar(all) == Repeat(Rttvar(samples), 4, Distance(Srtt(samples), sample) / 4, n)
    decreases n
  {
    var all := samples + Copies(sample, n);
    if n == 0 {
      assert all == samples;
    } else {
      RttvarRepeats(samples, sample, n - 1);
      assert all[..|all| - 1] == samples + Copies(sample, n - 1) && all[|all| - 1] == sample;
      SettledStep(Srtt(samples), sample, Rttvar(all[..|all| - 1]));
    }
  }

  lemma RttvarSettles(samples: seq<nat>, sample: nat, n: nat)
    requires samples != [] && Limit(Srtt(samples), 8, sample / 8) == Srtt(samples)
    requires var l := Limit(Rttvar(samples), 4, Distance(Srtt(samples), sample) / 4);
             n >= Distance(Rttvar(samples), l)
    ensures Rttvar(samples + Copies(sample, n)) == Limit(Rttvar(samples), 4, Distance(Srtt(samples), sample) / 4)
    ensures Rttvar(samples + Copies(sample, n)) <= 14
  {
    RttvarRepeats(samples, sample, n);
    Settles(Rttvar(samples), 4, Distance(Srtt(samples), sample) / 4, n);
  }
}
