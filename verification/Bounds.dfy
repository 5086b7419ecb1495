/**
 The search for the range of sizes a venue quotes: a doubling search for a rough interval
 around each end of the range, then a bisection of each down to 100 atoms.
 */
module Bounds {
  import opened Numbers
  import opened Quoting

  datatype BoundsError = BoundarySearchFailed | NoQuotableValue

  datatype BoundsResult = Found(lower: u64, upper: u64) | NotFound(error: BoundsError)

  type Probe = u64 -> QuoteResult

  /** A probe counts as valid when it quotes, in full, a positive output. */
  predicate Quotes(f: Probe, x: u64) {
    Valid(f(x))
  }

  /** `saturating_mul` by the scaling factor. */
  function Doubled(x: u64): u64 {
    if 2 * x <= U64_MAX then 2 * x else U64_MAX
  }

  lemma {:induction false} Pow2Aligned(k: nat)
    requires k >= 6
    ensures Pow2(k) % 64 == 0
  {
    if k == 6 {
      Pow2Values();
    } else {
      Pow2Aligned(k - 1);
    }
  }

  /** The powers of two that fit 64 bits. */
  function Power(k: nat): u64
    requires k <= 63
  {
    Pow2Monotone(k, 63);
    Pow2Values();
    Pow2(k)
  }

  lemma DoubledPower(k: nat)
    requires k <= 63
    ensures k < 63 ==> Doubled(Power(k)) == Power(k + 1) < U64_MAX
    ensures k == 63 ==> Doubled(Power(k)) == U64_MAX
    ensures Power(k) < Doubled(Power(k)) && Power(k) < U64_MAX
  {
    Pow2Values();
    if k < 63 {
      Pow2Monotone(k + 1, 63);
    }
  }

  /** No power of two below 2^k quotes. */
  ghost predicate FailBelow(f: Probe, k: nat) {
    k <= 64 && forall i :: 0 <= i < k ==> !Quotes(f, Power(i))
  }

  lemma OneMoreFails(f: Probe, k: nat)
    requires FailBelow(f, k) && k <= 63 && !Quotes(f, Power(k))
    ensures FailBelow(f, k + 1)
  {
  }

  /** `find_boundaries_coarse`.  The ghost results are the exponent k of the first power of
      two that quotes (64 if none does), the exponent j of the last one the search accepted,
      and the number of calls of f. */
  method FindBoundariesCoarse(f: Probe)
    returns (lowerLow: u64, lowerHigh: u64, upperLow: u64, upperHigh: u64,
             ghost k: nat, ghost j: nat, ghost probes: nat)
    requires forall x: u64 :: !f(x).Panic?
    ensures lowerLow < lowerHigh <= upperLow <= upperHigh
    ensures lowerHigh < U64_MAX <==> k < 64
    ensures probes <= 65
    ensures FailBelow(f, k)
    ensures k == 64 ==> lowerLow == Power(63) && lowerHigh == upperLow == upperHigh == U64_MAX
    ensures k < 64 ==> lowerHigh == Power(k) && lowerLow == if k == 0 then 0 else Power(k - 1)
    ensures k < 64 ==> Quotes(f, lowerHigh) && Quotes(f, upperLow)
    ensures k < 64 ==> k <= j <= 63
    ensures k < 64 && j < 63 ==>
              upperLow == Power(j) && upperHigh == Power(j + 1) && !Quotes(f, upperHigh)
    ensures k < 64 && j == 63 ==>
              upperHigh == U64_MAX && (upperLow == Power(63) || upperLow == U64_MAX)
    ensures k < 63 ==> upperLow < U64_MAX
    ensures k == 63 ==> j == 63 && (upperLow == U64_MAX <==> Quotes(f, U64_MAX))
  {
    assert Power(0) == 1 && Doubled(U64_MAX) == U64_MAX;
    assert FailBelow(f, 0);
    hide Pow2, Power, Quotes, Doubled, FailBelow;
    lowerLow, lowerHigh := 0, 1;
    k, probes := 0, 1;
    while !Quotes(f, lowerHigh)
      invariant k <= 63 && probes == k + 1
      invariant lowerHigh == Power(k) && lowerLow == if k == 0 then 0 else Power(k - 1)
      invariant lowerLow < lowerHigh < U64_MAX
      invariant FailBelow(f, k)
      decreases 63 - k
    {
      DoubledPower(k);
      OneMoreFails(f, k);
      lowerLow := lowerHigh;
      lowerHigh := Doubled(lowerHigh);
      if lowerHigh <= lowerLow || lowerHigh == U64_MAX {
        lowerHigh := U64_MAX;
        k := 64;
        break;
      }
      k, probes := k + 1, probes + 1;
    }

    upperLow := lowerHigh;
    upperHigh := Doubled(upperLow);
    j := k;
    if upperHigh <= upperLow {
      upperHigh := upperLow;
    } else {
      DoubledPower(j);
      probes := probes + 1;
      while Quotes(f, upperHigh)
        invariant k <= j <= 63 && probes <= j + 2 && (j == 63 ==> k == 63)
        invariant Quotes(f, upperLow) && upperLow == Power(j)
        invariant lowerHigh <= upperLow < upperHigh == Doubled(upperLow)
        decreases 63 - j
      {
        DoubledPower(j);
        if j < 63 {
          DoubledPower(j + 1);
        }
        upperLow := upperHigh;
        upperHigh := Doubled(upperHigh);
        if upperHigh <= upperLow || upperHigh == U64_MAX {
          upperHigh := U64_MAX;
          j := 63;
          break;
        }
        j, probes := j + 1, probes + 1;
      }
    }
  }

  /** The interval from low to high is a power of two long, at least 64, and aligned. */
  ghost predicate Dyadic(low: nat, high: nat, e: nat) {
    low <= high && high - low == Pow2(e) && e >= 6 && low % 64 == 0
  }

  lemma Pow2Doubles(e: nat)
    requires e > 0
    ensures Pow2(e) == 2 * Pow2(e - 1)
    ensures Pow2(6) == 64
  {
    Pow2Values();
  }

  lemma HalfOfDouble(x: nat)
    ensures 2 * x / 2 == x
  {
  }

  lemma MidpointOfMultiples(a: nat, b: nat)
    ensures (64 * a + 2 * (64 * b)) / 2 + 64 * a / 2 == 64 * a + 64 * b
  {
    HalfOfDouble(32 * a + 64 * b);
    HalfOfDouble(32 * a);
  }

  lemma SumOfMultiples(low: nat, half: nat)
    requires low % 64 == 0 && half % 64 == 0
    ensures low == 64 * (low / 64) && half == 64 * (half / 64)
    ensures (low + half) % 64 == 0
  {
  }

  /** The middle of an interval, without overflow. */
  function Middle(low: u64, high: u64): u64
    requires low <= high
  {
    high / 2 + low / 2
  }

  /** Halving a dyadic interval longer than 100 leaves two dyadic intervals. */
  lemma DyadicHalves(low: u64, high: u64, e: nat)
    requires Dyadic(low, high, e) && high - low > 100
    ensures e >= 7
    ensures Dyadic(low, Middle(low, high), e - 1) && Dyadic(Middle(low, high), high, e - 1)
  {
    hide Pow2;
    Pow2Doubles(e);
    Pow2Aligned(if e >= 7 then e - 1 else e);
    if e >= 7 {
      SumOfMultiples(low, Pow2(e - 1));
      MidpointOfMultiples(low / 64, Pow2(e - 1) / 64);
    }
  }

  lemma DyadicEnds(low: nat, high: nat, e: nat)
    requires Dyadic(low, high, e) && high - low <= 100
    ensures high - low == 64 && high % 64 == 0
  {
    Pow2Values();
    if e >= 7 {
      Pow2Monotone(7, e);
    }
  }

  // From 2^63 on the search bisects an interval that ends at 2^64 - 1, so its points fall short
  // of multiples of 64: by one where the index is a power of two, by two elsewhere.

  const TOP: nat := 0x8000_0000_0000_0000
  const TOP_STEPS: nat := 0x200_0000_0000_0000

  predicate PowerOfTwo(n: nat) {
    n == 1 || (n > 0 && n % 2 == 0 && PowerOfTwo(n / 2))
  }

  function Defect(i: nat): (d: nat)
    ensures d <= 2
  {
    if i == 0 then 0 else if PowerOfTwo(i) then 1 else 2
  }

  function TopPoint(i: nat): (p: nat)
    ensures TOP + 64 * i <= p + 2 && p <= TOP + 64 * i
  {
    TOP + 64 * i - Defect(i)
  }

  /** o is a multiple of 2^g. */
  ghost predicate Aligned(o: nat, g: nat) {
    g == 0 || (o % 2 == 0 && Aligned(o / 2, g - 1))
  }

  /** The 2^g steps between points from the one at o on, a multiple of 2^g. */
  ghost predicate TopInterval(low: nat, high: nat, o: nat, g: nat) {
    low == TopPoint(o) && high == TopPoint(o + Pow2(g)) && o + Pow2(g) <= TOP_STEPS && Aligned(o, g)
  }

  lemma {:induction false} Pow2IsPower(g: nat)
    ensures PowerOfTwo(Pow2(g))
  {
    if g > 0 {
      Pow2IsPower(g - 1);
    }
  }

  lemma {:induction false} ZeroIsAligned(g: nat)
    ensures Aligned(0, g)
  {
    if g > 0 {
      ZeroIsAligned(g - 1);
    }
  }

  /** The middle of an aligned interval is aligned, and is a power of two in the first only. */
  lemma {:induction false} AlignedHalves(o: nat, g: nat)
    requires g > 0 && Aligned(o, g)
    ensures Aligned(o, g - 1) && Aligned(o + Pow2(g - 1), g - 1)
    ensures o > 0 ==> !PowerOfTwo(o + Pow2(g - 1))
    decreases g
  {
    if g > 1 {
      AlignedHalves(o / 2, g - 1);
      assert Pow2(g - 1) == 2 * Pow2(g - 2);
      assert (o + Pow2(g - 1)) / 2 == o / 2 + Pow2(g - 2);
    }
  }

  lemma TopEnds()
    ensures TopPoint(0) == TOP
    ensures Pow2(57) == TOP_STEPS && TopPoint(TOP_STEPS) == U64_MAX
    ensures TopInterval(TOP, U64_MAX, 0, 57)
  {
    hide Pow2, PowerOfTwo, Aligned;
    Pow2IsPower(57);
    ZeroIsAligned(57);
    Pow2Values();
    Pow2Sum(57, 6);
  }

  lemma HalfLess(x: nat, d: nat)
    requires d <= 2 <= x
    ensures (2 * x - d) / 2 == if d == 0 then x else x - 1
  {
  }

  /** The middle between two points is a point. */
  lemma TopMiddle(o: nat, half: nat)
    requires half >= 1
    requires if o == 0 then PowerOfTwo(half) && PowerOfTwo(2 * half) else !PowerOfTwo(o + half)
    ensures TopPoint(o + 2 * half) / 2 + TopPoint(o) / 2 == TopPoint(o + half)
  {
    hide PowerOfTwo;
    HalfLess(TOP / 2 + 32 * o, Defect(o));
    HalfLess(TOP / 2 + 32 * (o + 2 * half), Defect(o + 2 * half));
  }

  /** Halving an interval of points longer than 100 meets a point. */
  lemma TopHalves(low: u64, high: u64, o: nat, g: nat)
    requires TopInterval(low, high, o, g) && low <= high && high - low > 100
    ensures g >= 1
    ensures TopInterval(low, Middle(low, high), o, g - 1)
    ensures TopInterval(Middle(low, high), high, o + Pow2(g - 1), g - 1)
  {
    assert Pow2(0) == 1;
    assert g >= 1 by { hide PowerOfTwo; }
    assert Pow2(g) == 2 * Pow2(g - 1);
    AlignedHalves(o, g);
    Pow2IsPower(g - 1);
    Pow2IsPower(g);
    hide Pow2, Aligned, PowerOfTwo, TopPoint;
    TopMiddle(o, Pow2(g - 1));
  }

  /** Two neighbouring points from 2^63 on. */
  ghost predicate TopStep(low: nat, high: nat) {
    exists c: nat :: c < TOP_STEPS && low == TopPoint(c) && high == TopPoint(c + 1)
  }

  lemma TopNeighbours(low: nat, high: nat, o: nat, g: nat)
    requires TopInterval(low, high, o, g) && high - low <= 100
    ensures TopStep(low, high)
  {
    hide TopPoint;
    assert Pow2(0) == 1;
    assert g >= 1 ==> Pow2(g) >= 2;
  }

  /** After so many halvings the gap is at most 2^(64 - steps) and the two roundings. */
  ghost predicate GapAfter(gap: nat, steps: nat) {
    steps <= 64 && gap <= Pow2(64 - steps) + 2
  }

  lemma GapAtFirst(gap: u64)
    ensures GapAfter(gap, 0)
  {
    Pow2Values();
  }

  lemma GapHalves(low: u64, high: u64, steps: nat)
    requires low <= high && GapAfter(high - low, steps) && high - low > 100
    ensures steps <= 57
    ensures low < Middle(low, high) < high
    ensures GapAfter(Middle(low, high) - low, steps + 1) && GapAfter(high - Middle(low, high), steps + 1)
  {
    Pow2Values();
    if steps >= 58 {
      Pow2Monotone(64 - steps, 6);
    } else {
      assert Pow2(64 - steps) == 2 * Pow2(63 - steps);
    }
  }

  /** `refine_lower`.  The ghost results are the low end the search stopped at and the
      number of calls of f. */
  method RefineLower(f: Probe, from: u64, to: u64, ghost e: nat)
    returns (lower: u64, ghost below: u64, ghost probes: nat)
    requires from <= to && forall x: u64 :: !f(x).Panic?
    ensures probes <= 60
    ensures from <= below <= lower <= to && lower - below <= 100
    ensures below == from || !Quotes(f, below)
    ensures lower == to || Quotes(f, lower)
    ensures to - from <= 100 ==> below == from && lower == to
    ensures Dyadic(from, to, e) ==> lower - below == 64 && lower % 64 == 0
  {
    var low, high := from, to;
    ghost var g := e;
    probes := 2;
    ghost var steps := 0;
    GapAtFirst(high - low);
    hide Dyadic, GapAfter, Middle, Quotes;
    while high - low > 100
      invariant from <= low <= high <= to
      invariant low == from || !Quotes(f, low)
      invariant high == to || Quotes(f, high)
      invariant to - from <= 100 ==> low == from && high == to
      invariant steps <= 58 && GapAfter(high - low, steps) && probes == 2 + steps
      invariant Dyadic(from, to, e) ==> Dyadic(low, high, g)
      decreases high - low
    {
      GapHalves(low, high, steps);
      if Dyadic(from, to, e) {
        DyadicHalves(low, high, g);
        g := g - 1;
      }
      var mid := Middle(low, high);
      if Quotes(f, mid) {
        high := mid;
      } else {
        low := mid;
      }
      steps, probes := steps + 1, probes + 1;
    }
    if Dyadic(from, to, e) {
      DyadicEnds(low, high, g);
    }
    lower, below := high, low;
  }

  /** The shape of the interval from low to high, in a search of the one from `from` to `to`. */
  ghost predicate Shaped(from: nat, to: nat, e: nat, low: nat, high: nat, g: nat, o: nat, h: nat) {
    && (Dyadic(from, to, e) ==> Dyadic(low, high, g))
    && (from == TOP && to == U64_MAX ==> TopInterval(low, high, o, h))
  }

  lemma TheWhole(from: nat, to: nat, e: nat)
    ensures Shaped(from, to, e, from, to, e, 0, 57)
  {
    TopEnds();
  }

  lemma ShapedHalves(from: nat, to: nat, e: nat, low: u64, high: u64, g: nat, o: nat, h: nat)
    returns (g': nat, o': nat, h': nat)
    requires Shaped(from, to, e, low, high, g, o, h) && low <= high && high - low > 100
    ensures Shaped(from, to, e, low, Middle(low, high), g', o, h')
    ensures Shaped(from, to, e, Middle(low, high), high, g', o', h')
  {
    hide Dyadic, TopInterval, Middle;
    g', o', h' := g, o, h;
    if Dyadic(from, to, e) {
      DyadicHalves(low, high, g);
      g' := g - 1;
    }
    if from == TOP && to == U64_MAX {
      TopHalves(low, high, o, h);
      o', h' := o + Pow2(h - 1), h - 1;
    }
  }

  lemma ShapedEnds(from: nat, to: nat, e: nat, low: nat, high: nat, g: nat, o: nat, h: nat)
    requires Shaped(from, to, e, low, high, g, o, h) && low <= high && high - low <= 100
    ensures Dyadic(from, to, e) ==> high - low == 64 && low % 64 == 0
    ensures from == TOP && to == U64_MAX ==> TopStep(low, high)
  {
    hide TopInterval;
    if Dyadic(from, to, e) {
      DyadicEnds(low, high, g);
    }
    if from == TOP && to == U64_MAX {
      TopNeighbours(low, high, o, h);
    }
  }

  /** `refine_upper`.  The ghost results are the high end the search stopped at and the
      number of calls of f. */
  method RefineUpper(f: Probe, from: u64, to: u64, ghost e: nat)
    returns (upper: u64, ghost above: u64, ghost probes: nat)
    requires from <= to && forall x: u64 :: !f(x).Panic?
    ensures probes <= 60
    ensures from <= upper <= above <= to && above - upper <= 100
    ensures above == to || !Quotes(f, above)
    ensures upper == from || Quotes(f, upper)
    ensures to - from <= 100 ==> upper == from && above == to
    ensures Dyadic(from, to, e) ==> above - upper == 64 && upper % 64 == 0
    ensures from == TOP && to == U64_MAX ==> TopStep(upper, above)
  {
    var low, high := from, to;
    ghost var g := e;
    ghost var o: nat, h: nat := 0, 57;
    probes := 2;
    ghost var steps := 0;
    GapAtFirst(high - low);
    hide Shaped, Dyadic, TopStep, GapAfter, Middle, Quotes;
    TheWhole(from, to, e);
    while high - low > 100
      invariant from <= low <= high <= to
      invariant low == from || Quotes(f, low)
      invariant high == to || !Quotes(f, high)
      invariant to - from <= 100 ==> low == from && high == to
      invariant steps <= 58 && GapAfter(high - low, steps) && probes == 2 + steps
      invariant Shaped(from, to, e, low, high, g, o, h)
      decreases high - low
    {
      GapHalves(low, high, steps);
      ghost var o': nat;
      g, o', h := ShapedHalves(from, to, e, low, high, g, o, h);
      var mid := Middle(low, high);
      if Quotes(f, mid) {
        low, o := mid, o';
      } else {
        high := mid;
      }
      steps, probes := steps + 1, probes + 1;
    }
    ShapedEnds(from, to, e, low, high, g, o, h);
    upper, above := low, high;
  }

  // ------------------------------------------------------------------------------------
  // The whole search
  // ------------------------------------------------------------------------------------

  /** Sizes the search can name exactly: multiples of 64 and the powers of two below. */
  predicate OnGrid(x: nat) {
    x in {1, 2, 4, 8, 16, 32} || (x > 0 && x % 64 == 0)
  }

  /** The neighbours of a grid size; below 1 comes 0. */
  function GridBelow(x: nat): nat
    requires OnGrid(x)
  {
    if x == 1 then 0 else if x <= 64 then x / 2 else x - 64
  }

  function GridAbove(x: nat): nat
    requires OnGrid(x)
  {
    if x < 64 then 2 * x else x + 64
  }

  /** Some power of two below 2^64 quotes. */
  ghost predicate SomePowerQuotes(f: Probe) {
    exists k: nat :: k <= 63 && Quotes(f, Power(k))
  }

  /** No power of two below 2^63 quotes, so the search has to ask for 2^64 - 1. */
  ghost predicate LowPowersFail(f: Probe) {
    forall k: nat :: k < 63 ==> !Quotes(f, Power(k))
  }

  /** What a successful search has established about its result, for any f: both ends quote,
      `below` does not, and neither does `above` unless it is the unprobed 2^64 - 1; both ends
      lie on the grid, or from 2^63 on among the points of the last bisection, with `below`
      and `above` their neighbours; and 2^64 - 1 is the result exactly when it was probed and
      quotes. */
  ghost predicate Bracketed(f: Probe, lower: u64, upper: u64, below: u64, above: u64) {
    && below < lower <= upper <= above
    && Quotes(f, lower) && Quotes(f, upper)
    && (below == 0 || !Quotes(f, below))
    && (above == U64_MAX || !Quotes(f, above))
    && (upper == above ==> upper == U64_MAX)
    && lower - below <= 100 && above - upper <= 100
    && OnGrid(lower) && below == GridBelow(lower)
    && (upper < TOP ==> OnGrid(upper) && above == GridAbove(upper))
    && (upper >= TOP && upper < U64_MAX ==> TopStep(upper, above))
    && (upper == U64_MAX ==> LowPowersFail(f))
    && (upper >= TOP && Quotes(f, U64_MAX) && LowPowersFail(f) ==> upper == U64_MAX)
  }

  lemma SmallPowers()
    ensures Pow2(0) == 1 && Pow2(1) == 2 && Pow2(2) == 4 && Pow2(3) == 8
    ensures Pow2(4) == 16 && Pow2(5) == 32 && Pow2(6) == 64
  {
  }

  lemma SmallPowersOnGrid(k: nat)
    requires k <= 6
    ensures OnGrid(Pow2(k)) && Pow2(k) <= 64
  {
    SmallPowers();
    hide Pow2;
  }

  /** The interval below a power of two is dyadic, or short with both ends on the grid. */
  lemma CoarseGap(k: nat)
    requires k <= 63
    ensures k > 0 ==> Power(k - 1) < Power(k) && Power(k) == 2 * Power(k - 1)
    ensures k >= 7 ==> Dyadic(Power(k - 1), Power(k), k - 1)
    ensures k <= 6 ==> OnGrid(Power(k)) && Power(k) <= 64
    ensures 6 <= k < 63 ==> Dyadic(Power(k), Power(k + 1), k)
    ensures k < 63 ==> Power(k + 1) == 2 * Power(k) <= Power(63)
  {
    hide Pow2, OnGrid;
    if k > 0 {
      Pow2Doubles(k);
    }
    if k < 63 {
      Pow2Doubles(k + 1);
      Pow2Monotone(k + 1, 63);
    }
    if k >= 6 {
      Pow2Aligned(k);
      Pow2Aligned(if k >= 7 then k - 1 else k);
    }
    if k <= 6 {
      SmallPowersOnGrid(k);
    }
  }

  /** `find_boundaries`: for any f it succeeds exactly when some power of two quotes, fails
      only with NoQuotableValue, and makes at most 185 calls. */
  method FindBoundaries(f: Probe)
    returns (r: BoundsResult, ghost below: u64, ghost above: u64, ghost probes: nat)
    requires forall x: u64 :: !f(x).Panic?
    ensures probes <= 185
    ensures r.Found? <==> SomePowerQuotes(f)
    ensures r.NotFound? ==> r.error == NoQuotableValue
    ensures r.Found? ==> Bracketed(f, r.lower, r.upper, below, above)
  {
    hide Quotes, Pow2, Dyadic, PowerOfTwo, Defect;
    var lowerLow, lowerHigh, upperLow, upperHigh;
    ghost var k, j;
    lowerLow, lowerHigh, upperLow, upperHigh, k, j, probes := FindBoundariesCoarse(f);
    below, above := 0, 0;
    Pow2Values();
    SmallPowers();
    if k < 64 {
      CoarseGap(k);
      CoarseGap(j);
      Pow2Monotone(k, j);
    }
    if lowerLow == upperHigh {
      return NotFound(BoundarySearchFailed), below, above, probes;
    }
    if lowerHigh == U64_MAX {
      return NotFound(NoQuotableValue), below, above, probes;
    }
    ghost var probesLower, probesUpper;
    var lower, upper;
    lower, below, probesLower := RefineLower(f, lowerLow, lowerHigh, if k > 0 then k - 1 else 0);
    upper, above, probesUpper := RefineUpper(f, upperLow, upperHigh, j);
    probes := probes + probesLower + probesUpper;
    r := Found(lower, upper);
  }
}
