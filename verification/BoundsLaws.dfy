/** What the result of the boundary search means when the sizes that quote form an interval. */
module BoundsLaws {
  import opened Numbers
  import opened Bounds

  /** The sizes that quote have no gap. */
  ghost predicate Contiguous(f: Probe) {
    forall x: u64, y: u64, z: u64 :: x <= y <= z && Quotes(f, x) && Quotes(f, z) ==> Quotes(f, y)
  }

  /** The sizes that quote are exactly those from a to b. */
  ghost predicate QuotesBetween(f: Probe, a: u64, b: u64) {
    forall x: u64 :: Quotes(f, x) <==> a <= x <= b
  }

  /** On a gapless range not containing 0, everything between the bounds quotes, nothing 100
      or more below does, and nothing 100 or more above does except possibly 2^64 - 1. */
  lemma BoundsOfContiguousRange(f: Probe, lower: u64, upper: u64, below: u64, above: u64)
    requires Contiguous(f) && !Quotes(f, 0)
    requires Bracketed(f, lower, upper, below, above)
    ensures forall x: u64 :: lower <= x <= upper ==> Quotes(f, x)
    ensures forall x: u64 :: x + 100 <= lower ==> !Quotes(f, x)
    ensures forall x: u64 :: x >= upper + 100 && x < U64_MAX ==> !Quotes(f, x)
  {
    forall x: u64 | x + 100 <= lower
      ensures !Quotes(f, x)
    {
      assert x <= below <= lower;
      assert !Quotes(f, below);
    }
    forall x: u64 | x >= upper + 100 && x < U64_MAX
      ensures !Quotes(f, x)
    {
      assert upper <= above <= x;
      assert !Quotes(f, above);
    }
  }

  /** The least grid size that is at least a. */
  function GridUp(a: nat): (g: nat)
    requires a > 0
    ensures OnGrid(g) && GridBelow(g) < a <= g
    ensures g == a <==> OnGrid(a)
  {
    if a > 64 then (a + 63) / 64 * 64
    else if a > 32 then 64
    else if a > 16 then 32
    else if a > 8 then 16
    else if a > 4 then 8
    else if a > 2 then 4
    else a
  }

  /** The greatest grid size that is at most b. */
  function GridDown(b: nat): (g: nat)
    requires b > 0
    ensures OnGrid(g) && g <= b < GridAbove(g)
    ensures g == b <==> OnGrid(b)
  {
    if b >= 64 then b / 64 * 64
    else if b >= 32 then 32
    else if b >= 16 then 16
    else if b >= 8 then 8
    else if b >= 4 then 4
    else if b >= 2 then 2
    else 1
  }

  /** A size lies in one step of the grid only. */
  lemma GridStepsAreDisjoint(g: nat, h: nat)
    requires OnGrid(g) && OnGrid(h)
    ensures g < h ==> g <= GridBelow(h) && GridAbove(g) <= h
  {
  }

  /** The last point below 2^64 - 1 of the bisection from 2^63 on that is at most b. */
  function TopIndex(b: u64): (c: nat)
    requires b >= TOP
    ensures c < TOP_STEPS && TopPoint(c) <= b
    ensures c + 1 < TOP_STEPS ==> b < TopPoint(c + 1)
  {
    var c := (b - TOP + 2) / 64;
    TopEnds();
    if c < TOP_STEPS && TopPoint(c) <= b then c else c - 1
  }

  lemma PointsAscend(i: nat, j: nat)
    ensures i < j ==> TopPoint(i) < TopPoint(j)
  {
  }

  /** A size lies in one step of those points only. */
  lemma TopStepIsIndex(b: u64, low: nat, high: nat)
    requires b >= TOP && TopStep(low, high) && low <= b && (b < high || high == U64_MAX)
    ensures low == TopPoint(TopIndex(b)) < U64_MAX
  {
    hide TopIndex, PowerOfTwo, Defect;
    var c: nat :| c < TOP_STEPS && low == TopPoint(c) && high == TopPoint(c + 1);
    TopEnds();
    PointsAscend(c, TopIndex(b));
    PointsAscend(TopIndex(b), c);
    PointsAscend(c + 1, TOP_STEPS);
  }

  /** Where the search's upper end lies for a range from a to b. */
  function GridEnd(a: u64, b: u64): nat
    requires 1 <= a <= b
  {
    if b < TOP then GridDown(b)
    else if b == U64_MAX && a > TOP / 2 then U64_MAX
    else TopPoint(TopIndex(b))
  }

  /** The powers of two below 2^63 all fail exactly on ranges that start above 2^62 and reach
      2^63. */
  lemma LowPowersFailIff(f: Probe, a: u64, b: u64)
    requires a <= TOP <= b && QuotesBetween(f, a, b)
    ensures LowPowersFail(f) <==> a > TOP / 2
  {
    Pow2Values();
    assert Power(63) == 2 * Power(62);
    if a > TOP / 2 {
      forall k: nat | k < 63
        ensures !Quotes(f, Power(k))
      {
        Pow2Monotone(k, 62);
      }
    } else {
      assert Quotes(f, Power(62));
    }
  }

  lemma StartsByTop(f: Probe, a: u64, b: u64)
    requires QuotesBetween(f, a, b) && SomePowerQuotes(f)
    ensures a <= TOP
  {
    var k: nat :| k <= 63 && Quotes(f, Power(k));
    Pow2Values();
    Pow2Monotone(k, 63);
  }

  /** Where the sizes that quote run from a to b, the search rounds a up to the grid and b down
      to it; from 2^63 on, down to a point of its last bisection, except that it finds
      2^64 - 1 when it has had to ask for it. */
  lemma BoundsRoundToGrid(f: Probe, a: u64, b: u64, lower: u64, upper: u64, below: u64, above: u64)
    requires 1 <= a && QuotesBetween(f, a, b) && SomePowerQuotes(f)
    requires Bracketed(f, lower, upper, below, above)
    ensures a <= b
    ensures lower == GridUp(a)
    ensures upper == GridEnd(a, b)
  {
    hide TopPoint, TopStep, LowPowersFail;
    assert Quotes(f, lower) && Quotes(f, upper);
    assert below < a <= lower;
    GridStepsAreDisjoint(lower, GridUp(a));
    GridStepsAreDisjoint(GridUp(a), lower);
    if b < TOP {
      assert upper <= b < above;
      GridStepsAreDisjoint(upper, GridDown(b));
      GridStepsAreDisjoint(GridDown(b), upper);
    } else {
      StartsByTop(f, a, b);
      LowPowersFailIff(f, a, b);
      if upper >= TOP && upper < U64_MAX {
        TopStepIsIndex(b, upper, above);
      }
    }
  }

  /** The documented promise is that sizes from lower to upper quote and no others do.  It is
      kept exactly when both ends of the range are on the grid, the upper one in the sense of
      the search from 2^63 on. */
  lemma DocumentedExactlyOnGrid(f: Probe, a: u64, b: u64, lower: u64, upper: u64, below: u64, above: u64)
    requires 1 <= a && QuotesBetween(f, a, b) && SomePowerQuotes(f)
    requires Bracketed(f, lower, upper, below, above)
    ensures a <= b
    ensures QuotesBetween(f, lower, upper) <==>
            && OnGrid(a)
            && if b < TOP then OnGrid(b)
               else if b == U64_MAX then a > TOP / 2
               else b == TopPoint(TopIndex(b))
  {
    BoundsRoundToGrid(f, a, b, lower, upper, below, above);
    hide TopPoint, TopIndex;
    if QuotesBetween(f, lower, upper) {
      assert Quotes(f, a) && Quotes(f, b) && Quotes(f, lower) && Quotes(f, upper);
    }
  }

  /** A range reaching from a to at least 2a - 1, with a at most 2^63, contains a power of two. */
  lemma {:induction false} PowerWithin(a: nat, k: nat) returns (i: nat)
    requires 1 <= a <= Pow2(k)
    ensures i <= k && a <= Pow2(i) <= 2 * a - 1
    decreases k
  {
    if k == 0 || a > Pow2(k - 1) {
      i := k;
    } else {
      i := PowerWithin(a, k - 1);
    }
  }

  lemma WideRangeIsFound(f: Probe, a: u64, b: u64)
    requires 1 <= a <= 0x8000_0000_0000_0000 && 2 * a - 1 <= b && QuotesBetween(f, a, b)
    ensures SomePowerQuotes(f)
  {
    Pow2Values();
    var i := PowerWithin(a, 63);
    assert Quotes(f, Power(i));
  }

  /** The sizes 5 to 7 quote, yet the search reports that nothing does. */
  lemma NarrowRangeIsMissed(f: Probe)
    requires QuotesBetween(f, 5, 7)
    ensures !SomePowerQuotes(f)
  {
    forall k: nat | k <= 63
      ensures !Quotes(f, Power(k))
    {
      SmallPowers();
      if k > 3 {
        Pow2Monotone(3, k);
      }
    }
  }
}
