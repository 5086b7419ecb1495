/**
 What the progressive fee guarantees: the loop computes the bracket schedule, splitting a
 withdrawal costs at most one atom per extra part, and the marginal rate is the slope of
 the fee up to the rounding of the brackets crossed.
 */
module HumaFeeLaws {
  import opened Numbers
  import opened HumaFee

  // ------------------------------------------------------------------------------------
  // The trajectory
  // ------------------------------------------------------------------------------------

  /** The bracket index never rises as more is withdrawn, whatever the order of the tiers. */
  lemma BracketFalls(tiers: seq<Tier>, total: nat, liquid: nat, w1: nat, w2: nat)
    requires liquid <= total && w1 <= w2 < total
    ensures BracketAfter(tiers, total, liquid, w2) <= BracketAfter(tiers, total, liquid, w1)
  {
    var i := BracketAfter(tiers, total, liquid, w1);
    if i < |tiers| && w2 < liquid {
      MatchingPersists(tiers[i].ltBps, total - w1, liquid - w1, w2 - w1);
      assert Matches(tiers[i], SatSub(total, w2), SatSub(liquid, w2));
    } else if i < |tiers| {
      assert Matches(tiers[i], SatSub(total, w2), SatSub(liquid, w2));
    }
  }

  function EnterOf(tiers: seq<Tier>, total: nat, liquid: nat, i: nat): nat
    requires liquid <= total && i < |tiers|
  {
    Enter(tiers[i].ltBps, total, liquid)
  }

  /** A withdrawal lies between the entry points of its own bracket and the one above. */
  lemma BracketBounds(tiers: seq<Tier>, total: nat, liquid: nat, w: nat)
    requires liquid <= total && w < total
    ensures BracketAfter(tiers, total, liquid, w) < |tiers| ==>
              EnterOf(tiers, total, liquid, BracketAfter(tiers, total, liquid, w)) <= w
    ensures forall j :: 0 <= j < BracketAfter(tiers, total, liquid, w) ==>
              w <= EnterOf(tiers, total, liquid, j)
  {
    var k := BracketAfter(tiers, total, liquid, w);
    if k < |tiers| {
      Crossing(tiers[k], total, liquid, w);
    }
    forall j | 0 <= j < k
      ensures w <= EnterOf(tiers, total, liquid, j)
    {
      Crossing(tiers[j], total, liquid, w);
    }
  }

  lemma CutLosesNothing(x: u64)
    ensures Low64(x) == x
  {
  }

  /** Above a threshold the boundary is well defined, fits 64 bits, and is the entry point. */
  lemma BoundaryIsEntry(t: Tier, total: u64, liquid: u64)
    requires liquid <= total && !Matches(t, total, liquid)
    ensures AmountAtBoundary(t.ltBps, total, liquid) == Some(Enter(t.ltBps, total, liquid))
  {
    EnterDefined(t.ltBps, total, liquid);
    EnterAtMostLiquid(t.ltBps, total, liquid);
    hide Low64;
    CutLosesNothing(Enter(t.ltBps, total, liquid));
  }

  /** For ascending tiers a withdrawal walks down from its starting bracket to its ending
      one, every boundary on the way is well defined, and the exits ascend from 0 to w: the
      slices are non-negative and add up to the withdrawal. */
  lemma TrajectoryWellFormed(tiers: seq<Tier>, total: u64, liquid: u64, w: u64)
    requires Sorted(tiers) && liquid <= total && w < total
    requires Bracket(tiers, total, liquid) < |tiers|
    ensures BracketAfter(tiers, total, liquid, w) <= Bracket(tiers, total, liquid)
    ensures EnterOf(tiers, total, liquid, Bracket(tiers, total, liquid)) == 0
    ensures EnterOf(tiers, total, liquid, BracketAfter(tiers, total, liquid, w)) <= w
    ensures forall i :: BracketAfter(tiers, total, liquid, w) <= i < Bracket(tiers, total, liquid) ==>
              && AmountAtBoundary(tiers[i].ltBps, total, liquid) == Some(EnterOf(tiers, total, liquid, i))
              && EnterOf(tiers, total, liquid, i + 1) <= EnterOf(tiers, total, liquid, i) <= w
  {
    hide AmountAtBoundary;
    var iStart, iEnd := Bracket(tiers, total, liquid), BracketAfter(tiers, total, liquid, w);
    assert EnterOf(tiers, total, liquid, iStart) == 0;
    hide Enter, Matches;
    BracketFalls(tiers, total, liquid, 0, w);
    BracketBounds(tiers, total, liquid, w);
    forall i | iEnd <= i < iStart
      ensures AmountAtBoundary(tiers[i].ltBps, total, liquid) == Some(EnterOf(tiers, total, liquid, i))
      ensures EnterOf(tiers, total, liquid, i + 1) <= EnterOf(tiers, total, liquid, i) <= w
    {
      BoundaryIsEntry(tiers[i], total, liquid);
      EnterDescends(tiers[i].ltBps, tiers[i + 1].ltBps, total, liquid);
      EnterDescends(tiers[iEnd].ltBps, tiers[i].ltBps, total, liquid);
    }
  }

  // ------------------------------------------------------------------------------------
  // The loop computes the schedule
  // ------------------------------------------------------------------------------------

  /** Nothing has been charged before the first atom. */
  lemma {:induction false} ScheduleAtZero(tiers: seq<Tier>, total: nat, liquid: nat, i: nat)
    requires Sorted(tiers) && liquid <= total && i <= |tiers|
    requires i < |tiers| ==> EnterOf(tiers, total, liquid, i) == 0
    ensures Schedule(tiers, total, liquid, i, 0) == 0
    decreases |tiers| - i
  {
    if i < |tiers| {
      if i + 1 < |tiers| {
        EnterDescends(tiers[i].ltBps, tiers[i + 1].ltBps, total, liquid);
      }
      ScheduleAtZero(tiers, total, liquid, i + 1);
    }
  }

  /** A slice charged at 100% or less costs no more than itself. */
  lemma SliceFeeAtMost(t: Tier, slice: nat)
    requires t.feeBps <= BPS
    ensures Low64(SliceFee(t, slice)) <= SliceFee(t, slice) <= slice
  {
    Scale(slice, t.feeBps, BPS);
    CeilAtMost(slice * t.feeBps, BPS, slice);
  }

  /** One pass of the loop, once its exit is known. */
  lemma ChargePass(tiers: seq<Tier>, total: u64, liquid: u64, w: u64, iEnd: nat, i: nat,
                   enter: u64, exit: u64, acc: u64)
    requires iEnd <= i < |tiers|
    requires if i == iEnd then exit == w
             else AmountAtBoundary(tiers[i - 1].ltBps, total, liquid) == Some(exit)
    ensures exit < enter ==>
              Charge(tiers, total, liquid, w, iEnd, i, enter, acc) == Abort(SliceFault)
    ensures exit >= enter && acc + Low64(SliceFee(tiers[i], exit - enter)) > U64_MAX ==>
              Charge(tiers, total, liquid, w, iEnd, i, enter, acc) == Abort(TotalFault)
    ensures exit >= enter && acc + Low64(SliceFee(tiers[i], exit - enter)) <= U64_MAX ==>
              Charge(tiers, total, liquid, w, iEnd, i, enter, acc)
              == if i == iEnd then Fee(acc + Low64(SliceFee(tiers[i], exit - enter)))
                 else Charge(tiers, total, liquid, w, iEnd, i - 1, exit, acc + Low64(SliceFee(tiers[i], exit - enter)))
  {
    hide SliceFee, AmountAtBoundary, Low64;
  }

  /** One pass of the loop over a bracket whose slice is charged in full. */
  lemma ChargeStep(tiers: seq<Tier>, total: u64, liquid: u64, w: u64, iEnd: nat, i: nat,
                   enter: u64, exit: u64, acc: u64)
    requires iEnd <= i < |tiers| && tiers[i].feeBps <= BPS
    requires acc <= enter <= exit
    requires if i == iEnd then exit == w
             else AmountAtBoundary(tiers[i - 1].ltBps, total, liquid) == Some(exit)
    ensures acc + SliceFee(tiers[i], exit - enter) <= exit
    ensures Charge(tiers, total, liquid, w, iEnd, i, enter, acc)
         == if i == iEnd then Fee(acc + SliceFee(tiers[i], exit - enter))
            else Charge(tiers, total, liquid, w, iEnd, i - 1, exit, acc + SliceFee(tiers[i], exit - enter))
  {
    hide SliceFee, Charge, AmountAtBoundary;
    SliceFeeAtMost(tiers[i], exit - enter);
    assert Low64(SliceFee(tiers[i], exit - enter)) == SliceFee(tiers[i], exit - enter);
    ChargePass(tiers, total, liquid, w, iEnd, i, enter, exit, acc);
  }

  /** The loop from bracket i on, given the entry point and the charge so far. */
  lemma {:induction false} ChargeIsSchedule(tiers: seq<Tier>, total: u64, liquid: u64, w: u64,
                                            i: nat, enter: u64, acc: u64)
    requires Progressive(tiers) && liquid <= total && w < total
    requires Bracket(tiers, total, liquid) < |tiers|
    requires BracketAfter(tiers, total, liquid, w) <= i <= Bracket(tiers, total, liquid)
    requires tiers[BracketAfter(tiers, total, liquid, w)].feeBps < BPS
    requires enter == EnterOf(tiers, total, liquid, i)
    requires acc == Schedule(tiers, total, liquid, i + 1, enter) <= enter
    ensures Schedule(tiers, total, liquid, BracketAfter(tiers, total, liquid, w), w) <= w
    ensures Charge(tiers, total, liquid, w, BracketAfter(tiers, total, liquid, w), i, enter, acc)
         == Fee(Schedule(tiers, total, liquid, BracketAfter(tiers, total, liquid, w), w))
    decreases i
  {
    hide Enter, SliceFee, AmountAtBoundary, Charge, Bracket, Matches;
    var iEnd := BracketAfter(tiers, total, liquid, w);
    TrajectoryWellFormed(tiers, total, liquid, w);
    var exit := if i == iEnd then w else EnterOf(tiers, total, liquid, i - 1);
    ChargeStep(tiers, total, liquid, w, iEnd, i, enter, exit, acc);
    if i > iEnd {
      ChargeIsSchedule(tiers, total, liquid, w, i - 1, exit, acc + SliceFee(tiers[i], exit - enter));
    }
  }

  /** For progressive tiers the computation never aborts, refuses exactly the withdrawals
      that are not served, and otherwise returns the scheduled fee, which is at most the
      withdrawal itself. */
  lemma FeeIsScheduled(tiers: seq<Tier>, total: u64, liquid: u64, w: u64)
    requires Progressive(tiers) && liquid <= total
    ensures Served(tiers, total, liquid, w) ==>
              ScheduledFee(tiers, total, liquid, w) <= w &&
              WithdrawalFee(tiers, total, liquid, w) == Fee(ScheduledFee(tiers, total, liquid, w))
    ensures !Served(tiers, total, liquid, w) ==> WithdrawalFee(tiers, total, liquid, w) == Unserved
  {
    if Served(tiers, total, liquid, w) && w > 0 {
      var iStart := Bracket(tiers, total, liquid);
      TrajectoryWellFormed(tiers, total, liquid, w);
      if iStart + 1 < |tiers| {
        EnterDescends(tiers[iStart].ltBps, tiers[iStart + 1].ltBps, total, liquid);
      }
      ScheduleAtZero(tiers, total, liquid, iStart + 1);
      ChargeIsSchedule(tiers, total, liquid, w, iStart, 0, 0);
    }
  }

  // ------------------------------------------------------------------------------------
  // When the loop faults, for tiers in any order
  // ------------------------------------------------------------------------------------

  /** The withdrawal would reach bracket j before the bracket above it. */
  predicate Backwards(tiers: seq<Tier>, total: nat, liquid: nat, j: nat)
    requires liquid <= total && j + 1 < |tiers|
  {
    EnterOf(tiers, total, liquid, j) < EnterOf(tiers, total, liquid, j + 1)
  }

  predicate BackwardsBetween(tiers: seq<Tier>, total: nat, liquid: nat, low: nat, high: nat)
    requires liquid <= total && high < |tiers|
  {
    exists j: nat :: low <= j < high && Backwards(tiers, total, liquid, j)
  }

  /** On its way from its starting to its ending bracket the withdrawal walks backwards. */
  predicate Disordered(tiers: seq<Tier>, total: nat, liquid: nat, w: nat)
    requires liquid <= total && Bracket(tiers, total, liquid) < |tiers|
  {
    BackwardsBetween(tiers, total, liquid, BracketAfter(tiers, total, liquid, w), Bracket(tiers, total, liquid))
  }

  /** Where the withdrawal leaves bracket i. */
  function ExitOf(tiers: seq<Tier>, total: nat, liquid: nat, w: nat, i: nat): nat
    requires liquid <= total && i < |tiers|
  {
    if i == 0 || i == BracketAfter(tiers, total, liquid, w) then w else EnterOf(tiers, total, liquid, i - 1)
  }

  /** The charges from bracket i on, each cut to 64 bits, up to the first step backwards. */
  function CutCharges(tiers: seq<Tier>, total: nat, liquid: nat, w: nat, i: nat): nat
    requires liquid <= total && i < |tiers|
    decreases i
  {
    var enter, exit := EnterOf(tiers, total, liquid, i), ExitOf(tiers, total, liquid, w, i);
    if exit < enter then 0
    else
      Low64(SliceFee(tiers[i], exit - enter))
      + if i <= BracketAfter(tiers, total, liquid, w) then 0 else CutCharges(tiers, total, liquid, w, i - 1)
  }

  lemma OneBracketFurther(tiers: seq<Tier>, total: nat, liquid: nat, low: nat, high: nat)
    requires liquid <= total && low <= high < |tiers|
    ensures low == high ==> !BackwardsBetween(tiers, total, liquid, low, high)
    ensures low < high ==> (BackwardsBetween(tiers, total, liquid, low, high) <==>
              Backwards(tiers, total, liquid, high - 1) || BackwardsBetween(tiers, total, liquid, low, high - 1))
  {
    hide Backwards;
  }

  /** What the loop makes of a charge and of whether it walks backwards after it. */
  function Outcome(charges: nat, backwards: bool): FeeResult {
    if charges > U64_MAX then Abort(TotalFault)
    else if backwards then Abort(SliceFault)
    else Fee(charges)
  }

  /** The exits on the way are where the loop finds them. */
  lemma ExitsAreFound(tiers: seq<Tier>, total: u64, liquid: u64, w: u64, i: nat)
    requires liquid <= total && w < total
    requires BracketAfter(tiers, total, liquid, w) <= i <= Bracket(tiers, total, liquid) < |tiers|
    ensures if i == BracketAfter(tiers, total, liquid, w)
            then EnterOf(tiers, total, liquid, i) <= ExitOf(tiers, total, liquid, w, i) == w
            else AmountAtBoundary(tiers[i - 1].ltBps, total, liquid) == Some(ExitOf(tiers, total, liquid, w, i))
                 && ExitOf(tiers, total, liquid, w, i) == EnterOf(tiers, total, liquid, i - 1)
  {
    hide Enter, AmountAtBoundary;
    BracketBounds(tiers, total, liquid, w);
    if i > BracketAfter(tiers, total, liquid, w) {
      BoundaryIsEntry(tiers[i - 1], total, liquid);
    }
  }

  /** The loop from bracket i on, with tiers in any order and of any rates. */
  lemma {:induction false} ChargeIsOutcome(tiers: seq<Tier>, total: u64, liquid: u64, w: u64,
                                           i: nat, enter: u64, acc: u64)
    requires liquid <= total && w < total
    requires BracketAfter(tiers, total, liquid, w) <= i <= Bracket(tiers, total, liquid) < |tiers|
    requires enter == EnterOf(tiers, total, liquid, i)
    ensures Charge(tiers, total, liquid, w, BracketAfter(tiers, total, liquid, w), i, enter, acc)
         == Outcome(acc + CutCharges(tiers, total, liquid, w, i),
                    BackwardsBetween(tiers, total, liquid, BracketAfter(tiers, total, liquid, w), i))
    decreases i
  {
    hide EnterOf, ExitOf, AmountAtBoundary, SliceFee, Charge, Matches, BracketAfter, Bracket, BackwardsBetween, Low64;
    var iEnd := BracketAfter(tiers, total, liquid, w);
    ExitsAreFound(tiers, total, liquid, w, i);
    var exit := ExitOf(tiers, total, liquid, w, i);
    ChargePass(tiers, total, liquid, w, iEnd, i, enter, exit, acc);
    OneBracketFurther(tiers, total, liquid, iEnd, i);
    if exit >= enter && i > iEnd {
      var charged := acc + Low64(SliceFee(tiers[i], exit - enter));
      if charged <= U64_MAX {
        ChargeIsOutcome(tiers, total, liquid, w, i - 1, exit, charged);
      }
    }
  }

  lemma EntersAtZero(tiers: seq<Tier>, total: nat, liquid: nat)
    requires liquid <= total && Bracket(tiers, total, liquid) < |tiers|
    ensures EnterOf(tiers, total, liquid, Bracket(tiers, total, liquid)) == 0
  {
  }

  /** What is not served is refused; what is goes through the loop. */
  lemma RefusedOrCharged(tiers: seq<Tier>, total: u64, liquid: u64, w: u64)
    requires liquid <= total
    ensures !Served(tiers, total, liquid, w) ==> WithdrawalFee(tiers, total, liquid, w) == Unserved
    ensures w == 0 ==> Served(tiers, total, liquid, w) && WithdrawalFee(tiers, total, liquid, w) == Fee(0)
    ensures Served(tiers, total, liquid, w) && w > 0 ==>
              && w < total
              && BracketAfter(tiers, total, liquid, w) <= Bracket(tiers, total, liquid) < |tiers|
              && WithdrawalFee(tiers, total, liquid, w)
                 == Charge(tiers, total, liquid, w, BracketAfter(tiers, total, liquid, w),
                           Bracket(tiers, total, liquid), 0, 0)
  {
    hide Charge, Matches;
    if Served(tiers, total, liquid, w) && w > 0 {
      BracketFalls(tiers, total, liquid, 0, w);
    }
  }

  /** For tiers in any order and of any rates, what the computation does: it refuses exactly
      the unserved withdrawals; no boundary faults; the sum overflows exactly when the charges
      before any step backwards exceed 64 bits; failing that, a slice faults exactly when the
      withdrawal walks backwards; and otherwise the fee is the charges. */
  lemma FeeForAnyTiers(tiers: seq<Tier>, total: u64, liquid: u64, w: u64)
    requires liquid <= total
    ensures WithdrawalFee(tiers, total, liquid, w) == Unserved <==> !Served(tiers, total, liquid, w)
    ensures WithdrawalFee(tiers, total, liquid, 0) == Fee(0)
    ensures Served(tiers, total, liquid, w) && w > 0 ==>
              WithdrawalFee(tiers, total, liquid, w)
              == Outcome(CutCharges(tiers, total, liquid, w, Bracket(tiers, total, liquid)),
                         Disordered(tiers, total, liquid, w))
  {
    hide Charge, CutCharges, BackwardsBetween, Bracket, BracketAfter, Matches, Served, WithdrawalFee, EnterOf;
    RefusedOrCharged(tiers, total, liquid, w);
    RefusedOrCharged(tiers, total, liquid, 0);
    if w > 0 && Served(tiers, total, liquid, w) {
      EntersAtZero(tiers, total, liquid);
      ChargeIsOutcome(tiers, total, liquid, w, Bracket(tiers, total, liquid), 0, 0);
    }
  }

  /** No bracket on the way charges more than 100%. */
  predicate RatesWithin(tiers: seq<Tier>, low: nat, high: nat)
    requires high < |tiers|
  {
    forall j :: low <= j <= high ==> tiers[j].feeBps <= BPS
  }

  /** At rates of at most 100% the charges never exceed what is withdrawn. */
  lemma {:induction false} ChargesFit(tiers: seq<Tier>, total: u64, liquid: u64, w: u64, i: nat)
    requires liquid <= total && w < total
    requires BracketAfter(tiers, total, liquid, w) <= i <= Bracket(tiers, total, liquid) < |tiers|
    requires RatesWithin(tiers, BracketAfter(tiers, total, liquid, w), i)
    ensures EnterOf(tiers, total, liquid, i) + CutCharges(tiers, total, liquid, w, i) <= total
    decreases i
  {
    hide Enter, SliceFee, ExitOf, Matches, AmountAtBoundary, Low64, BracketAfter, Bracket;
    EnterAtMostLiquid(tiers[i].ltBps, total, liquid);
    ExitsAreFound(tiers, total, liquid, w, i);
    var enter, exit := EnterOf(tiers, total, liquid, i), ExitOf(tiers, total, liquid, w, i);
    if exit >= enter {
      SliceFeeAtMost(tiers[i], exit - enter);
      if i > BracketAfter(tiers, total, liquid, w) {
        ChargesFit(tiers, total, liquid, w, i - 1);
      }
    }
  }

  /** With no rate above 100% on the way, walking backwards is the only fault there is. */
  lemma FaultsExactlyWhenDisordered(tiers: seq<Tier>, total: u64, liquid: u64, w: u64)
    requires liquid <= total && Served(tiers, total, liquid, w) && w > 0
    requires RatesWithin(tiers, BracketAfter(tiers, total, liquid, w), Bracket(tiers, total, liquid))
    ensures CutCharges(tiers, total, liquid, w, Bracket(tiers, total, liquid)) <= total
    ensures WithdrawalFee(tiers, total, liquid, w)
         == if Disordered(tiers, total, liquid, w) then Abort(SliceFault)
            else Fee(CutCharges(tiers, total, liquid, w, Bracket(tiers, total, liquid)))
  {
    hide CutCharges, Disordered, Bracket, BracketAfter, RatesWithin, Served, WithdrawalFee, EnterOf;
    FeeForAnyTiers(tiers, total, liquid, w);
    RefusedOrCharged(tiers, total, liquid, w);
    ChargesFit(tiers, total, liquid, w, Bracket(tiers, total, liquid));
  }

  /** Ascending tiers are never disordered: whatever their rates, only the sum can overflow. */
  lemma OnlyTheSumCanOverflow(tiers: seq<Tier>, total: u64, liquid: u64, w: u64)
    requires liquid <= total
    ensures WithdrawalFee(tiers, total, liquid, w) != Abort(BoundaryFault)
    ensures Sorted(tiers) ==> WithdrawalFee(tiers, total, liquid, w) != Abort(SliceFault)
  {
    hide Enter, WithdrawalFee, CutCharges;
    FeeForAnyTiers(tiers, total, liquid, w);
    if Sorted(tiers) && Served(tiers, total, liquid, w) && w > 0 {
      forall j: nat | j < Bracket(tiers, total, liquid)
        ensures !Backwards(tiers, total, liquid, j)
      {
        EnterDescends(tiers[j].ltBps, tiers[j + 1].ltBps, total, liquid);
      }
    }
  }

  /** An instance: walking from 90% down to 20% through thresholds 50% and 80% in the wrong
      order, the boundary of 80% lies before that of 50%. */
  lemma UnsortedTiersFault()
    ensures WithdrawalFee([Tier(2_000, 400), Tier(8_000, 300), Tier(5_000, 200), Tier(10_000, 100)], 1_000, 900, 880)
         == Abort(SliceFault)
  {
    var tiers := [Tier(2_000, 400), Tier(8_000, 300), Tier(5_000, 200), Tier(10_000, 100)];
    assert Matches(tiers[0], 120, 20);
    assert BracketAfter(tiers, 1_000, 900, 880) == 0;
    assert forall j :: 0 <= j < 3 ==> !Matches(tiers[j], 1_000, 900);
    assert Bracket(tiers, 1_000, 900) == 3;
    assert EnterOf(tiers, 1_000, 900, 1) == 500 && EnterOf(tiers, 1_000, 900, 2) == 800;
    assert Backwards(tiers, 1_000, 900, 1);
    assert RatesWithin(tiers, 0, 3);
    FaultsExactlyWhenDisordered(tiers, 1_000, 900, 880);
  }

  const STEEP_TIERS: seq<Tier> := [Tier(5_000, 0), Tier(8_000, 20_000), Tier(10_000, 30_000)]

  lemma SteepTrajectory(total: u64, liquid: u64, w: u64)
    requires total == 10_000_000_000_000_000_000 && liquid == 9_000_000_000_000_000_000
    requires w == 8_500_000_000_000_000_000
    ensures Served(STEEP_TIERS, total, liquid, w)
    ensures Bracket(STEEP_TIERS, total, liquid) == 2 && BracketAfter(STEEP_TIERS, total, liquid, w) == 0
    ensures EnterOf(STEEP_TIERS, total, liquid, 0) == 8_000_000_000_000_000_000
    ensures EnterOf(STEEP_TIERS, total, liquid, 1) == 5_000_000_000_000_000_000
    ensures EnterOf(STEEP_TIERS, total, liquid, 2) == 0
  {
    assert Matches(STEEP_TIERS[0], total - w, liquid - w);
    assert !Matches(STEEP_TIERS[0], total, liquid) && !Matches(STEEP_TIERS[1], total, liquid);
  }

  lemma SteepSlices()
    ensures SliceFee(Tier(10_000, 30_000), 5_000_000_000_000_000_000) == 15_000_000_000_000_000_000
    ensures SliceFee(Tier(8_000, 20_000), 3_000_000_000_000_000_000) == 6_000_000_000_000_000_000
  {
  }

  lemma SteepCharges(total: u64, liquid: u64, w: u64)
    requires total == 10_000_000_000_000_000_000 && liquid == 9_000_000_000_000_000_000
    requires w == 8_500_000_000_000_000_000
    ensures CutCharges(STEEP_TIERS, total, liquid, w, 2) > U64_MAX
  {
    hide EnterOf, Bracket, BracketAfter, Served, SliceFee;
    SteepTrajectory(total, liquid, w);
    assert SliceFee(STEEP_TIERS[2], 5_000_000_000_000_000_000) == 15_000_000_000_000_000_000 by { SteepSlices(); }
    assert SliceFee(STEEP_TIERS[1], 3_000_000_000_000_000_000) == 6_000_000_000_000_000_000 by { SteepSlices(); }
    assert CutCharges(STEEP_TIERS, total, liquid, w, 1) >= 6_000_000_000_000_000_000;
  }

  /** An instance at rates above 100%: ascending tiers whose charges overflow. */
  lemma SteepTiersOverflow()
    ensures Sorted(STEEP_TIERS)
    ensures WithdrawalFee(STEEP_TIERS, 10_000_000_000_000_000_000, 9_000_000_000_000_000_000,
                          8_500_000_000_000_000_000) == Abort(TotalFault)
  {
    hide CutCharges, Bracket, Served, WithdrawalFee, Disordered, EnterOf, BracketAfter;
    var total: u64, liquid: u64 := 10_000_000_000_000_000_000, 9_000_000_000_000_000_000;
    SteepTrajectory(total, liquid, 8_500_000_000_000_000_000);
    SteepCharges(total, liquid, 8_500_000_000_000_000_000);
    FeeForAnyTiers(STEEP_TIERS, total, liquid, 8_500_000_000_000_000_000);
  }

  const THREE_TIERS: seq<Tier> := [Tier(2_500, 500), Tier(5_000, 200), Tier(10_000, 50)]

  lemma ThreeTiersTrajectory(total: u64, liquid: u64, w: u64)
    requires total == 1_000_000 && liquid == 600_000 && w == 500_000
    ensures Served(THREE_TIERS, total, liquid, w)
    ensures Bracket(THREE_TIERS, total, liquid) == 2 && BracketAfter(THREE_TIERS, total, liquid, w) == 0
    ensures EnterOf(THREE_TIERS, total, liquid, 0) == 466_666
    ensures EnterOf(THREE_TIERS, total, liquid, 1) == 200_000
    ensures EnterOf(THREE_TIERS, total, liquid, 2) == 0
  {
    assert Matches(THREE_TIERS[0], total - w, liquid - w);
    assert !Matches(THREE_TIERS[0], total, liquid) && !Matches(THREE_TIERS[1], total, liquid);
  }

  /** An instance across three brackets: of 500_000 atoms the first 200_000 are charged 0.5%, the
      next 266_666 2%, and the last 33_334 5%, each rounded up. */
  lemma ThreeTiersCharge()
    ensures WithdrawalFee(THREE_TIERS, 1_000_000, 600_000, 500_000) == Fee(1_000 + 5_334 + 1_667)
  {
    var total: u64, liquid: u64, w: u64 := 1_000_000, 600_000, 500_000;
    hide WithdrawalFee, Served, Bracket, BracketAfter, EnterOf;
    ThreeTiersTrajectory(total, liquid, w);
    assert CutCharges(THREE_TIERS, total, liquid, w, 0) == 1_667;
    assert CutCharges(THREE_TIERS, total, liquid, w, 1) == 5_334 + 1_667;
    assert CutCharges(THREE_TIERS, total, liquid, w, 2) == 1_000 + 5_334 + 1_667;
    assert !Disordered(THREE_TIERS, total, liquid, w);
    FeeForAnyTiers(THREE_TIERS, total, liquid, w);
  }

  // ------------------------------------------------------------------------------------
  // Splitting
  // ------------------------------------------------------------------------------------

  /** A part of a served withdrawal is served, and so is the rest of it afterwards; and two
      withdrawals served in turn are served at once. */
  lemma ServedSplits(tiers: seq<Tier>, total: nat, liquid: nat, w1: nat, w2: nat)
    requires Progressive(tiers) && liquid <= total
    ensures Served(tiers, total, liquid, w1 + w2) <==>
            Served(tiers, total, liquid, w1) && Served(tiers, SatSub(total, w1), SatSub(liquid, w1), w2)
  {
    if w1 > 0 && w2 > 0 && w1 + w2 < total {
      assert BracketAfter(tiers, SatSub(total, w1), SatSub(liquid, w1), w2)
          == BracketAfter(tiers, total, liquid, w1 + w2);
      BracketFalls(tiers, total, liquid, 0, w1);
      BracketFalls(tiers, total, liquid, w1, w1 + w2);
    }
  }

  /** Two slices of a bracket charged separately cost at most one atom more than together. */
  lemma SliceFeesJoin(t: Tier, a: nat, b: nat)
    ensures SliceFee(t, a + b) <= SliceFee(t, a) + SliceFee(t, b) <= SliceFee(t, a + b) + 1
  {
    assert (a + b) * t.feeBps == a * t.feeBps + b * t.feeBps;
    CeilOfSum(a * t.feeBps, b * t.feeBps, BPS);
  }

  /** Continuing a withdrawal of w1 up to `end` inside bracket i: the two schedules add up
      to the joint one, or exceed it by one atom. */
  lemma {:induction false} SchedulesJoin(tiers: seq<Tier>, total: nat, liquid: nat, w1: nat, i: nat, end: nat)
    requires Sorted(tiers) && liquid <= total && w1 < total
    requires i <= BracketAfter(tiers, total, liquid, w1) < |tiers|
    requires w1 <= end && EnterOf(tiers, total, liquid, i) <= end
    ensures SatSub(liquid, w1) <= total - w1
    ensures Schedule(tiers, total, liquid, i, end)
         <= Schedule(tiers, total, liquid, BracketAfter(tiers, total, liquid, w1), w1)
            + Schedule(tiers, total - w1, SatSub(liquid, w1), i, end - w1)
         <= Schedule(tiers, total, liquid, i, end) + 1
    decreases BracketAfter(tiers, total, liquid, w1) - i
  {
    hide SliceFee, Enter;
    var k, total', liquid' := BracketAfter(tiers, total, liquid, w1), total - w1, SatSub(liquid, w1);
    BracketBounds(tiers, total, liquid, w1);
    EnterShifts(tiers[i].ltBps, total, liquid, w1);
    var e := EnterOf(tiers, total, liquid, i);
    if i == k {
      if k + 1 < |tiers| {
        EnterShifts(tiers[k + 1].ltBps, total, liquid, w1);
        EnterDescends(tiers[k].ltBps, tiers[k + 1].ltBps, total, liquid);
      }
      ScheduleAtZero(tiers, total', liquid', k + 1);
      SliceFeesJoin(tiers[k], w1 - e, end - w1);
    } else {
      EnterDescends(tiers[i].ltBps, tiers[i + 1].ltBps, total, liquid);
      SchedulesJoin(tiers, total, liquid, w1, i + 1, e);
    }
  }

  lemma ScheduledFeesJoin(tiers: seq<Tier>, total: nat, liquid: nat, w1: nat, w2: nat)
    requires Progressive(tiers) && liquid <= total && w1 > 0 && w2 > 0
    requires Served(tiers, total, liquid, w1 + w2)
    ensures SatSub(liquid, w1) <= SatSub(total, w1)
    ensures ScheduledFee(tiers, total, liquid, w1 + w2)
         <= ScheduledFee(tiers, total, liquid, w1) + ScheduledFee(tiers, SatSub(total, w1), SatSub(liquid, w1), w2)
         <= ScheduledFee(tiers, total, liquid, w1 + w2) + 1
  {
    hide Schedule, Enter, Matches, Bracket;
    var i := BracketAfter(tiers, total, liquid, w1 + w2);
    assert BracketAfter(tiers, total - w1, SatSub(liquid, w1), w2) == i;
    BracketFalls(tiers, total, liquid, w1, w1 + w2);
    BracketFalls(tiers, total, liquid, 0, w1);
    BracketBounds(tiers, total, liquid, w1 + w2);
    SchedulesJoin(tiers, total, liquid, w1, i, w1 + w2);
  }

  lemma FreeOfCharge(tiers: seq<Tier>, total: nat, liquid: nat)
    requires liquid <= total
    ensures Served(tiers, total, liquid, 0) && ScheduledFee(tiers, total, liquid, 0) == 0
    ensures SatSub(total, 0) == total && SatSub(liquid, 0) == liquid
  {
  }

  /** Splitting: two withdrawals in turn are served exactly when their sum is, and together
      they cost the fee of the sum or one atom more. */
  lemma SplitCostsAtMostOneAtom(tiers: seq<Tier>, total: u64, liquid: u64, w1: u64, w2: u64)
    requires Progressive(tiers) && liquid <= total && w1 + w2 <= U64_MAX
    ensures var whole := WithdrawalFee(tiers, total, liquid, w1 + w2);
            var first := WithdrawalFee(tiers, total, liquid, w1);
            var second := WithdrawalFee(tiers, SatSub(total, w1), SatSub(liquid, w1), w2);
            && (whole.Fee? <==> first.Fee? && second.Fee?)
            && (whole.Fee? ==> whole.amount <= first.amount + second.amount <= whole.amount + 1)
  {
    hide ScheduledFee, WithdrawalFee, Served, Progressive;
    var total', liquid' := SatSub(total, w1), SatSub(liquid, w1);
    assert liquid' <= total';
    ServedSplits(tiers, total, liquid, w1, w2);
    FeeIsScheduled(tiers, total, liquid, w1 + w2);
    FeeIsScheduled(tiers, total, liquid, w1);
    FeeIsScheduled(tiers, total', liquid', w2);
    FreeOfCharge(tiers, total, liquid);
    FreeOfCharge(tiers, total', liquid');
    if Served(tiers, total, liquid, w1 + w2) && w1 > 0 && w2 > 0 {
      ScheduledFeesJoin(tiers, total, liquid, w1, w2);
    }
  }

  function Sum(ws: seq<u64>): nat {
    if ws == [] then 0 else ws[0] + Sum(ws[1..])
  }

  /** The fee of withdrawing each amount in turn, or None if one of them is not served. */
  function FeeOfRun(tiers: seq<Tier>, total: u64, liquid: u64, ws: seq<u64>): Option<nat> {
    if ws == [] then Some(0)
    else
      var first := WithdrawalFee(tiers, total, liquid, ws[0]);
      var rest := FeeOfRun(tiers, SatSub(total, ws[0]), SatSub(liquid, ws[0]), ws[1..]);
      if first.Fee? && rest.Some? then Some(first.amount + rest.value) else None
  }

  /** Any run of withdrawals is served exactly when their sum is, and costs no less than the
      sum and at most one atom more for every part after the first. */
  lemma {:induction false} RunCostsAtMostOneAtomPerPart(tiers: seq<Tier>, total: u64, liquid: u64, ws: seq<u64>)
    requires Progressive(tiers) && liquid <= total && ws != [] && Sum(ws) <= U64_MAX
    ensures var whole := WithdrawalFee(tiers, total, liquid, Sum(ws));
            var run := FeeOfRun(tiers, total, liquid, ws);
            && (whole.Fee? <==> run.Some?)
            && (whole.Fee? ==> whole.amount <= run.value <= whole.amount + |ws| - 1)
    decreases |ws|
  {
    var w, rest := ws[0], ws[1..];
    var total', liquid' := SatSub(total, w), SatSub(liquid, w);
    if rest == [] {
      assert FeeOfRun(tiers, total', liquid', rest) == Some(0);
    } else {
      SplitCostsAtMostOneAtom(tiers, total, liquid, w, Sum(rest));
      RunCostsAtMostOneAtomPerPart(tiers, total', liquid', rest);
    }
  }

  // ------------------------------------------------------------------------------------
  // Slope
  // ------------------------------------------------------------------------------------

  lemma CeilSlope(m: nat, n: nat)
    ensures n - 9_999 <= BPS * (DivCeil(m + n, BPS) - DivCeil(m, BPS)) <= n + 9_999
    ensures BPS * (DivCeil(m + n, BPS) - DivCeil(m, BPS)) == n <==> n % BPS == 0
  {
  }

  /** Within a bracket the charge climbs at the bracket's rate up to rounding, and exactly at
      that rate when and only when the rate times the climb is a whole number of atoms. */
  lemma SliceSlope(t: Tier, a: nat, b: nat)
    ensures b * t.feeBps - 9_999 <= BPS * (SliceFee(t, a + b) - SliceFee(t, a)) <= b * t.feeBps + 9_999
    ensures BPS * (SliceFee(t, a + b) - SliceFee(t, a)) == b * t.feeBps <==> b * t.feeBps % BPS == 0
  {
    assert (a + b) * t.feeBps == a * t.feeBps + b * t.feeBps;
    CeilSlope(a * t.feeBps, b * t.feeBps);
  }

  lemma SliceFeeBounds(t: Tier, slice: nat)
    ensures slice * t.feeBps <= BPS * SliceFee(t, slice) <= slice * t.feeBps + 9_999
  {
    CeilBounds(slice * t.feeBps, BPS);
  }

  /** The schedule climbs from w1 to `end` at least at the rate of w1's bracket, and at most
      at the rate of the last bracket plus one rounding per bracket touched. */
  lemma {:induction false} ScheduleSlope(tiers: seq<Tier>, total: nat, liquid: nat, w1: nat, k: nat, i: nat, end: nat)
    requires Progressive(tiers) && liquid <= total && w1 < total
    requires i <= k == BracketAfter(tiers, total, liquid, w1) < |tiers|
    requires w1 <= end && EnterOf(tiers, total, liquid, i) <= end
    ensures (end - w1) * tiers[k].feeBps - 9_999
         <= BPS * (Schedule(tiers, total, liquid, i, end) - Schedule(tiers, total, liquid, k, w1))
         <= (end - w1) * tiers[i].feeBps + 9_999 * (k - i + 1)
    decreases k - i
  {
    hide SliceFee, Enter;
    var e := EnterOf(tiers, total, liquid, i);
    BracketBounds(tiers, total, liquid, w1);
    if i == k {
      SliceSlope(tiers[k], w1 - e, end - w1);
    } else {
      EnterDescends(tiers[i].ltBps, tiers[i + 1].ltBps, total, liquid);
      ScheduleSlope(tiers, total, liquid, w1, k, i + 1, e);
      SliceFeeBounds(tiers[i], end - e);
      Scale(end - e, tiers[k].feeBps, tiers[i].feeBps);
      Scale(e - w1, tiers[i + 1].feeBps, tiers[i].feeBps);
      Distribute(end - e, e - w1, tiers[k].feeBps);
      Distribute(end - e, e - w1, tiers[i].feeBps);
    }
  }

  /** Discrete mean value theorem: between two served sizes the fee climbs at least at the
      marginal rate of the smaller and at most at that of the larger, up to one rounding at
      the bottom and one per bracket touched at the top; and the marginal rate ascends. */
  lemma MarginalRateBracketsFee(tiers: seq<Tier>, total: u64, liquid: u64, w1: u64, w2: u64)
    requires Progressive(tiers) && liquid <= total && w1 < w2
    requires WithdrawalFee(tiers, total, liquid, w2).Fee?
    ensures WithdrawalFee(tiers, total, liquid, w1).Fee?
    ensures MarginalFeeBps(tiers, total, liquid, w1).Some? && MarginalFeeBps(tiers, total, liquid, w2).Some?
    ensures BracketAfter(tiers, total, liquid, w2) <= BracketAfter(tiers, total, liquid, w1)
    ensures MarginalFeeBps(tiers, total, liquid, w1).value <= MarginalFeeBps(tiers, total, liquid, w2).value
    ensures (w2 - w1) * MarginalFeeBps(tiers, total, liquid, w1).value - 9_999
         <= BPS * (WithdrawalFee(tiers, total, liquid, w2).amount - WithdrawalFee(tiers, total, liquid, w1).amount)
         <= (w2 - w1) * MarginalFeeBps(tiers, total, liquid, w2).value
            + 9_999 * (BracketAfter(tiers, total, liquid, w1) - BracketAfter(tiers, total, liquid, w2) + 1)
  {
    hide WithdrawalFee, Schedule;
    FeeIsScheduled(tiers, total, liquid, w2);
    ServedSplits(tiers, total, liquid, w1, w2 - w1);
    FeeIsScheduled(tiers, total, liquid, w1);
    BracketFalls(tiers, total, liquid, 0, w1);
    BracketFalls(tiers, total, liquid, w1, w2);
    BracketBounds(tiers, total, liquid, w2);
    if w1 == 0 {
      BracketBounds(tiers, total, liquid, 0);
      ScheduleAtZero(tiers, total, liquid, BracketAfter(tiers, total, liquid, 0));
    }
    ScheduleSlope(tiers, total, liquid, w1, BracketAfter(tiers, total, liquid, w1),
                  BracketAfter(tiers, total, liquid, w2), w2);
  }

  /** Serving more never costs less, and an extra atom never costs more than itself. */
  lemma FeeMonotoneAndLipschitz(tiers: seq<Tier>, total: u64, liquid: u64, w1: u64, w2: u64)
    requires Progressive(tiers) && liquid <= total && w1 <= w2
    requires WithdrawalFee(tiers, total, liquid, w2).Fee?
    ensures WithdrawalFee(tiers, total, liquid, w1).Fee?
    ensures 0 <= WithdrawalFee(tiers, total, liquid, w2).amount
                 - WithdrawalFee(tiers, total, liquid, w1).amount <= w2 - w1
  {
    hide WithdrawalFee, Schedule;
    FeeIsScheduled(tiers, total, liquid, w2);
    SplitCostsAtMostOneAtom(tiers, total, liquid, w1, w2 - w1);
    FeeIsScheduled(tiers, SatSub(total, w1), SatSub(liquid, w1), w2 - w1);
    FeeIsScheduled(tiers, total, liquid, w1);
    if w1 < w2 {
      MarginalRateBracketsFee(tiers, total, liquid, w1, w2);
      Scale(w2 - w1, 0, MarginalFeeBps(tiers, total, liquid, w1).value);
    }
  }

  /** Two sizes that end in the same bracket: the fee climbs at exactly the marginal rate when
      and only when rate times difference is a whole number of atoms. */
  lemma FeeClimbsAtMarginalRateIff(tiers: seq<Tier>, total: u64, liquid: u64, w1: u64, w2: u64)
    requires Progressive(tiers) && liquid <= total && w1 < w2
    requires WithdrawalFee(tiers, total, liquid, w2).Fee?
    requires BracketAfter(tiers, total, liquid, w1) == BracketAfter(tiers, total, liquid, w2)
    ensures WithdrawalFee(tiers, total, liquid, w1).Fee?
    ensures MarginalFeeBps(tiers, total, liquid, w1).Some?
    ensures MarginalFeeBps(tiers, total, liquid, w1) == MarginalFeeBps(tiers, total, liquid, w2)
    ensures (w2 - w1) * MarginalFeeBps(tiers, total, liquid, w1).value
         == BPS * (WithdrawalFee(tiers, total, liquid, w2).amount - WithdrawalFee(tiers, total, liquid, w1).amount)
       <==> (w2 - w1) * MarginalFeeBps(tiers, total, liquid, w1).value % BPS == 0
  {
    hide WithdrawalFee, SliceFee, Enter;
    MarginalRateBracketsFee(tiers, total, liquid, w1, w2);
    FeeIsScheduled(tiers, total, liquid, w2);
    FeeIsScheduled(tiers, total, liquid, w1);
    BracketBounds(tiers, total, liquid, w1);
    var k := BracketAfter(tiers, total, liquid, w1);
    var e := EnterOf(tiers, total, liquid, k);
    if w1 == 0 {
      ScheduleAtZero(tiers, total, liquid, k);
    }
    SliceSlope(tiers[k], w1 - e, w2 - w1);
  }

  // ------------------------------------------------------------------------------------
  // The fee before rounding, in 1/10000 of an atom
  // ------------------------------------------------------------------------------------

  /** What rounding n up to whole atoms adds. */
  function RoundUp(n: nat): nat {
    (BPS - n % BPS) % BPS
  }

  lemma CeilIsRoundedUp(n: nat)
    ensures BPS * DivCeil(n, BPS) == n + RoundUp(n)
  {
  }

  /** The schedule without its roundings. */
  function ExactSchedule(tiers: seq<Tier>, total: nat, liquid: nat, i: nat, w: nat): nat
    requires liquid <= total && i <= |tiers|
    decreases |tiers| - i
  {
    if i == |tiers| then 0
    else
      var e := Enter(tiers[i].ltBps, total, liquid);
      SatSub(w, e) * tiers[i].feeBps + ExactSchedule(tiers, total, liquid, i + 1, e)
  }

  /** The roundings of the schedule, one per bracket. */
  function Roundings(tiers: seq<Tier>, total: nat, liquid: nat, i: nat, w: nat): nat
    requires liquid <= total && i <= |tiers|
    decreases |tiers| - i
  {
    if i == |tiers| then 0
    else
      var e := Enter(tiers[i].ltBps, total, liquid);
      RoundUp(SatSub(w, e) * tiers[i].feeBps) + Roundings(tiers, total, liquid, i + 1, e)
  }

  lemma {:induction false} ScheduleIsExactAndRoundings(tiers: seq<Tier>, total: nat, liquid: nat, i: nat, w: nat)
    requires liquid <= total && i <= |tiers|
    ensures BPS * Schedule(tiers, total, liquid, i, w)
         == ExactSchedule(tiers, total, liquid, i, w) + Roundings(tiers, total, liquid, i, w)
    decreases |tiers| - i
  {
    hide DivCeil, RoundUp, Enter;
    if i < |tiers| {
      var e := EnterOf(tiers, total, liquid, i);
      CeilIsRoundedUp(SatSub(w, e) * tiers[i].feeBps);
      ScheduleIsExactAndRoundings(tiers, total, liquid, i + 1, e);
    }
  }

  /** The fee of a withdrawal before rounding. */
  function ExactFee(tiers: seq<Tier>, total: nat, liquid: nat, w: nat): nat
    requires liquid <= total
  {
    ExactSchedule(tiers, total, liquid, BracketAfter(tiers, total, liquid, w), w)
  }

  /** What rounding adds to the fee. */
  function FeeRoundings(tiers: seq<Tier>, total: nat, liquid: nat, w: nat): nat
    requires liquid <= total
  {
    Roundings(tiers, total, liquid, BracketAfter(tiers, total, liquid, w), w)
  }

  /** Every fee that is charged is the exact fee and its roundings. */
  lemma FeeIsExactAndRoundings(tiers: seq<Tier>, total: u64, liquid: u64, w: u64)
    requires Progressive(tiers) && liquid <= total
    requires WithdrawalFee(tiers, total, liquid, w).Fee?
    ensures BPS * WithdrawalFee(tiers, total, liquid, w).amount
         == ExactFee(tiers, total, liquid, w) + FeeRoundings(tiers, total, liquid, w)
  {
    hide WithdrawalFee, Schedule, ExactSchedule, Roundings;
    var k := BracketAfter(tiers, total, liquid, w);
    FeeIsScheduled(tiers, total, liquid, w);
    ScheduleIsExactAndRoundings(tiers, total, liquid, k, w);
    if w == 0 {
      if k < |tiers| {
        EntersAtZero(tiers, total, liquid);
      }
      ScheduleAtZero(tiers, total, liquid, k);
    }
  }

  /** Before rounding the schedule climbs between the rates of the brackets at its ends. */
  lemma {:induction false} ExactScheduleSlope(tiers: seq<Tier>, total: nat, liquid: nat, w1: nat,
                                              k: nat, i: nat, end: nat)
    requires Progressive(tiers) && liquid <= total && w1 < total
    requires i <= k == BracketAfter(tiers, total, liquid, w1) < |tiers|
    requires w1 <= end && EnterOf(tiers, total, liquid, i) <= end
    ensures (end - w1) * tiers[k].feeBps
         <= ExactSchedule(tiers, total, liquid, i, end) - ExactSchedule(tiers, total, liquid, k, w1)
         <= (end - w1) * tiers[i].feeBps
    decreases k - i
  {
    hide Enter;
    var e := EnterOf(tiers, total, liquid, i);
    BracketBounds(tiers, total, liquid, w1);
    if i == k {
      Distribute(w1 - e, end - w1, tiers[k].feeBps);
    } else {
      EnterDescends(tiers[i].ltBps, tiers[i + 1].ltBps, total, liquid);
      ExactScheduleSlope(tiers, total, liquid, w1, k, i + 1, e);
      Scale(end - e, tiers[k].feeBps, tiers[i].feeBps);
      Scale(e - w1, tiers[i + 1].feeBps, tiers[i].feeBps);
      Distribute(end - e, e - w1, tiers[k].feeBps);
      Distribute(end - e, e - w1, tiers[i].feeBps);
    }
  }

  /** Mean value theorem without rounding: the exact fee climbs between the marginal rates. */
  lemma ExactFeeSlope(tiers: seq<Tier>, total: u64, liquid: u64, w1: u64, w2: u64)
    requires Progressive(tiers) && liquid <= total && w1 <= w2 < total
    requires Served(tiers, total, liquid, w1) && Served(tiers, total, liquid, w2) && w1 > 0
    ensures MarginalFeeBps(tiers, total, liquid, w1).Some? && MarginalFeeBps(tiers, total, liquid, w2).Some?
    ensures MarginalFeeBps(tiers, total, liquid, w1).value <= MarginalFeeBps(tiers, total, liquid, w2).value
    ensures (w2 - w1) * MarginalFeeBps(tiers, total, liquid, w1).value
         <= ExactFee(tiers, total, liquid, w2) - ExactFee(tiers, total, liquid, w1)
         <= (w2 - w1) * MarginalFeeBps(tiers, total, liquid, w2).value
  {
    hide ExactSchedule, Enter, Matches;
    BracketFalls(tiers, total, liquid, w1, w2);
    BracketBounds(tiers, total, liquid, w2);
    ExactScheduleSlope(tiers, total, liquid, w1, BracketAfter(tiers, total, liquid, w1),
                       BracketAfter(tiers, total, liquid, w2), w2);
  }

  /** What rounding adds to the charge on the slice of the bracket the withdrawal ends in. */
  function LastRounding(tiers: seq<Tier>, total: nat, liquid: nat, w: nat): nat
    requires liquid <= total && BracketAfter(tiers, total, liquid, w) < |tiers|
  {
    var k := BracketAfter(tiers, total, liquid, w);
    RoundUp(SatSub(w, EnterOf(tiers, total, liquid, k)) * tiers[k].feeBps)
  }

  /** Within one bracket only its own slice changes: the exact fee climbs at its rate, and only
      its own rounding changes. */
  lemma OneBracket(tiers: seq<Tier>, total: nat, liquid: nat, w1: nat, w2: nat)
    requires liquid <= total && w1 <= w2 < total
    requires BracketAfter(tiers, total, liquid, w1) == BracketAfter(tiers, total, liquid, w2) < |tiers|
    ensures ExactFee(tiers, total, liquid, w2) - ExactFee(tiers, total, liquid, w1)
         == (w2 - w1) * tiers[BracketAfter(tiers, total, liquid, w1)].feeBps
    ensures FeeRoundings(tiers, total, liquid, w2) - FeeRoundings(tiers, total, liquid, w1)
         == LastRounding(tiers, total, liquid, w2) - LastRounding(tiers, total, liquid, w1)
  {
    hide Enter, Matches, RoundUp, BracketAfter;
    var k := BracketAfter(tiers, total, liquid, w1);
    var e := EnterOf(tiers, total, liquid, k);
    BracketBounds(tiers, total, liquid, w1);
    Distribute(w1 - e, w2 - w1, tiers[k].feeBps);
  }
}
