/**
 The progressive instant-withdrawal fee.

 A withdrawal of w takes the pool from (total, liquid) to (total - w, liquid - w), so the
 ratio liquid / total falls as w grows.  Each tier is the bracket of ratios at or below its
 threshold and above the previous one; the part of the withdrawal spent in a bracket is
 charged that bracket's rate, rounded up.
 */
module HumaFee {
  import opened Numbers

  const BPS: nat := 10_000

  /** A bracket: ratios of at most `ltBps`, charged at `feeBps` (both in units of 1/10000). */
  datatype Tier = Tier(ltBps: u16, feeBps: u16)

  datatype Fault = BoundaryFault | SliceFault | TotalFault

  /** What the fee computation does: refuse the withdrawal, name its fee, or abort on an
      arithmetic fault (division by zero, underflow, overflow). */
  datatype FeeResult = Unserved | Fee(amount: u64) | Abort(fault: Fault)

  predicate Matches(t: Tier, total: nat, liquid: nat) {
    liquid * BPS <= t.ltBps * total
  }

  /** Index of the first matching tier, or the number of tiers if none matches. */
  function Bracket(tiers: seq<Tier>, total: nat, liquid: nat): (i: nat)
    ensures i <= |tiers|
    ensures i < |tiers| ==> Matches(tiers[i], total, liquid)
    ensures forall j :: 0 <= j < i ==> !Matches(tiers[j], total, liquid)
  {
    if tiers == [] || Matches(tiers[0], total, liquid) then 0
    else 1 + Bracket(tiers[1..], total, liquid)
  }

  /** The bracket the pool is in once w has left it. */
  function BracketAfter(tiers: seq<Tier>, total: nat, liquid: nat, w: nat): nat {
    Bracket(tiers, SatSub(total, w), SatSub(liquid, w))
  }

  /** `marginal_fee_bps`: the rate on the last atom of a withdrawal. */
  function MarginalFeeBps(tiers: seq<Tier>, total: u64, liquid: u64, w: u64): Option<u16> {
    var i := BracketAfter(tiers, total, liquid, w);
    if SatSub(total, w) == 0 then None
    else if i == |tiers| then None
    else if tiers[i].feeBps >= BPS then None
    else Some(tiers[i].feeBps)
  }

  // ------------------------------------------------------------------------------------
  // The computation, fault by fault
  // ------------------------------------------------------------------------------------

  /** `withdrawal_amount_at_boundary`; None where its subtraction underflows or its divisor
      is not positive. */
  function AmountAtBoundary(boundaryBps: u16, total: u64, liquid: u64): Option<u64> {
    if boundaryBps >= BPS || liquid * BPS < boundaryBps * total then None
    else Some(Low64((liquid * BPS - boundaryBps * total) / (BPS - boundaryBps)))
  }

  /** Rounded-up charge on a slice of a bracket. */
  function SliceFee(t: Tier, slice: nat): nat {
    DivCeil(slice * t.feeBps, BPS)
  }

  /** The reverse loop from bracket i down to bracket iEnd. */
  function Charge(tiers: seq<Tier>, total: u64, liquid: u64, w: u64, iEnd: nat, i: int,
                  enter: u64, acc: u64): FeeResult
    requires i < |tiers|
    decreases i - iEnd + 1
  {
    if i < iEnd then Fee(acc)
    else
      var exit := if i == iEnd then Some(w) else AmountAtBoundary(tiers[i - 1].ltBps, total, liquid);
      if exit.None? then Abort(BoundaryFault)
      else if exit.value < enter then Abort(SliceFault)
      else
        var sliceFee := Low64(SliceFee(tiers[i], exit.value - enter));
        if acc + sliceFee > U64_MAX then Abort(TotalFault)
        else Charge(tiers, total, liquid, w, iEnd, i - 1, exit.value, acc + sliceFee)
  }

  /** `compute_instant_withdrawal_fee` */
  function WithdrawalFee(tiers: seq<Tier>, total: u64, liquid: u64, w: u64): FeeResult {
    if w == 0 then Fee(0)
    else if SatSub(total, w) == 0 then Unserved
    else
      var iEnd := BracketAfter(tiers, total, liquid, w);
      var iStart := Bracket(tiers, total, liquid);
      if iEnd == |tiers| || tiers[iEnd].feeBps >= BPS || iStart == |tiers| then Unserved
      else Charge(tiers, total, liquid, w, iEnd, iStart, 0, 0)
  }

  /** The computation as the program runs it. */
  method ComputeInstantWithdrawalFee(tiers: seq<Tier>, total: u64, liquid: u64, w: u64)
    returns (r: FeeResult)
    ensures r == WithdrawalFee(tiers, total, liquid, w)
  {
    if w == 0 {
      return Fee(0);
    }
    var liquidAfter, totalAfter := SatSub(liquid, w), SatSub(total, w);
    if totalAfter == 0 {
      return Unserved;
    }
    var iEnd := Bracket(tiers, totalAfter, liquidAfter);
    if iEnd == |tiers| || tiers[iEnd].feeBps >= BPS {
      return Unserved;
    }
    var iStart := Bracket(tiers, total, liquid);
    if iStart == |tiers| {
      return Unserved;
    }

    ghost var expected := Charge(tiers, total, liquid, w, iEnd, iStart, 0, 0);
    assert WithdrawalFee(tiers, total, liquid, w) == expected;
    var totalFee: u64, enter: u64 := 0, 0;
    var i: int := iStart;
    while i >= iEnd
      invariant i < |tiers|
      invariant Charge(tiers, total, liquid, w, iEnd, i, enter, totalFee) == expected
      decreases i - iEnd + 1
    {
      var exit := w;
      if i != iEnd {
        var boundary := AmountAtBoundary(tiers[i - 1].ltBps, total, liquid);
        if boundary.None? {
          return Abort(BoundaryFault);
        }
        exit := boundary.value;
      }
      if exit < enter {
        return Abort(SliceFault);
      }
      var sliceFee := Low64(SliceFee(tiers[i], exit - enter));
      if totalFee + sliceFee > U64_MAX {
        return Abort(TotalFault);
      }
      totalFee := totalFee + sliceFee;
      enter := exit;
      i := i - 1;
    }
    return Fee(totalFee);
  }

  // ------------------------------------------------------------------------------------
  // The bracket schedule, independent of the loop
  // ------------------------------------------------------------------------------------

  /** Thresholds ascend with the index. */
  ghost predicate Sorted(tiers: seq<Tier>) {
    forall i, j :: 0 <= i <= j < |tiers| ==> tiers[i].ltBps <= tiers[j].ltBps
  }

  /** A lower ratio never costs less. */
  ghost predicate Progressive(tiers: seq<Tier>) {
    && Sorted(tiers)
    && forall i, j :: 0 <= i <= j < |tiers| ==> tiers[j].feeBps <= tiers[i].feeBps
  }

  lemma EnterDefined(lt: nat, total: nat, liquid: nat)
    requires liquid <= total && liquid * BPS > lt * total
    ensures lt < BPS
  {
    Scale(total, BPS, lt);
  }

  /** The last whole amount that leaves the ratio at or above the threshold `lt`: where a
      withdrawal enters that bracket, 0 when it starts inside. */
  function Enter(lt: nat, total: nat, liquid: nat): (e: nat)
    requires liquid <= total
  {
    if liquid * BPS <= lt * total then 0
    else
      EnterDefined(lt, total, liquid);
      (liquid * BPS - lt * total) / (BPS - lt)
  }

  /** Total charge for a withdrawal that ends at w inside bracket i: its slice of bracket i
      and everything before the point where it entered bracket i. */
  function Schedule(tiers: seq<Tier>, total: nat, liquid: nat, i: nat, w: nat): nat
    requires liquid <= total && i <= |tiers|
    decreases |tiers| - i
  {
    if i == |tiers| then 0
    else
      var e := Enter(tiers[i].ltBps, total, liquid);
      SliceFee(tiers[i], SatSub(w, e)) + Schedule(tiers, total, liquid, i + 1, e)
  }

  /** The withdrawal can be quoted. */
  predicate Served(tiers: seq<Tier>, total: nat, liquid: nat, w: nat) {
    w == 0 ||
    (w < total &&
     Bracket(tiers, total, liquid) < |tiers| &&
     BracketAfter(tiers, total, liquid, w) < |tiers| &&
     tiers[BracketAfter(tiers, total, liquid, w)].feeBps < BPS)
  }

  /** The fee as the schedule prescribes it. */
  function ScheduledFee(tiers: seq<Tier>, total: nat, liquid: nat, w: nat): nat
    requires liquid <= total
  {
    if w == 0 then 0
    else Schedule(tiers, total, liquid, BracketAfter(tiers, total, liquid, w), w)
  }

  // ------------------------------------------------------------------------------------
  // Where brackets begin and end
  // ------------------------------------------------------------------------------------

  lemma EnterAtMostLiquid(lt: nat, total: nat, liquid: nat)
    requires liquid <= total
    ensures Enter(lt, total, liquid) <= liquid
  {
    if liquid * BPS > lt * total {
      EnterDefined(lt, total, liquid);
      var n, d := liquid * BPS - lt * total, BPS - lt;
      FloorAtLeast(n, d, liquid + 1);
      Scale(lt, liquid, total);
      Distribute(BPS - lt, lt, liquid);
      assert d * (liquid + 1) == d * liquid + d;
    }
  }

  /** Entry points descend as thresholds ascend. */
  lemma EnterDescends(lt1: nat, lt2: nat, total: nat, liquid: nat)
    requires liquid <= total && lt1 <= lt2
    ensures Enter(lt2, total, liquid) <= Enter(lt1, total, liquid)
  {
    Scale(total, lt1, lt2);
    if liquid * BPS > lt2 * total {
      EnterDefined(lt1, total, liquid);
      EnterDefined(lt2, total, liquid);
      var n1, n2, d1, d2 := liquid * BPS - lt1 * total, liquid * BPS - lt2 * total, BPS - lt1, BPS - lt2;
      var q := n2 / d2;
      EnterAtMostLiquid(lt2, total, liquid);
      FloorAtLeast(n1, d1, q);
      FloorAtLeast(n2, d2, q);
      Distribute(BPS - lt1, lt1, q);
      Distribute(BPS - lt2, lt2, q);
      Distribute(total - q, q, lt1);
      Distribute(total - q, q, lt2);
      Scale(total - q, lt1, lt2);
    }
  }

  /** Below its threshold the ratio stays below: withdrawing never raises it. */
  lemma MatchingPersists(lt: nat, total: nat, liquid: nat, w: nat)
    requires w < liquid <= total
    requires liquid * BPS <= lt * total
    ensures (liquid - w) * BPS <= lt * (total - w)
  {
    assert lt * (total - w) == lt * total - lt * w;
    if lt <= BPS {
      Scale(w, lt, BPS);
    } else {
      Scale(total - w, BPS, lt);
    }
  }

  /** EnterShifts where part of the liquid assets remains and the entry point is positive. */
  lemma EnterShiftsWithin(lt: nat, total: nat, liquid: nat, w: nat)
    requires w < liquid <= total && liquid * BPS > lt * total
    ensures Enter(lt, total - w, liquid - w) == SatSub(Enter(lt, total, liquid), w)
  {
    EnterDefined(lt, total, liquid);
    var n, d := liquid * BPS - lt * total, BPS - lt;
    assert d * w == BPS * w - lt * w;
    assert lt * (total - w) == lt * total - lt * w;
    if n > d * w {
      FloorAtLeast(n, d, w);
      FloorShift(n, d, w);
    } else {
      FloorMonotone(n, d * w, d);
      FloorShift(d * w, d, w);
    }
  }

  lemma EnterIsZero(lt: nat, total: nat, liquid: nat)
    requires liquid <= total
    ensures liquid * BPS <= lt * total ==> Enter(lt, total, liquid) == 0
    ensures liquid == 0 ==> Enter(lt, total, liquid) == 0
  {
    Scale(total, 0, lt);
  }

  /** After part of a withdrawal has left, every entry point lies exactly that much nearer. */
  lemma EnterShifts(lt: nat, total: nat, liquid: nat, w: nat)
    requires liquid <= total && w < total
    ensures SatSub(liquid, w) <= total - w
    ensures Enter(lt, total - w, SatSub(liquid, w)) == SatSub(Enter(lt, total, liquid), w)
  {
    hide Enter;
    EnterIsZero(lt, total, liquid);
    EnterIsZero(lt, total - w, SatSub(liquid, w));
    if liquid <= w {
      EnterAtMostLiquid(lt, total, liquid);
    } else if liquid * BPS > lt * total {
      EnterShiftsWithin(lt, total, liquid, w);
    } else {
      MatchingPersists(lt, total, liquid, w);
    }
  }

  /** The entry point is the last whole amount whose removal leaves the ratio at or above the
      threshold. */
  lemma EnterIsLastAtOrAbove(lt: nat, total: nat, liquid: nat, q: nat)
    requires q <= liquid <= total && liquid * BPS > lt * total
    ensures q <= Enter(lt, total, liquid) <==> (liquid - q) * BPS >= lt * (total - q)
  {
    EnterDefined(lt, total, liquid);
    FloorAtLeast(liquid * BPS - lt * total, BPS - lt, q);
    DistributeMinus(total, q, lt);
    DistributeMinus(BPS, lt, q);
  }

  /** The crossing point of a threshold while part of the liquid assets remains. */
  lemma CrossingWithin(lt: nat, total: nat, liquid: nat, w: nat)
    requires w < liquid <= total
    ensures (liquid - w) * BPS <= lt * (total - w) ==> Enter(lt, total, liquid) <= w
    ensures (liquid - w) * BPS > lt * (total - w) ==>
              w <= Enter(lt, total, liquid) && liquid * BPS > lt * total
  {
    hide Enter;
    EnterIsZero(lt, total, liquid);
    if liquid * BPS <= lt * total {
      MatchingPersists(lt, total, liquid, w);
    } else {
      EnterDefined(lt, total, liquid);
      EnterIsLastAtOrAbove(lt, total, liquid, w);
      EnterIsLastAtOrAbove(lt, total, liquid, w + 1);
      DistributeMinus(total - w, 1, lt);
    }
  }

  /** A withdrawal that has reached a bracket is past its entry point; one that has not is
      at or before it. */
  lemma Crossing(t: Tier, total: nat, liquid: nat, w: nat)
    requires liquid <= total && w < total
    ensures Matches(t, total - w, SatSub(liquid, w)) ==> Enter(t.ltBps, total, liquid) <= w
    ensures !Matches(t, total - w, SatSub(liquid, w)) ==>
              w <= Enter(t.ltBps, total, liquid) && w < liquid && !Matches(t, total, liquid)
  {
    hide Enter;
    EnterAtMostLiquid(t.ltBps, total, liquid);
    if w < liquid {
      CrossingWithin(t.ltBps, total, liquid, w);
    } else {
      Scale(total - w, 0, t.ltBps);
    }
  }
}
