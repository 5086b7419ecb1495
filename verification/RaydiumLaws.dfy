/** What the constant-product venue guarantees. */
module RaydiumLaws {
  import opened Numbers
  import opened Quoting
  import opened Raydium

  // ------------------------------------------------------------------------------------
  // Division
  // ------------------------------------------------------------------------------------

  /** The division yields the ceiling exactly when the dividend is zero or at least half the
      divisor. */
  lemma CeilDivisionIsCeilingIff(n: u128, d: u128)
    requires CeilDivision(n, d).Some?
    ensures d > 0
    ensures CeilDivision(n, d).value.0 == DivCeil(n, d) <==> n == 0 || 2 * n >= d
    ensures CeilDivision(n, d).value.0 <= DivCeil(n, d)
  {
    CeilBounds(n, d);
    CeilAtMost(n, d, 1);
    Scale(d, DivCeil(n, d), 0);
  }

  /** It fails exactly on a zero divisor, and where a dividend below the divisor cannot be doubled
      in 128 bits; a dividend below the divisor comes with no divisor. */
  lemma CeilDivisionFailsIff(n: u128, d: u128)
    ensures CeilDivision(n, d).None? <==> d == 0 || (n < d && n >= TWO_128 / 2)
    ensures n < d && CeilDivision(n, d).Some? ==> CeilDivision(n, d).value.1 == 0
  {
  }

  lemma SmallerDivisorLargerCeiling(n: nat, d1: nat, d2: nat)
    requires 0 < d1 <= d2
    ensures DivCeil(n, d1) >= DivCeil(n, d2)
  {
    var c := DivCeil(n, d1);
    CeilBounds(n, d1);
    CeilAtMost(n, d2, c);
    Scale(c, d1, d2);
    assert d1 * c == c * d1 && d2 * c == c * d2;
  }

  /** A divisor that leaves no remainder is its own recomputation. */
  lemma ExactDivisor(n: nat, d: nat)
    requires 0 < d <= n && n % d == 0
    ensures 0 < DivCeil(n, d) && DivCeil(n, DivCeil(n, d)) == d
  {
    Quotients(n, d);
    var q := DivCeil(n, d);
    assert n == d * q;
    assert q * d == d * q;
    hide DivCeil;
    CeilAtMost(n, q, d);
    CeilAtMost(n, q, d - 1);
    DistributeMinus(d, 1, q);
  }

  lemma LeastDivisor(n: nat, d: nat)
    requires 0 < d <= n
    ensures 0 < DivCeil(n, d)
    ensures var q, r := DivCeil(n, d), DivCeil(n, DivCeil(n, d));
            0 < r <= d && DivCeil(n, r) == q && (r > 1 ==> DivCeil(n, r - 1) > q)
  {
    hide DivCeil;
    Quotients(n, d);
    var q := DivCeil(n, d);
    var r := DivCeil(n, q);
    CeilBounds(n, q);
    assert q * r == r * q;
    CeilAtMost(n, r, q);
    SmallerDivisorLargerCeiling(n, r, d);
    if r > 1 {
      CeilAtMost(n, r - 1, q);
      CeilAtMost(n, q, r - 1);
      assert (r - 1) * q == q * (r - 1);
    }
  }

  /** When the quotient is positive by division, the recomputed divisor is the least that
      still yields that quotient. */
  lemma RecomputedDivisorIsLeast(n: u128, d: u128)
    requires 0 < d <= n
    ensures CeilDivision(n, d).Some?
    ensures var r := CeilDivision(n, d).value;
            && 0 < r.1 <= d
            && DivCeil(n, r.1) == r.0 == DivCeil(n, d)
            && (r.1 > 1 ==> DivCeil(n, r.1 - 1) > r.0)
  {
    Quotients(n, d);
    if n % d == 0 {
      ExactDivisor(n, d);
      assert DivCeil(n, d) == n / d;
    }
    hide DivCeil;
    LeastDivisor(n, d);
  }

  // ------------------------------------------------------------------------------------
  // Input fee
  // ------------------------------------------------------------------------------------

  /** What is left of an amount after a true ceiling fee. */
  function Net(amount: nat, num: nat, den: nat): nat
    requires num <= den && den > 0
  {
    MulDiv(amount, den - num, den)
  }

  lemma NetIsFloor(amount: nat, num: nat, den: nat)
    requires num <= den && den > 0
    ensures DivCeil(amount * num, den) <= amount
    ensures amount - DivCeil(amount * num, den) == Net(amount, num, den)
  {
    var c := DivCeil(amount * num, den);
    Scale(amount, num, den);
    CeilAtMost(amount * num, den, amount);
    CeilBounds(amount * num, den);
    DistributeMinus(den, num, amount);
    DistributeMinus(amount, c, den);
    MulDivAtLeast(amount, den - num, den, amount - c);
    MulDivAtLeast(amount, den - num, den, amount - c + 1);
    Distribute(amount - c, 1, den);
  }

  /** Every exact-in quote charges the true ceiling of the fee, and swaps what is left:
      the amount scaled by the complement of the fee, rounded down. */
  lemma FeeIsCeiling(inputReserve: u64, outputReserve: u64, num: u64, den: u64, amount: u64)
    requires num <= den
    requires SwapIn(inputReserve, outputReserve, num, den, amount).Amount?
    ensures den > 0 && InputFee(amount, num, den) == Some(DivCeil(amount * num, den))
    ensures 0 < DivCeil(amount * num, den) <= amount
    ensures amount - DivCeil(amount * num, den) == Net(amount, num, den)
  {
    CeilDivisionIsCeilingIff(Times(amount, num), den);
    NetIsFloor(amount, num, den);
  }

  /** The fee is charged exactly from the first amount whose doubled fee reaches an atom. */
  lemma FeePositiveIff(amount: u64, num: u64, den: u64)
    requires 0 < den && num <= den
    ensures InputFee(amount, num, den).Some?
    ensures InputFee(amount, num, den).value <= amount
    ensures InputFee(amount, num, den).value > 0 <==> 2 * (amount * num) >= den
  {
    CeilDivisionIsCeilingIff(Times(amount, num), den);
    NetIsFloor(amount, num, den);
    CeilBounds(amount * num, den);
  }

  // ------------------------------------------------------------------------------------
  // Curve
  // ------------------------------------------------------------------------------------

  /** Output of the curve for a net input. */
  function Curve(x: nat, inputReserve: nat, outputReserve: nat): nat
    requires inputReserve > 0
  {
    MulDiv(outputReserve, x, inputReserve + x)
  }

  /** The output stays below the reserve, and the product of the reserves never falls. */
  lemma CurveKeepsProduct(x: nat, inputReserve: nat, outputReserve: nat)
    requires inputReserve > 0
    ensures Curve(x, inputReserve, outputReserve) <= outputReserve
    ensures outputReserve > 0 ==> Curve(x, inputReserve, outputReserve) < outputReserve
    ensures (inputReserve + x) * (outputReserve - Curve(x, inputReserve, outputReserve))
         >= inputReserve * outputReserve
  {
    var d, out := inputReserve + x, Curve(x, inputReserve, outputReserve);
    MulDivBounds(outputReserve, x, d);
    Distribute(inputReserve, x, outputReserve);
    DistributeMinus(outputReserve, out, d);
    MulDivAtLeast(outputReserve, x, d, outputReserve);
    MulDivAtLeast(outputReserve, x, d, outputReserve + 1);
    Distribute(outputReserve, 1, d);
    if outputReserve > 0 {
      Scale(outputReserve, 0, inputReserve);
    }
  }

  /** An output is reached exactly from the input that covers it at the remaining reserve. */
  lemma CurveReaches(x: nat, inputReserve: nat, outputReserve: nat, out: nat)
    requires inputReserve > 0 && out <= outputReserve
    ensures Curve(x, inputReserve, outputReserve) >= out <==> x * (outputReserve - out) >= inputReserve * out
  {
    MulDivAtLeast(outputReserve, x, inputReserve + x, out);
    Distribute(inputReserve, x, out);
    DistributeMinus(outputReserve, out, x);
  }

  lemma CurveMonotone(x: nat, z: nat, inputReserve: nat, outputReserve: nat)
    requires inputReserve > 0 && x <= z
    ensures Curve(x, inputReserve, outputReserve) <= Curve(z, inputReserve, outputReserve)
  {
    var out := Curve(x, inputReserve, outputReserve);
    CurveKeepsProduct(x, inputReserve, outputReserve);
    CurveReaches(x, inputReserve, outputReserve, out);
    CurveReaches(z, inputReserve, outputReserve, out);
    Scale(outputReserve - out, x, z);
  }

  lemma NoFeeWithoutDenominator(amount: u64, num: u64)
    ensures InputFee(amount, num, 0) == None
  {
  }

  /** Every exact-in quote is the curve at the net amount, strictly below the output reserve,
      and leaves the product of the reserves no smaller. */
  lemma SwapInIsCurve(inputReserve: u64, outputReserve: u64, num: u64, den: u64, amount: u64)
    requires inputReserve > 0 && outputReserve > 0 && num <= den
    ensures SwapIn(inputReserve, outputReserve, num, den, amount) != Aborted
    ensures SwapIn(inputReserve, outputReserve, num, den, amount).Amount? <==> den > 0 && 2 * (amount * num) >= den
    ensures SwapIn(inputReserve, outputReserve, num, den, amount).Amount? ==>
              var out := SwapIn(inputReserve, outputReserve, num, den, amount).value;
              && out == Curve(Net(amount, num, den), inputReserve, outputReserve)
              && out < outputReserve
              && (inputReserve + amount) * (outputReserve - out) >= inputReserve * outputReserve
  {
    hide InputFee, MulDiv;
    if den > 0 {
      FeePositiveIff(amount, num, den);
      if 2 * (amount * num) >= den {
        var net := amount - InputFee(amount, num, den).value;
        CurveKeepsProduct(net, inputReserve, outputReserve);
        FeeIsCeiling(inputReserve, outputReserve, num, den, amount);
        Scale(outputReserve - Curve(net, inputReserve, outputReserve), inputReserve + net, inputReserve + amount);
      }
    } else {
      assert InputFee(amount, num, den).None? by { NoFeeWithoutDenominator(amount, num); }
    }
  }

  // ------------------------------------------------------------------------------------
  // Exact in against exact out
  // ------------------------------------------------------------------------------------

  /** The least net input that covers an output. */
  function NetNeeded(inputReserve: nat, outputReserve: nat, out: nat): nat
    requires out < outputReserve
  {
    DivCeil(inputReserve * out, outputReserve - out)
  }

  /** The least amount that leaves a net input after the fee. */
  function GrossNeeded(net: nat, num: nat, den: nat): nat
    requires num < den
  {
    DivCeil(net * den, den - num)
  }

  lemma BaseOutValue(inputReserve: u64, outputReserve: u64, out: u64)
    requires 0 < inputReserve && out < outputReserve
    ensures BaseOut(out, inputReserve, outputReserve).Some?
    ensures BaseOut(out, inputReserve, outputReserve).value
         == NetNeeded(inputReserve, outputReserve, out)
       <==> out == 0 || 2 * (inputReserve * out) >= outputReserve - out
    ensures BaseOut(out, inputReserve, outputReserve).value
         <= NetNeeded(inputReserve, outputReserve, out)
  {
    CeilDivisionIsCeilingIff(Times(inputReserve, out), outputReserve - out);
    Scale(inputReserve, 0, out);
  }

  /** An input suffices for an output exactly from the rounded-up input on. */
  lemma CurveCovers(x: nat, inputReserve: nat, outputReserve: nat, out: nat)
    requires inputReserve > 0 && out < outputReserve
    ensures Curve(x, inputReserve, outputReserve) >= out
       <==> x >= NetNeeded(inputReserve, outputReserve, out)
  {
    CurveReaches(x, inputReserve, outputReserve, out);
    CeilAtMost(inputReserve * out, outputReserve - out, x);
    assert x * (outputReserve - out) == (outputReserve - out) * x;
  }

  /** Base-out answers the least sufficient input for every x, exactly when twice the product
      of the input reserve and the output reaches the reserve that remains. */
  lemma GaloisConnectionIff(inputReserve: u64, outputReserve: u64, out: u64)
    requires inputReserve > 0 && 0 < out < outputReserve
    ensures BaseOut(out, inputReserve, outputReserve).Some?
    ensures (forall x: nat :: Curve(x, inputReserve, outputReserve) >= out
                         <==> x >= BaseOut(out, inputReserve, outputReserve).value)
       <==> 2 * (inputReserve * out) >= outputReserve - out
  {
    hide Curve, BaseOut, NetNeeded;
    BaseOutValue(inputReserve, outputReserve, out);
    var answer := BaseOut(out, inputReserve, outputReserve).value;
    CurveCovers(answer, inputReserve, outputReserve, out);
    forall x: nat
      ensures Curve(x, inputReserve, outputReserve) >= out
         <==> x >= NetNeeded(inputReserve, outputReserve, out)
    {
      CurveCovers(x, inputReserve, outputReserve, out);
    }
  }

  /** Adding the fee back and deducting it again: the smallest amount whose net reaches x. */
  lemma NetCovers(amount: nat, num: nat, den: nat, x: nat)
    requires num < den
    ensures Net(amount, num, den) >= x <==> amount >= GrossNeeded(x, num, den)
  {
    MulDivAtLeast(amount, den - num, den, x);
    CeilAtMost(x * den, den - num, amount);
    assert amount * (den - num) == (den - num) * amount;
    assert x * den == den * x;
  }

  /** A base-out answer below the true ceiling is zero. */
  lemma AnswerOfOne(inputReserve: u64, outputReserve: u64, out: u64)
    requires 0 < inputReserve && 0 < out < outputReserve
    ensures BaseOut(out, inputReserve, outputReserve).Some?
    ensures BaseOut(out, inputReserve, outputReserve).value == 0
         || BaseOut(out, inputReserve, outputReserve).value == NetNeeded(inputReserve, outputReserve, out)
  {
    hide DivCeil;
    CeilDivisionIsCeilingIff(Times(inputReserve, out), outputReserve - out);
  }

  /** An exact-out answer of at least one atom is the true ceiling of the fee-adjusted input. */
  lemma SwapOutValue(inputReserve: u64, outputReserve: u64, num: u64, den: u64, out: u64)
    requires inputReserve > 0 && 0 < out < outputReserve && num < den
    requires SwapOut(inputReserve, outputReserve, num, den, out).Amount?
    requires SwapOut(inputReserve, outputReserve, num, den, out).value > 0
    ensures SwapOut(inputReserve, outputReserve, num, den, out).value
         == GrossNeeded(NetNeeded(inputReserve, outputReserve, out), num, den)
  {
    hide DivCeil, BaseOut, NetNeeded;
    BaseOutValue(inputReserve, outputReserve, out);
    var before := BaseOut(out, inputReserve, outputReserve).value;
    CeilDivisionIsCeilingIff(before * den, den - num);
    AnswerOfOne(inputReserve, outputReserve, out);
    if before > 0 {
      Scale(den, 1, before);
      assert before * den == den * before;
    }
  }

  /** Through the fees: wherever both quotes exist, an exact input yields the requested output
      exactly when it is at least the input quoted for that output.  In particular the quoted
      input is enough, and one atom less is not. */
  lemma ExactOutIsLeastSufficientInput(inputReserve: u64, outputReserve: u64, num: u64, den: u64, out: u64, amount: u64)
    requires inputReserve > 0 && 0 < out < outputReserve && num < den
    requires SwapOut(inputReserve, outputReserve, num, den, out).Amount?
    requires SwapOut(inputReserve, outputReserve, num, den, out).value > 0
    requires SwapIn(inputReserve, outputReserve, num, den, amount).Amount?
    ensures SwapIn(inputReserve, outputReserve, num, den, amount).value >= out
       <==> amount >= SwapOut(inputReserve, outputReserve, num, den, out).value
  {
    hide GrossNeeded, NetNeeded, Curve, Net, SwapIn, SwapOut;
    SwapOutValue(inputReserve, outputReserve, num, den, out);
    SwapInIsCurve(inputReserve, outputReserve, num, den, amount);
    var needed := NetNeeded(inputReserve, outputReserve, out);
    CurveCovers(Net(amount, num, den), inputReserve, outputReserve, out);
    NetCovers(amount, num, den, needed);
  }

  /** Quoting an output and feeding the answer back in returns at least that output, whenever
      the second quote exists. */
  lemma RoundTripPaysOut(inputReserve: u64, outputReserve: u64, num: u64, den: u64, out: u64)
    requires inputReserve > 0 && out < outputReserve && num < den
    requires SwapOut(inputReserve, outputReserve, num, den, out).Amount?
    requires SwapIn(inputReserve, outputReserve, num, den,
                    SwapOut(inputReserve, outputReserve, num, den, out).value).Amount?
    ensures SwapIn(inputReserve, outputReserve, num, den,
                   SwapOut(inputReserve, outputReserve, num, den, out).value).value >= out
  {
    hide SwapOut, Curve, Net;
    var amount := SwapOut(inputReserve, outputReserve, num, den, out).value;
    SwapInIsCurve(inputReserve, outputReserve, num, den, amount);
    if out > 0 {
      Scale(num, 0, amount);
      ExactOutIsLeastSufficientInput(inputReserve, outputReserve, num, den, out, amount);
    }
  }

  // ------------------------------------------------------------------------------------
  // Concavity
  // ------------------------------------------------------------------------------------

  lemma NonNegative(a: nat, b: nat)
    ensures a * b >= 0
  {
  }

  /** Dividing n by p p gives more than by p q, and by q q less. */
  lemma Widen(climb: int, slack: nat, n: nat, p: nat, q: nat)
    requires 0 < p <= q
    ensures (climb - slack) * (p * q) < n ==> (climb - slack) * (p * p) < n
    ensures climb + slack >= 0 && n < (climb + slack) * (p * q) ==> n < (climb + slack) * (q * q)
  {
    Scale(p, p, q);
    Scale(q, p, q);
    Scale(p, 0, p);
    if climb >= slack {
      Scale(climb - slack, p * p, p * q);
    } else {
      Scale(p * p, climb - slack, 0);
      Regroup(1, p * p, climb - slack);
    }
    if climb + slack >= 0 {
      Regroup(1, q, p);
      Scale(climb + slack, p * q, q * q);
    }
  }

  /** Cross-multiplied difference of the exact curve at two net inputs. */
  lemma CrossDifference(reserve: nat, outputReserve: nat, x: nat, z: nat)
    ensures (outputReserve * z) * (reserve + x) - (outputReserve * x) * (reserve + z)
         == outputReserve * reserve * (z - x)
  {
  }

  lemma ScaledBetween(s: nat, p: nat, q: nat, a: nat, slack: nat)
    requires q > 0 && a * p <= s < (a + slack) * p
    ensures a * (p * q) <= s * q < (a + slack) * (p * q)
  {
    Scale(q, a * p, s);
    Scale(q, s, (a + slack) * p);
    Regroup(q, a, p);
    Regroup(q, a + slack, p);
    Regroup(a, q, p);
  }

  lemma ScaledPair(s: nat, t: nat, p: nat, q: nat, a: nat, b: nat, slack: nat)
    requires p > 0 && q > 0
    requires a * p <= s < (a + slack) * p
    requires b * q <= t < (b + slack) * q
    ensures (b - a - slack) * (p * q) < t * p - s * q < (b - a + slack) * (p * q)
  {
    ScaledBetween(s, p, q, a, slack);
    ScaledBetween(t, q, p, b, slack);
    assert q * p == p * q;
    DistributeMinus(b, a + slack, p * q);
    DistributeMinus(b + slack, a, p * q);
  }

  /** Two quotients bracketed by their fractions differ as the fractions do, up to one. */
  lemma QuotientDifference(a: nat, b: nat, p: nat, q: nat, m: nat, n: nat)
    requires p > 0 && q > 0
    requires p * a <= m < p * a + p
    requires q * b <= n < q * b + q
    ensures (b - a - 1) * (p * q) < n * p - m * q < (b - a + 1) * (p * q)
  {
    Distribute(a, 1, p);
    Distribute(b, 1, q);
    ScaledPair(m, n, p, q, a, b, 1);
  }

  lemma CurveBounds(x: nat, inputReserve: nat, outputReserve: nat)
    requires inputReserve > 0
    ensures (inputReserve + x) * Curve(x, inputReserve, outputReserve) <= outputReserve * x
          < (inputReserve + x) * Curve(x, inputReserve, outputReserve) + (inputReserve + x)
  {
    MulDivBounds(outputReserve, x, inputReserve + x);
  }

  /** Integer concavity: between two net inputs the output climbs by Y X (z - x) over
      (X + x)(X + z), give or take less than one atom; so it lies between the derivative at z
      and at x times the climb, give or take less than one atom. */
  lemma CurveIsConcave(x: nat, z: nat, inputReserve: nat, outputReserve: nat)
    requires inputReserve > 0 && outputReserve > 0 && x < z
    ensures var climb := Curve(z, inputReserve, outputReserve) - Curve(x, inputReserve, outputReserve);
            var slope := outputReserve * inputReserve * (z - x);
            && (climb - 1) * ((inputReserve + x) * (inputReserve + z)) < slope
            && slope < (climb + 1) * ((inputReserve + x) * (inputReserve + z))
            && (climb - 1) * ((inputReserve + x) * (inputReserve + x)) < slope
            && slope < (climb + 1) * ((inputReserve + z) * (inputReserve + z))
  {
    hide Curve;
    var p, q := inputReserve + x, inputReserve + z;
    var a, b := Curve(x, inputReserve, outputReserve), Curve(z, inputReserve, outputReserve);
    CurveBounds(x, inputReserve, outputReserve);
    CurveBounds(z, inputReserve, outputReserve);
    CurveMonotone(x, z, inputReserve, outputReserve);
    QuotientDifference(a, b, p, q, outputReserve * x, outputReserve * z);
    CrossDifference(inputReserve, outputReserve, x, z);
    NonNegative(outputReserve, inputReserve);
    NonNegative(outputReserve * inputReserve, z - x);
    Widen(b - a, 1, outputReserve * inputReserve * (z - x), p, q);
  }

  // ------------------------------------------------------------------------------------
  // Price
  // ------------------------------------------------------------------------------------

  /** X times the fee denominator plus the kept part of the amount. */
  function Weight(inputReserve: nat, num: nat, den: nat, amount: nat): nat
    requires num <= den
  {
    inputReserve * den + (den - num) * amount
  }

  /** An output below the curve at a net input is below it at any larger one. */
  lemma OutputBelowCurve(out: nat, outputReserve: nat, reserve: nat, x: nat, u: nat)
    requires out <= outputReserve && x <= u
    requires out * (reserve + x) <= outputReserve * x
    ensures out * (reserve + u) <= outputReserve * u
  {
    Distribute(reserve + x, u - x, out);
    Distribute(x, u - x, outputReserve);
    Scale(u - x, out, outputReserve);
  }

  lemma ExpandNear(part: nat, y: nat, w: nat, x: nat, r: nat)
    ensures (part + y) * (w + (x + r)) == part * (w + x) + part * r + y * w + y * (x + r)
  {
  }

  lemma ExpandFar(a: nat, y: nat, x: nat, r: nat)
    ensures a * (y * (x + r)) == a * (y * x) + a * (y * r)
  {
  }

  lemma SpotCovers(a: nat, y: nat, den: nat, r: nat)
    requires r <= den
    ensures a * (y * r) <= y * (a * den)
  {
    Scale(a, r, den);
    Scale(y, a * r, a * den);
    assert a * (y * r) == y * (a * r);
  }

  lemma StrictScale(a: nat, lesser: int, m: nat, n: nat)
    requires a > 0 && lesser < m * n
    ensures a * lesser < a * m * n
  {
    Scale(a, lesser, m * n);
    assert a * (m * n) == a * m * n;
  }

  /** An output within one atom of the curve at x is within one atom and one input atom at
      the spot rate of the curve at u, when u exceeds x by at most `den` parts of `den`. */
  lemma OutputNearCurve(out: nat, outputReserve: nat, inputReserve: nat, den: nat, x: nat, u: nat)
    requires x <= u <= x + den
    requires (out + 1) * (inputReserve * den + x) > outputReserve * x
    requires inputReserve > 0
    ensures (inputReserve * (out + 1) + outputReserve) * (inputReserve * den + u)
          > inputReserve * (outputReserve * u)
  {
    var w, r, part := inputReserve * den, u - x, inputReserve * (out + 1);
    ExpandNear(part, outputReserve, w, x, r);
    ExpandFar(inputReserve, outputReserve, x, r);
    SpotCovers(inputReserve, outputReserve, den, r);
    StrictScale(inputReserve, outputReserve * x, out + 1, w + x);
    NonNegative(part, r);
    NonNegative(outputReserve, u);
  }

  lemma NetBounds(amount: nat, num: nat, den: nat)
    requires num <= den && den > 0
    ensures den * Net(amount, num, den) <= (den - num) * amount <= den * Net(amount, num, den) + den
  {
    MulDivBounds(amount, den - num, den);
  }

  lemma ScaleCurve(out: nat, outputReserve: nat, inputReserve: nat, den: nat, net: nat)
    requires den > 0
    requires (inputReserve + net) * out <= outputReserve * net < (inputReserve + net) * out + (inputReserve + net)
    ensures out * (inputReserve * den + den * net) <= outputReserve * (den * net)
          < (out + 1) * (inputReserve * den + den * net)
  {
    var p := inputReserve + net;
    Distribute(inputReserve, net, den);
    Scale(den, p * out, outputReserve * net);
    Scale(den, outputReserve * net, p * out + p);
    Distribute(p * out, p, den);
    Distribute(out, 1, den * p);
    Regroup(den, p, out);
    Regroup(out, den, p);
    Regroup(den, outputReserve, net);
  }

  /** The exact-in output at an amount against the fee-free curve at the kept part. */
  lemma OutputAroundCurve(inputReserve: nat, outputReserve: nat, num: nat, den: nat, amount: nat)
    requires inputReserve > 0 && num <= den && den > 0
    ensures var out := Curve(Net(amount, num, den), inputReserve, outputReserve);
            var w := Weight(inputReserve, num, den, amount);
            var u := (den - num) * amount;
            && out * w <= outputReserve * u
            && (inputReserve * (out + 1) + outputReserve) * w > inputReserve * (outputReserve * u)
  {
    hide Curve, Net;
    var net := Net(amount, num, den);
    var out := Curve(net, inputReserve, outputReserve);
    var u := (den - num) * amount;
    NetBounds(amount, num, den);
    CurveBounds(net, inputReserve, outputReserve);
    CurveKeepsProduct(net, inputReserve, outputReserve);
    ScaleCurve(out, outputReserve, inputReserve, den, net);
    OutputBelowCurve(out, outputReserve, inputReserve * den, den * net, u);
    OutputNearCurve(out, outputReserve, inputReserve, den, den * net, u);
  }

  lemma PriceByWeight(inputReserve: u64, outputReserve: u64, num: u64, den: u64, amount: u64)
    requires num <= den && den > 0
    ensures PriceAt(inputReserve, outputReserve, num, den, amount)
         == Rate(outputReserve * (den - num) * (inputReserve * den),
                 Weight(inputReserve, num, den, amount) * Weight(inputReserve, num, den, amount))
  {
  }

  lemma WeightGrows(inputReserve: nat, num: nat, den: nat, a: nat, b: nat)
    requires inputReserve > 0 && num <= den && den > 0 && a <= b
    ensures 0 < Weight(inputReserve, num, den, a) <= Weight(inputReserve, num, den, b)
  {
    Scale(den - num, a, b);
    Scale(inputReserve, 0, den);
    NonNegative(den - num, a);
  }

  lemma Squares(p: nat, q: nat)
    requires 0 < p <= q
    ensures 0 < p * p <= q * q
  {
    Scale(p, p, q);
    Scale(q, p, q);
    Scale(p, 0, p);
  }

  lemma PositiveFactors(a: nat, b: nat, c: nat, d: nat)
    requires a > 0 && b > 0 && c > 0 && d > 0
    ensures a * b * (c * d) > 0
  {
    Scale(a, 0, b);
    Scale(c, 0, d);
    Scale(a * b, 0, c * d);
  }

  /** A pool without a fee denominator is priced like one without a fee. */
  lemma NoFeeDenominator(inputReserve: u64, outputReserve: u64, num: u64, amount: u64)
    ensures PriceAt(inputReserve, outputReserve, num, 0, amount)
         == PriceAt(inputReserve, outputReserve, 0, 1, amount)
         == Rate(outputReserve * inputReserve, (inputReserve + amount) * (inputReserve + amount))
  {
  }

  /** The price is the derivative at the amount: its numerator is the same at every size and
      its denominator the square of the weight, so it falls as the amount grows. */
  lemma PriceFalls(inputReserve: u64, outputReserve: u64, num: u64, den: u64, a: u64, b: u64)
    requires inputReserve > 0 && outputReserve > 0 && num < den && a <= b
    ensures PriceAt(inputReserve, outputReserve, num, den, a).Positive()
    ensures PriceAt(inputReserve, outputReserve, num, den, b)
              .AtMost(PriceAt(inputReserve, outputReserve, num, den, a))
  {
    hide Weight;
    var p, q := Weight(inputReserve, num, den, a), Weight(inputReserve, num, den, b);
    WeightGrows(inputReserve, num, den, a, b);
    Squares(p, q);
    var n := outputReserve * (den - num) * (inputReserve * den);
    PositiveFactors(outputReserve, den - num, inputReserve, den);
    Scale(n, p * p, q * q);
    PriceByWeight(inputReserve, outputReserve, num, den, a);
    PriceByWeight(inputReserve, outputReserve, num, den, b);
    hide PriceAt;
  }

  lemma SlopeOfPrice(y: nat, k: nat, w: nat, a: nat, b: nat)
    requires a <= b
    ensures y * w * (k * b - k * a) == y * k * w * (b - a)
  {
    DistributeMinus(b, a, k);
    assert y * w * (k * (b - a)) == y * k * w * (b - a);
  }

  lemma ScaledBelow(x: nat, m: nat, n: nat, a: nat, p: nat)
    requires m == a * p <= n
    ensures (x * a) * p <= x * n
  {
    Scale(x, m, n);
    assert x * (a * p) == (x * a) * p;
  }

  lemma ScaledDifference(x: int, a: int, b: int)
    ensures x * a - x * b == x * (a - b)
  {
  }

  lemma ExactDifference(x: nat, y: nat, u: nat, v: nat, w: nat)
    ensures (x * (y * v)) * (w + u) - (x * (y * u)) * (w + v) == x * (y * w * (v - u))
  {
    CrossDifference(w, y, u, v);
    ScaledDifference(x, (y * v) * (w + u), (y * u) * (w + v));
    Regroup(x, y * v, w + u);
    Regroup(x, y * u, w + v);
  }

  /** From outputs around the curve at two weights to their difference. */
  lemma DifferenceAroundCurve(x: nat, y: nat, a: nat, b: nat, p: nat, q: nat, u: nat, v: nat, w: nat)
    requires p == w + u && q == w + v && p > 0 && q > 0
    requires a * p <= y * u && x * (y * u) < (x * (a + 1) + y) * p
    requires b * q <= y * v && x * (y * v) < (x * (b + 1) + y) * q
    ensures (x * b - x * a - (x + y)) * (p * q) < x * (y * w * (v - u))
          < (x * b - x * a + (x + y)) * (p * q)
  {
    ExactDifference(x, y, u, v, w);
    ScaledBelow(x, a * p, y * u, a, p);
    ScaledBelow(x, b * q, y * v, b, q);
    Distribute(a, 1, x);
    Distribute(b, 1, x);
    ScaledPair(x * (y * u), x * (y * v), p, q, x * a, x * b, x + y);
  }

  lemma OutputsOrdered(x: nat, y: nat, num: nat, den: nat, a: nat, b: nat)
    requires x > 0 && num <= den && den > 0 && a <= b
    ensures Net(a, num, den) <= Net(b, num, den)
    ensures Curve(Net(a, num, den), x, y) <= Curve(Net(b, num, den), x, y)
  {
    MulDivMonotone(a, b, den - num, den);
    CurveMonotone(Net(a, num, den), Net(b, num, den), x, y);
  }

  lemma CurveMeanValue(x: nat, y: nat, num: nat, den: nat, a: nat, b: nat, outA: nat, outB: nat)
    requires x > 0 && y > 0 && num <= den && den > 0 && a < b
    requires outA == Curve(Net(a, num, den), x, y) && outB == Curve(Net(b, num, den), x, y)
    ensures var slope := x * (y * (den - num) * (x * den) * (b - a));
            && (x * outB - x * outA - (x + y)) * (Weight(x, num, den, a) * Weight(x, num, den, a)) < slope
            && slope < (x * outB - x * outA + (x + y)) * (Weight(x, num, den, b) * Weight(x, num, den, b))
  {
    hide Curve, Net;
    var p, q, u, v, w := Weight(x, num, den, a), Weight(x, num, den, b), (den - num) * a, (den - num) * b, x * den;
    OutputAroundCurve(x, y, num, den, a);
    OutputAroundCurve(x, y, num, den, b);
    Scale(den - num, a, b);
    Scale(x, 0, den);
    NonNegative(den - num, a);
    OutputsOrdered(x, y, num, den, a, b);
    Scale(x, outA, outB);
    DifferenceAroundCurve(x, y, outA, outB, p, q, u, v, w);
    SlopeOfPrice(y, den - num, w, a, b);
    NonNegative(y, w);
    NonNegative(y * w, v - u);
    NonNegative(x, y * w * (v - u));
    Widen(x * outB - x * outA, x + y, x * (y * w * (v - u)), p, q);
  }

  /** The reported price brackets the realized rate between two exact-in quotes: the output
      climbs by less than the price at the smaller size plus one output atom and one input
      atom at the spot rate, and by more than the price at the larger size less as much.
      Everything is multiplied by the input reserve to stay among the integers. */
  lemma SwapMeanValue(inputReserve: u64, outputReserve: u64, num: u64, den: u64, a: u64, b: u64)
    requires inputReserve > 0 && outputReserve > 0 && num <= den && a < b
    requires SwapIn(inputReserve, outputReserve, num, den, a).Amount?
    requires SwapIn(inputReserve, outputReserve, num, den, b).Amount?
    ensures var climb := inputReserve * SwapIn(inputReserve, outputReserve, num, den, b).value
                         - inputReserve * SwapIn(inputReserve, outputReserve, num, den, a).value;
            var priceA := PriceAt(inputReserve, outputReserve, num, den, a);
            var priceB := PriceAt(inputReserve, outputReserve, num, den, b);
            && (climb - (inputReserve + outputReserve)) * priceA.den < inputReserve * (priceA.num * (b - a))
            && inputReserve * (priceB.num * (b - a)) < (climb + (inputReserve + outputReserve)) * priceB.den
  {
    hide SwapIn, Curve, Net;
    SwapInIsCurve(inputReserve, outputReserve, num, den, a);
    SwapInIsCurve(inputReserve, outputReserve, num, den, b);
    CurveMeanValue(inputReserve, outputReserve, num, den, a, b,
                   SwapIn(inputReserve, outputReserve, num, den, a).value,
                   SwapIn(inputReserve, outputReserve, num, den, b).value);
  }

  // ------------------------------------------------------------------------------------
  // Rounding, exactly
  // ------------------------------------------------------------------------------------

  /** What an exact-in output falls short of the fee-free curve at the kept part of the amount,
      times the weight: the remainder of the curve's division, and that of the fee's on the
      reserve that is left. */
  function Lost(inputReserve: nat, outputReserve: nat, num: nat, den: nat, amount: nat): int
    requires inputReserve > 0 && num <= den && den > 0
  {
    var net := Net(amount, num, den);
    den * (outputReserve * net % (inputReserve + net))
    + (den - num) * amount % den * (outputReserve - Curve(net, inputReserve, outputReserve))
  }

  lemma NetRemainder(amount: nat, num: nat, den: nat)
    requires num <= den && den > 0
    ensures (den - num) * amount == den * Net(amount, num, den) + (den - num) * amount % den
    ensures (den - num) * amount % den >= 0
  {
    assert (den - num) * amount == amount * (den - num);
  }

  lemma CurveRemainder(x: nat, inputReserve: nat, outputReserve: nat)
    requires inputReserve > 0
    ensures outputReserve * x == (inputReserve + x) * Curve(x, inputReserve, outputReserve)
                                 + outputReserve * x % (inputReserve + x)
    ensures outputReserve * x % (inputReserve + x) >= 0
    ensures Curve(x, inputReserve, outputReserve) <= outputReserve
  {
    CurveKeepsProduct(x, inputReserve, outputReserve);
  }

  lemma Shortfall(out: nat, y: nat, den: nat, net: nat, t: nat, sigma: nat, rho: nat)
    requires y * net == t * out + rho
    ensures out * (den * t + sigma) == y * (den * net + sigma) - (den * rho + sigma * (y - out))
  {
    Regroup(y, den, net);
    Regroup(out, den, t);
    Distribute(t * out, rho, den);
    DistributeMinus(y, out, sigma);
    Distribute(den * net, sigma, y);
    Distribute(den * t, sigma, out);
  }

  lemma ShortfallBelow(x: nat, y: nat, out: nat, weight: nat, exact: nat, lost: int)
    requires out * weight == exact - lost
    requires (x * (out + 1) + y) * weight > x * exact
    ensures x * lost < (x + y) * weight
  {
    Distribute(x * out, x + y, weight);
    Regroup(x, out, weight);
    DistributeMinus(exact, lost, x);
    Distribute(out, 1, x);
  }

  lemma LostOfRemainders(x: nat, y: nat, num: nat, den: nat, amount: nat, net: nat, sigma: nat, rho: nat, out: nat)
    requires x > 0 && num <= den && den > 0
    requires (den - num) * amount == den * net + sigma
    requires y * net == (x + net) * out + rho && out <= y
    requires (x * (out + 1) + y) * Weight(x, num, den, amount) > x * (y * ((den - num) * amount))
    ensures out * Weight(x, num, den, amount) == y * ((den - num) * amount) - (den * rho + sigma * (y - out))
    ensures 0 <= den * rho + sigma * (y - out)
    ensures x * (den * rho + sigma * (y - out)) < (x + y) * Weight(x, num, den, amount)
  {
    Distribute(x, net, den);
    var t, kept, weight := x + net, (den - num) * amount, Weight(x, num, den, amount);
    assert weight == den * t + sigma;
    hide Weight;
    Shortfall(out, y, den, net, t, sigma, rho);
    NonNegative(den, rho);
    NonNegative(sigma, y - out);
    ShortfallBelow(x, y, out, weight, y * kept, den * rho + sigma * (y - out));
  }

  lemma LostIsShortfall(inputReserve: nat, outputReserve: nat, num: nat, den: nat, amount: nat)
    requires inputReserve > 0 && num <= den && den > 0
    ensures Curve(Net(amount, num, den), inputReserve, outputReserve) * Weight(inputReserve, num, den, amount)
         == outputReserve * ((den - num) * amount) - Lost(inputReserve, outputReserve, num, den, amount)
    ensures Lost(inputReserve, outputReserve, num, den, amount) >= 0
    ensures inputReserve * Lost(inputReserve, outputReserve, num, den, amount)
          < (inputReserve + outputReserve) * Weight(inputReserve, num, den, amount)
  {
    hide Curve, Net;
    var net := Net(amount, num, den);
    OutputAroundCurve(inputReserve, outputReserve, num, den, amount);
    NetRemainder(amount, num, den);
    CurveRemainder(net, inputReserve, outputReserve);
    LostOfRemainders(inputReserve, outputReserve, num, den, amount, net, (den - num) * amount % den,
                     outputReserve * net % (inputReserve + net), Curve(net, inputReserve, outputReserve));
  }

  /** The price's numerator at every amount, times a climb of the amount from a to b. */
  function Drop(inputReserve: nat, outputReserve: nat, num: nat, den: nat, a: nat, b: nat): int
    requires num <= den
  {
    outputReserve * (den - num) * (inputReserve * den) * (b - a)
  }

  lemma CrossClimb(y: nat, a: nat, b: nat, p: nat, q: nat, u: nat, v: nat, w: nat, lostA: int, lostB: int)
    requires p == w + u && q == w + v
    requires a * p == y * u - lostA && b * q == y * v - lostB
    ensures (b - a) * (p * q) == y * w * (v - u) - (p * lostB - q * lostA)
  {
    CrossDifference(w, y, u, v);
    Regroup(b, q, p);
    Regroup(a, p, q);
    assert p * q == q * p;
    DistributeMinus(b, a, p * q);
    DistributeMinus(y * v, lostB, p);
    DistributeMinus(y * u, lostA, q);
  }

  /** Comparing `climb * r r` with n, where `climb * p q` is c and {r, s} is {p, q}. */
  lemma ScaledAgainst(climb: int, p: nat, q: nat, r: nat, s: nat, n: int, c: int)
    requires r > 0 && s > 0 && ((r == p && s == q) || (r == q && s == p))
    requires climb * (p * q) == c
    ensures climb * (r * r) <= n <==> r * c <= n * s
    ensures n <= climb * (r * r) <==> n * s <= r * c
  {
    assert p * q == q * p;
    Regroup(s, climb, r * r);
    Regroup(r, climb, r * s);
    assert s * (r * r) == r * (r * s);
    assert s * (climb * (r * r)) == r * c;
    Scale(s, climb * (r * r), n);
    Scale(s, n, climb * (r * r));
  }

  /** A climb in output against the derivatives at both ends, from what each output falls
      short of the curve. */
  lemma ChordIff(y: nat, a: nat, b: nat, p: nat, q: nat, u: nat, v: nat, w: nat, lostA: int, lostB: int, n: int)
    requires p == w + u && q == w + v && p > 0 && q > 0
    requires a * p == y * u - lostA && b * q == y * v - lostB
    requires n == y * w * (v - u)
    ensures (b - a) * (p * p) <= n <==> p * (q * lostA - p * lostB) <= n * (q - p)
    ensures n <= (b - a) * (q * q) <==> q * (p * lostB - q * lostA) <= n * (q - p)
  {
    var g := p * lostB - q * lostA;
    CrossClimb(y, a, b, p, q, u, v, w, lostA, lostB);
    ScaledAgainst(b - a, p, q, p, q, n, n - g);
    ScaledAgainst(b - a, p, q, q, p, n, n - g);
    DistributeMinus(n, g, p);
    DistributeMinus(n, g, q);
    DistributeMinus(q, p, n);
    DistributeMinus(0, g, p);
    assert 0 - g == q * lostA - p * lostB;
  }

  lemma LossWithin(x: nat, f: nat, lost: nat, top: nat, drop: int)
    requires x > 0 && f > 0 && x * lost < top && f * top <= x * drop
    ensures f * lost <= drop
  {
    Scale(f, x * lost, top);
    Regroup(f, x, lost);
    Scale(x, drop, f * lost);
  }

  /** A drop in price that covers the most either rounding can lose. */
  lemma WideGap(x: nat, s: nat, p: nat, q: nat, lostA: nat, lostB: nat, drop: int)
    requires x > 0 && 0 < p <= q
    requires x * lostA < s * p && x * lostB < s * q
    ensures s * p * q * q <= x * drop ==>
              && p * (q * lostA - p * lostB) <= drop
              && q * (p * lostB - q * lostA) <= drop
  {
    if s * p * q * q <= x * drop {
      var f := p * q;
      Scale(p, 0, q);
      Scale(f * s, p, q);
      Regroup(f, s, p);
      Regroup(f, s, q);
      Regroup(s, p, q);
      assert f * s * q == s * p * q * q;
      LossWithin(x, f, lostA, s * p, drop);
      LossWithin(x, f, lostB, s * q, drop);
      NonNegative(p, lostB);
      NonNegative(p, p * lostB);
      NonNegative(q, lostA);
      NonNegative(q, q * lostA);
      DistributeMinus(q * lostA, p * lostB, p);
      DistributeMinus(p * lostB, q * lostA, q);
      Regroup(p, q, lostA);
      Regroup(q, p, lostB);
    }
  }

  /** Exactly when the outputs at two amounts meet each half of the mean value requirement, in
      terms of the weights p and q and of what rounding loses at each; and a condition on pool
      and amounts alone under which they meet both. */
  lemma CurveMeanValueIff(x: nat, y: nat, num: nat, den: nat, a: nat, b: nat)
    requires x > 0 && y > 0 && num <= den && den > 0 && a < b
    ensures var p, q := Weight(x, num, den, a), Weight(x, num, den, b);
            var climb := Curve(Net(b, num, den), x, y) - Curve(Net(a, num, den), x, y);
            var drop := Drop(x, y, num, den, a, b) * (q - p);
            && (climb * (p * p) <= Drop(x, y, num, den, a, b) <==>
                p * (q * Lost(x, y, num, den, a) - p * Lost(x, y, num, den, b)) <= drop)
            && (Drop(x, y, num, den, a, b) <= climb * (q * q) <==>
                q * (p * Lost(x, y, num, den, b) - q * Lost(x, y, num, den, a)) <= drop)
            && ((x + y) * p * q * q <= x * drop ==>
                climb * (p * p) <= Drop(x, y, num, den, a, b) <= climb * (q * q))
  {
    hide Curve, Net, Lost;
    var p, q := Weight(x, num, den, a), Weight(x, num, den, b);
    WeightGrows(x, num, den, a, b);
    LostIsShortfall(x, y, num, den, a);
    LostIsShortfall(x, y, num, den, b);
    SlopeOfPrice(y, den - num, x * den, a, b);
    var n, lostA, lostB := Drop(x, y, num, den, a, b), Lost(x, y, num, den, a), Lost(x, y, num, den, b);
    Scale(den - num, a, b);
    NonNegative(den - num, a);
    ChordIff(y, Curve(Net(a, num, den), x, y), Curve(Net(b, num, den), x, y), p, q,
             (den - num) * a, (den - num) * b, x * den, lostA, lostB, n);
    hide Weight, Drop;
    WideGap(x, x + y, p, q, lostA, lostB, n * (q - p));
  }

  // ------------------------------------------------------------------------------------
  // The quote
  // ------------------------------------------------------------------------------------

  /** Reserves are positive and the fee is a fraction of at most one. */
  ghost predicate Sound(v: Venue) {
    v.reserves.Some? && v.reserves.value.pc > 0 && v.reserves.value.coin > 0
    && v.reserves.value.num <= v.reserves.value.den
  }

  function ExactIn(inputMint: Key, outputMint: Key, amount: u64): Request {
    Request(inputMint, outputMint, amount, true)
  }

  /** The exact-in swap behind a quote, ignoring balances. */
  function SwapOf(v: Venue, direction: Direction, amount: u64): SwapResult
    requires v.reserves.Some?
  {
    var a := v.reserves.value;
    SwapIn(InputReserve(a.pc, a.coin, direction), OutputReserve(a.pc, a.coin, direction), a.num, a.den, amount)
  }

  /** The least acceptable output never panics and gives up the tolerated part, rounded up,
      everything from 100% on. */
  lemma SlippageLowersOutput(amount: u64, slippageBps: u64)
    ensures MinAmountWithSlippage(amount, slippageBps).Amount?
    ensures var given := amount - MinAmountWithSlippage(amount, slippageBps).value;
            0 <= given && given == DivCeil(amount * Min(slippageBps, 10_000), 10_000)
  {
    NetIsFloor(amount, Min(slippageBps, TEN_THOUSAND), TEN_THOUSAND);
    assert SatSub(TEN_THOUSAND, slippageBps) == TEN_THOUSAND - Min(slippageBps, TEN_THOUSAND);
    MulDivAtMost(amount, SatSub(TEN_THOUSAND, slippageBps), TEN_THOUSAND);
  }

  lemma NoSlippage(amount: u64)
    ensures MinAmountWithSlippage(amount, 0) == Amount(amount)
  {
    SlippageLowersOutput(amount, 0);
  }

  /** On a sound venue an exact-in quote never panics, never exceeds its tolerance, and is
      valid exactly when the balance has room for the amount and the swap pays something. */
  lemma ValidSwapShape(v: Venue, inputMint: Key, outputMint: Key, amount: u64)
    requires Sound(v)
    ensures QuoteRequest(v, ExactIn(inputMint, outputMint, amount)) != Panic
    ensures Valid(QuoteRequest(v, ExactIn(inputMint, outputMint, amount))) <==>
            && DirectionOf(v, inputMint, outputMint).Some?
            && amount > 0
            && InputReserve(v.pcBalance, v.coinBalance, DirectionOf(v, inputMint, outputMint).value) + amount <= U64_MAX
            && SwapOf(v, DirectionOf(v, inputMint, outputMint).value, amount).Amount?
            && SwapOf(v, DirectionOf(v, inputMint, outputMint).value, amount).value > 0
    ensures Valid(QuoteRequest(v, ExactIn(inputMint, outputMint, amount))) ==>
              QuoteRequest(v, ExactIn(inputMint, outputMint, amount)).quote.output
              == SwapOf(v, DirectionOf(v, inputMint, outputMint).value, amount).value
  {
    hide SwapIn, PriceAt, MulDiv;
    if DirectionOf(v, inputMint, outputMint).Some? {
      var direction := DirectionOf(v, inputMint, outputMint).value;
      var a := v.reserves.value;
      SwapInIsCurve(InputReserve(a.pc, a.coin, direction), OutputReserve(a.pc, a.coin, direction),
                    a.num, a.den, amount);
      if SwapOf(v, direction, amount).Amount? {
        NoSlippage(SwapOf(v, direction, amount).value);
      }
    }
  }

  /** Exact-in swaps stay possible, and pay no less, as the amount grows. */
  lemma SwapInMonotone(inputReserve: u64, outputReserve: u64, num: u64, den: u64, a: u64, b: u64)
    requires inputReserve > 0 && outputReserve > 0 && num <= den && a <= b
    requires SwapIn(inputReserve, outputReserve, num, den, a).Amount?
    ensures SwapIn(inputReserve, outputReserve, num, den, b).Amount?
    ensures SwapIn(inputReserve, outputReserve, num, den, a).value
         <= SwapIn(inputReserve, outputReserve, num, den, b).value
  {
    hide SwapIn, Curve, Net;
    SwapInIsCurve(inputReserve, outputReserve, num, den, a);
    SwapInIsCurve(inputReserve, outputReserve, num, den, b);
    Scale(num, a, b);
    OutputsOrdered(inputReserve, outputReserve, num, den, a, b);
  }

  /** The amounts that quote validly form an interval, and the output rises along it. */
  lemma ValidSwapsAreContiguous(v: Venue, inputMint: Key, outputMint: Key, x: u64, y: u64, z: u64)
    requires Sound(v) && x <= y <= z
    requires Valid(QuoteRequest(v, ExactIn(inputMint, outputMint, x)))
    requires Valid(QuoteRequest(v, ExactIn(inputMint, outputMint, z)))
    ensures Valid(QuoteRequest(v, ExactIn(inputMint, outputMint, y)))
    ensures QuoteRequest(v, ExactIn(inputMint, outputMint, x)).quote.output
         <= QuoteRequest(v, ExactIn(inputMint, outputMint, y)).quote.output
  {
    hide QuoteRequest, SwapIn;
    ValidSwapShape(v, inputMint, outputMint, x);
    ValidSwapShape(v, inputMint, outputMint, y);
    ValidSwapShape(v, inputMint, outputMint, z);
    var direction := DirectionOf(v, inputMint, outputMint).value;
    var a := v.reserves.value;
    SwapInMonotone(InputReserve(a.pc, a.coin, direction), OutputReserve(a.pc, a.coin, direction), a.num, a.den, x, y);
  }

  lemma QuoteEchoes(v: Venue, inputMint: Key, outputMint: Key, amount: u64)
    requires Sound(v) && Valid(QuoteRequest(v, ExactIn(inputMint, outputMint, amount)))
    ensures DirectionOf(v, inputMint, outputMint).Some?
    ensures var r, direction := v.reserves.value, DirectionOf(v, inputMint, outputMint).value;
            var x, y := InputReserve(r.pc, r.coin, direction), OutputReserve(r.pc, r.coin, direction);
            var quote := QuoteRequest(v, ExactIn(inputMint, outputMint, amount)).quote;
            && quote.amount == amount
            && quote.price == PriceAt(x, y, r.num, r.den, amount)
  {
    hide SwapWithSlippage, PriceAt;
  }

  /** A valid quote is the curve at the net amount, at its derivative there. */
  lemma ValidSwapExactly(v: Venue, inputMint: Key, outputMint: Key, amount: u64)
    requires Sound(v) && Valid(QuoteRequest(v, ExactIn(inputMint, outputMint, amount)))
    ensures DirectionOf(v, inputMint, outputMint).Some? && v.reserves.value.den > 0
    ensures var r, direction := v.reserves.value, DirectionOf(v, inputMint, outputMint).value;
            var x, y := InputReserve(r.pc, r.coin, direction), OutputReserve(r.pc, r.coin, direction);
            var quote := QuoteRequest(v, ExactIn(inputMint, outputMint, amount)).quote;
            && quote.amount == amount
            && quote.output == Curve(Net(amount, r.num, r.den), x, y)
            && quote.price == PriceAt(x, y, r.num, r.den, amount)
  {
    hide SwapIn, PriceAt, Curve, Net, SwapWithSlippage;
    QuoteEchoes(v, inputMint, outputMint, amount);
    ValidSwapShape(v, inputMint, outputMint, amount);
    hide QuoteRequest, Valid;
    var r, direction := v.reserves.value, DirectionOf(v, inputMint, outputMint).value;
    SwapInIsCurve(InputReserve(r.pc, r.coin, direction), OutputReserve(r.pc, r.coin, direction), r.num, r.den, amount);
  }

  lemma QuotesMeanValueIff(x: u64, y: u64, num: u64, den: u64, first: Quote, last: Quote)
    requires x > 0 && y > 0 && num <= den && den > 0 && first.amount < last.amount
    requires first.output == Curve(Net(first.amount, num, den), x, y)
    requires last.output == Curve(Net(last.amount, num, den), x, y)
    requires first.price == PriceAt(x, y, num, den, first.amount)
    requires last.price == PriceAt(x, y, num, den, last.amount)
    ensures var p, q := Weight(x, num, den, first.amount), Weight(x, num, den, last.amount);
            var lostA, lostB := Lost(x, y, num, den, first.amount), Lost(x, y, num, den, last.amount);
            var drop := Drop(x, y, num, den, first.amount, last.amount) * (q - p);
            && (ChordAtMostFirst(first, last) <==> p * (q * lostA - p * lostB) <= drop)
            && (ChordAtLeastLast(first, last) <==> q * (p * lostB - q * lostA) <= drop)
            && ((x + y) * p * q * q <= x * drop ==> MeanValue(first, last))
  {
    hide PriceAt, Curve, Net, Lost, Weight;
    CurveMeanValueIff(x, y, num, den, first.amount, last.amount);
    PriceByWeight(x, y, num, den, first.amount);
    PriceByWeight(x, y, num, den, last.amount);
    var n := y * (den - num) * (x * den);
    assert Drop(x, y, num, den, first.amount, last.amount) == (last.amount - first.amount) * n;
    hide Drop;
  }

  /** Exactly when two valid quotes meet each half of the documented mean value requirement, in
      terms of the reserves, the amounts, and what rounding loses at each; and a condition on
      reserves and amounts alone under which they meet it. */
  lemma QuoteMeanValueIff(v: Venue, inputMint: Key, outputMint: Key, a: u64, b: u64)
    requires Sound(v) && a < b
    requires Valid(QuoteRequest(v, ExactIn(inputMint, outputMint, a)))
    requires Valid(QuoteRequest(v, ExactIn(inputMint, outputMint, b)))
    ensures DirectionOf(v, inputMint, outputMint).Some? && v.reserves.value.den > 0
    ensures var r, direction := v.reserves.value, DirectionOf(v, inputMint, outputMint).value;
            var x, y := InputReserve(r.pc, r.coin, direction), OutputReserve(r.pc, r.coin, direction);
            var p, q := Weight(x, r.num, r.den, a), Weight(x, r.num, r.den, b);
            var lostA, lostB := Lost(x, y, r.num, r.den, a), Lost(x, y, r.num, r.den, b);
            var drop := Drop(x, y, r.num, r.den, a, b) * (q - p);
            var first := QuoteRequest(v, ExactIn(inputMint, outputMint, a)).quote;
            var last := QuoteRequest(v, ExactIn(inputMint, outputMint, b)).quote;
            && (ChordAtMostFirst(first, last) <==> p * (q * lostA - p * lostB) <= drop)
            && (ChordAtLeastLast(first, last) <==> q * (p * lostB - q * lostA) <= drop)
            && ((x + y) * p * q * q <= x * drop ==> MeanValue(first, last))
  {
    hide QuoteRequest, PriceAt, Curve, Net, Lost, Weight, Drop, ChordAtMostFirst, ChordAtLeastLast;
    ValidSwapExactly(v, inputMint, outputMint, a);
    ValidSwapExactly(v, inputMint, outputMint, b);
    var r, direction := v.reserves.value, DirectionOf(v, inputMint, outputMint).value;
    QuotesMeanValueIff(InputReserve(r.pc, r.coin, direction), OutputReserve(r.pc, r.coin, direction), r.num, r.den,
                       QuoteRequest(v, ExactIn(inputMint, outputMint, a)).quote,
                       QuoteRequest(v, ExactIn(inputMint, outputMint, b)).quote);
  }

  /** An ordinary pool: a million atoms of each token, a fee of 0.25%. */
  const SAMPLE: Venue := Venue(0, 1, Some(Reserves(1_000_000, 1_000_000, 25, 10_000)), 1_000_000, 1_000_000)

  /** An instance that fails: from 200 to 201 atoms the output climbs by a whole atom while the
      price at 200 is below one. */
  lemma ExactMeanValueFails()
    ensures Sound(SAMPLE)
    ensures Valid(QuoteRequest(SAMPLE, ExactIn(0, 1, 200))) && Valid(QuoteRequest(SAMPLE, ExactIn(0, 1, 201)))
    ensures !MeanValue(QuoteRequest(SAMPLE, ExactIn(0, 1, 200)).quote, QuoteRequest(SAMPLE, ExactIn(0, 1, 201)).quote)
  {
    assert QuoteRequest(SAMPLE, ExactIn(0, 1, 200)).quote.output == 198;
    assert QuoteRequest(SAMPLE, ExactIn(0, 1, 201)).quote.output == 199;
  }

  // ------------------------------------------------------------------------------------
  // Exact-out requests
  // ------------------------------------------------------------------------------------

  /** No input of 64 bits reaches the output, fee included, and the 128-bit product that comes
      before the check of it does not overflow. */
  predicate OutOfReach(inputReserve: u64, outputReserve: u64, num: u64, den: u64, out: u64) {
    out >= outputReserve
    || (num < den
        && NetNeeded(inputReserve, outputReserve, out) * den < TWO_128
        && GrossNeeded(NetNeeded(inputReserve, outputReserve, out), num, den) > U64_MAX)
  }

  /** Where an answer is one atom or none, so is the true one, and the fee cannot lift it out of
      64 bits. */
  lemma SmallAnswers(answer: nat, num: u64, den: u64)
    requires answer <= 1
    ensures answer * den < TWO_128
    ensures num < den ==> GrossNeeded(answer, num, den) <= U64_MAX
  {
    if num < den {
      CeilAtMost(answer * den, den - num, den);
      Scale(den, 1, den - num);
    }
  }

  lemma CeilAtMostOne(inputReserve: nat, outputReserve: nat, out: nat)
    requires out < outputReserve && 2 * (inputReserve * out) < outputReserve - out
    ensures NetNeeded(inputReserve, outputReserve, out) <= 1
  {
    CeilAtMost(inputReserve * out, outputReserve - out, 1);
  }

  lemma BeyondReserve(inputReserve: u64, outputReserve: u64, out: u64)
    requires out >= outputReserve
    ensures BaseOut(out, inputReserve, outputReserve) == None
  {
  }

  /** Rounding up is exact for nothing and from the divisor on. */
  lemma CeilingFromDivisor(n: u128, d: u128)
    requires d > 0 && (n == 0 || n >= d)
    ensures CeilDivision(n, d).Some? && CeilDivision(n, d).value.0 == DivCeil(n, d)
  {
    if n > 0 {
      Quotients(n, d);
    }
    CeilDivisionIsCeilingIff(n, d);
  }

  lemma NoneOrEnough(before: nat, den: nat, d: nat)
    requires d <= den
    ensures before * den == 0 || before * den >= d
  {
    Scale(den, 1, before);
  }

  lemma NoCeilingByZero(n: u128)
    ensures CeilDivision(n, 0) == None
  {
  }

  /** Adding the fee to a quoted input: none to none, and the true ceiling to any other. */
  lemma FeeAdded(before: u128, num: u64, den: u64)
    requires num <= den && before * den < TWO_128
    ensures num == den ==> CeilDivision(before * den, den - num) == None
    ensures num < den ==> CeilDivision(before * den, den - num).Some?
    ensures num < den ==> CeilDivision(before * den, den - num).value.0 == GrossNeeded(before, num, den)
    ensures num < den && before == 0 ==> GrossNeeded(before, num, den) == 0
  {
    hide CeilDivision;
    NoneOrEnough(before, den, den - num);
    if num < den {
      CeilingFromDivisor(before * den, den - num);
      CeilBounds(before * den, den - num);
    } else {
      NoCeilingByZero(before * den);
    }
  }

  lemma SwapOutAbortsIff(inputReserve: u64, outputReserve: u64, num: u64, den: u64, out: u64)
    requires inputReserve > 0 && outputReserve > 0 && num <= den && out > 0
    ensures SwapOut(inputReserve, outputReserve, num, den, out) == Aborted
       <==> OutOfReach(inputReserve, outputReserve, num, den, out)
  {
    hide DivCeil, CeilDivision, BaseOut, NetNeeded, GrossNeeded;
    if out >= outputReserve {
      BeyondReserve(inputReserve, outputReserve, out);
    } else {
      BaseOutValue(inputReserve, outputReserve, out);
      AnswerOfOne(inputReserve, outputReserve, out);
      var before := BaseOut(out, inputReserve, outputReserve).value;
      if before * den < TWO_128 {
        FeeAdded(before, num, den);
      }
      if before < NetNeeded(inputReserve, outputReserve, out) {
        CeilAtMostOne(inputReserve, outputReserve, out);
        SmallAnswers(0, num, den);
        SmallAnswers(1, num, den);
      }
    }
  }

  /** The largest acceptable input adds the tolerated part, rounded down; it aborts exactly when
      the tolerance or the result does not fit 64 bits. */
  lemma SlippageRaisesInput(amount: u64, slippageBps: u64)
    ensures MaxAmountWithSlippage(amount, slippageBps).Amount? <==>
            slippageBps <= U64_MAX - 10_000 && amount * (10_000 + slippageBps) < 10_000 * TWO_64
    ensures MaxAmountWithSlippage(amount, slippageBps).Amount? ==>
              var most := MaxAmountWithSlippage(amount, slippageBps).value;
              10_000 * most <= amount * (10_000 + slippageBps) < 10_000 * most + 10_000
    ensures MaxAmountWithSlippage(amount, slippageBps).Amount? || MaxAmountWithSlippage(amount, slippageBps).Aborted?
  {
    MulDivBounds(amount, 10_000 + slippageBps, 10_000);
    MulDivAtLeast(amount, 10_000 + slippageBps, 10_000, TWO_64);
    hide MulDiv;
  }

  /** A swap with slippage is answered exactly when the input fits beside the balance, the swap
      without slippage is answered, and the threshold is defined and below the output reserve.  The
      threshold is the least output for an exact input, and the largest input for an exact output. */
  lemma SlippageOutcome(pcBalance: u64, coinBalance: u64, pc: u64, coin: u64, num: u64, den: u64,
                        direction: Direction, amount: u64, baseIn: bool, slippageBps: u64)
    ensures var exact := SwapExactAmount(pc, coin, num, den, direction, amount, baseIn);
            var r := SwapWithSlippage(pcBalance, coinBalance, pc, coin, num, den, direction, amount, baseIn,
                                      slippageBps);
            && (r.Amount? ==>
                  && InputReserve(pcBalance, coinBalance, direction) + amount <= U64_MAX
                  && exact.Amount?
                  && r.value < OutputReserve(pc, coin, direction)
                  && (baseIn ==> r == MinAmountWithSlippage(exact.value, slippageBps))
                  && (!baseIn ==> r == MaxAmountWithSlippage(exact.value, slippageBps)))
            && (InputReserve(pcBalance, coinBalance, direction) + amount > U64_MAX ==> r == Failed(MathError))
            && (InputReserve(pcBalance, coinBalance, direction) + amount <= U64_MAX && !exact.Amount? ==> r == exact)
            && (r.Aborted? && exact.Amount? ==>
                  !baseIn && MaxAmountWithSlippage(exact.value, slippageBps) == Aborted)
  {
    var exact := SwapExactAmount(pc, coin, num, den, direction, amount, baseIn);
    if exact.Amount? {
      SlippageLowersOutput(exact.value, slippageBps);
    }
    hide SwapExactAmount, MinAmountWithSlippage, MaxAmountWithSlippage;
  }

  lemma NoMarkup(amount: u64)
    ensures MaxAmountWithSlippage(amount, 0) == Amount(amount)
  {
  }

  /** On a sound venue an exact-out request panics exactly when it names a pair of the venue and
      a positive amount, the input balance has room for that amount, and the amount is out of
      reach. */
  lemma ExactOutPanicsIff(v: Venue, inputMint: Key, outputMint: Key, amount: u64)
    requires Sound(v)
    ensures QuoteRequest(v, Request(inputMint, outputMint, amount, false)) == Panic <==>
            && DirectionOf(v, inputMint, outputMint).Some?
            && amount > 0
            && var r, direction := v.reserves.value, DirectionOf(v, inputMint, outputMint).value;
               && InputReserve(v.pcBalance, v.coinBalance, direction) + amount <= U64_MAX
               && OutOfReach(InputReserve(r.pc, r.coin, direction), OutputReserve(r.pc, r.coin, direction),
                             r.num, r.den, amount)
  {
    hide SwapOut, OutOfReach, PriceAt, MulDiv;
    if DirectionOf(v, inputMint, outputMint).Some? && amount > 0 {
      var r, direction := v.reserves.value, DirectionOf(v, inputMint, outputMint).value;
      var x, y := InputReserve(r.pc, r.coin, direction), OutputReserve(r.pc, r.coin, direction);
      SwapOutAbortsIff(x, y, r.num, r.den, amount);
      var exact := SwapOut(x, y, r.num, r.den, amount);
      if exact.Amount? {
        NoMarkup(exact.value);
      }
    }
  }

  /** The quoted input, fee included, fits 64 bits but is no smaller than the output reserve. */
  predicate InputReachesOutputReserve(inputReserve: u64, outputReserve: u64, num: u64, den: u64, out: u64) {
    && out < outputReserve && num < den
    && 2 * (inputReserve * out) >= outputReserve - out
    && NetNeeded(inputReserve, outputReserve, out) * den < TWO_128
    && outputReserve <= GrossNeeded(NetNeeded(inputReserve, outputReserve, out), num, den) <= U64_MAX
  }

  lemma SwapOutFails(inputReserve: u64, outputReserve: u64, num: u64, den: u64, out: u64)
    ensures SwapOut(inputReserve, outputReserve, num, den, out).Failed? ==>
              SwapOut(inputReserve, outputReserve, num, den, out).error == MathError
  {
    hide CeilDivision, BaseOut;
  }

  lemma SwapOutReachesIff(inputReserve: u64, outputReserve: u64, num: u64, den: u64, out: u64)
    requires inputReserve > 0 && outputReserve > 0 && num <= den && out > 0
    ensures SwapOut(inputReserve, outputReserve, num, den, out).Amount?
            && SwapOut(inputReserve, outputReserve, num, den, out).value >= outputReserve
       <==> InputReachesOutputReserve(inputReserve, outputReserve, num, den, out)
  {
    hide DivCeil, CeilDivision, BaseOut, NetNeeded, GrossNeeded;
    if out >= outputReserve {
      BeyondReserve(inputReserve, outputReserve, out);
    } else {
      BaseOutValue(inputReserve, outputReserve, out);
      AnswerOfOne(inputReserve, outputReserve, out);
      var before := BaseOut(out, inputReserve, outputReserve).value;
      if before * den < TWO_128 {
        FeeAdded(before, num, den);
      }
    }
  }

  /** On a sound venue an exact-out request is refused with a complaint about its output exactly
      when it names a pair of the venue and a positive amount, the input balance has room for
      that amount, and its quoted input reaches the output reserve. */
  lemma ExactOutRefusedIff(v: Venue, inputMint: Key, outputMint: Key, amount: u64)
    requires Sound(v)
    ensures QuoteRequest(v, Request(inputMint, outputMint, amount, false)) == Err(OutputExceedsTolerance) <==>
            && DirectionOf(v, inputMint, outputMint).Some?
            && amount > 0
            && var r, direction := v.reserves.value, DirectionOf(v, inputMint, outputMint).value;
               && InputReserve(v.pcBalance, v.coinBalance, direction) + amount <= U64_MAX
               && InputReachesOutputReserve(InputReserve(r.pc, r.coin, direction),
                                            OutputReserve(r.pc, r.coin, direction), r.num, r.den, amount)
  {
    hide SwapOut, InputReachesOutputReserve, PriceAt, MulDiv;
    if DirectionOf(v, inputMint, outputMint).Some? && amount > 0 {
      var r, direction := v.reserves.value, DirectionOf(v, inputMint, outputMint).value;
      var x, y := InputReserve(r.pc, r.coin, direction), OutputReserve(r.pc, r.coin, direction);
      SwapOutReachesIff(x, y, r.num, r.den, amount);
      SwapOutFails(x, y, r.num, r.den, amount);
      var exact := SwapOut(x, y, r.num, r.den, amount);
      if exact.Amount? {
        NoMarkup(exact.value);
      }
    }
  }

  /** A pool short of the token bought. */
  const SHORT_OF_OUTPUT: Venue := Venue(0, 1, Some(Reserves(1_000_000, 1_000, 25, 10_000)), 1_000_000, 1_000)

  /** An instance: the pool refuses to quote an output of half its reserve, though the input
      that takes buys exactly that. */
  lemma ServableOutputIsRefused()
    ensures Sound(SHORT_OF_OUTPUT)
    ensures QuoteRequest(SHORT_OF_OUTPUT, Request(0, 1, 500, false)) == Err(OutputExceedsTolerance)
    ensures QuoteRequest(SHORT_OF_OUTPUT, ExactIn(0, 1, 1_002_507)).Ok?
    ensures QuoteRequest(SHORT_OF_OUTPUT, ExactIn(0, 1, 1_002_507)).quote.output == 500
  {
  }

  // ------------------------------------------------------------------------------------
  // Requests, by the names of the tokens
  // ------------------------------------------------------------------------------------

  /** The request sells pc for coin. */
  predicate SellsPc(v: Venue, r: Request) {
    r.inputMint == v.pcMint && r.outputMint == v.coinMint
  }

  predicate SellsCoin(v: Venue, r: Request) {
    r.inputMint == v.coinMint && r.outputMint == v.pcMint && !SellsPc(v, r)
  }

  /** What a venue with these reserves of the token sold and the token bought, and this balance
      of the former, answers an exact-in request. */
  ghost predicate AnswersExactIn(x: u64, y: u64, num: u64, den: u64, balance: u64, amount: u64, answer: QuoteResult)
    requires x > 0 && num <= den
  {
    if amount == 0 then answer == Ok(Quote(0, 0, false, PriceAt(x, y, num, den, 0)))
    else if balance + amount > U64_MAX || den == 0 || 2 * (amount * num) < den then answer == Err(MathError)
    else
      && answer.Ok?
      && answer.quote.amount == amount && !answer.quote.notEnoughLiquidity
      && answer.quote.output == Curve(Net(amount, num, den), x, y)
      && answer.quote.price == PriceAt(x, y, num, den, amount)
  }

  lemma SwapInFails(inputReserve: u64, outputReserve: u64, num: u64, den: u64, amount: u64)
    ensures SwapIn(inputReserve, outputReserve, num, den, amount).Failed? ==>
              SwapIn(inputReserve, outputReserve, num, den, amount).error == MathError
  {
    hide InputFee, BaseIn;
  }

  /** Every exact-in request to a sound venue: selling pc is answered from the reserve of pc
      towards that of coin, selling coin the other way round, and any other pair is refused. */
  lemma ExactInOutcome(v: Venue, r: Request)
    requires Sound(v) && r.exactIn
    ensures var a := v.reserves.value;
            && (SellsPc(v, r) ==>
                  AnswersExactIn(a.pc, a.coin, a.num, a.den, v.pcBalance, r.amount, QuoteRequest(v, r)))
            && (SellsCoin(v, r) ==>
                  AnswersExactIn(a.coin, a.pc, a.num, a.den, v.coinBalance, r.amount, QuoteRequest(v, r)))
            && (QuoteRequest(v, r) == Err(InvalidMint) <==> !SellsPc(v, r) && !SellsCoin(v, r))
  {
    hide SwapIn, PriceAt, MulDiv, Net, Curve;
    var a := v.reserves.value;
    if SellsPc(v, r) || SellsCoin(v, r) {
      var x, y := if SellsPc(v, r) then a.pc else a.coin, if SellsPc(v, r) then a.coin else a.pc;
      SwapInIsCurve(x, y, a.num, a.den, r.amount);
      SwapInFails(x, y, a.num, a.den, r.amount);
      if SwapIn(x, y, a.num, a.den, r.amount).Amount? {
        NoSlippage(SwapIn(x, y, a.num, a.den, r.amount).value);
      }
    }
  }

  /** The least amount that pays for an output, fee included. */
  function Asked(x: nat, y: nat, num: nat, den: nat, out: nat): nat
    requires out < y && num < den
  {
    GrossNeeded(NetNeeded(x, y, out), num, den)
  }

  /** What such a venue answers an exact-out request for a positive amount. */
  ghost predicate AnswersExactOut(x: u64, y: u64, num: u64, den: u64, balance: u64, out: u64, answer: QuoteResult)
    requires num <= den && out > 0
  {
    if balance + out > U64_MAX then answer == Err(MathError)
    else if out >= y then answer == Panic
    else if 2 * (x * out) < y - out then
      // The input is rounded down to none.
      if num == den then answer == Err(MathError)
      else answer == Ok(Quote(out, 0, false, PriceAt(x, y, num, den, out)))
    else if num == den || NetNeeded(x, y, out) * den >= TWO_128 then answer == Err(MathError)
    else if Asked(x, y, num, den, out) > U64_MAX then answer == Panic
    else if Asked(x, y, num, den, out) >= y then answer == Err(OutputExceedsTolerance)
    else
      && answer.Ok?
      && answer.quote.amount == out && !answer.quote.notEnoughLiquidity
      && answer.quote.output == Asked(x, y, num, den, out)
      && answer.quote.price == PriceAt(x, y, num, den, out)
  }

  lemma SwapOutOutcome(x: u64, y: u64, num: u64, den: u64, out: u64)
    requires x > 0 && y > 0 && num <= den && out > 0
    ensures SwapOut(x, y, num, den, out)
         == if out >= y then Aborted
            else if 2 * (x * out) < y - out then
              if num == den then Failed(MathError) else Amount(0)
            else if num == den || NetNeeded(x, y, out) * den >= TWO_128 then Failed(MathError)
            else AsU64(Asked(x, y, num, den, out))
  {
    hide DivCeil, CeilDivision, BaseOut, NetNeeded, GrossNeeded;
    if out >= y {
      BeyondReserve(x, y, out);
    } else {
      BaseOutValue(x, y, out);
      AnswerOfOne(x, y, out);
      var before := BaseOut(out, x, y).value;
      if before * den < TWO_128 {
        FeeAdded(before, num, den);
      }
    }
  }

  /** Every exact-out request to a sound venue. */
  lemma ExactOutOutcome(v: Venue, r: Request)
    requires Sound(v) && !r.exactIn && r.amount > 0
    ensures var a := v.reserves.value;
            && (SellsPc(v, r) ==>
                  AnswersExactOut(a.pc, a.coin, a.num, a.den, v.pcBalance, r.amount, QuoteRequest(v, r)))
            && (SellsCoin(v, r) ==>
                  AnswersExactOut(a.coin, a.pc, a.num, a.den, v.coinBalance, r.amount, QuoteRequest(v, r)))
            && (QuoteRequest(v, r) == Err(InvalidMint) <==> !SellsPc(v, r) && !SellsCoin(v, r))
  {
    hide SwapOut, PriceAt, MulDiv, NetNeeded, GrossNeeded;
    var a := v.reserves.value;
    if SellsPc(v, r) || SellsCoin(v, r) {
      var x, y := if SellsPc(v, r) then a.pc else a.coin, if SellsPc(v, r) then a.coin else a.pc;
      SwapOutOutcome(x, y, a.num, a.den, r.amount);
      if SwapOut(x, y, a.num, a.den, r.amount).Amount? {
        NoMarkup(SwapOut(x, y, a.num, a.den, r.amount).value);
      }
    }
  }

  lemma SwapsAreInitialized(v: Venue, r: Request)
    requires v.reserves.Some? && DirectionOf(v, r.inputMint, r.outputMint).Some?
    ensures var a, direction := v.reserves.value, DirectionOf(v, r.inputMint, r.outputMint).value;
            SwapWithSlippage(v.pcBalance, v.coinBalance, a.pc, a.coin, a.num, a.den, direction, r.amount,
                             r.exactIn, 0) != Failed(NotInitialized)
  {
    hide MulDiv, InputFee, BaseIn, BaseOut, CeilDivision;
  }

  /** Before its first update the venue answers nothing. */
  lemma UninitializedIff(v: Venue, r: Request)
    ensures QuoteRequest(v, r) == Err(NotInitialized) <==> v.reserves.None?
  {
    hide SwapWithSlippage, PriceAt;
    if v.reserves.Some? && DirectionOf(v, r.inputMint, r.outputMint).Some? {
      SwapsAreInitialized(v, r);
    }
  }
}
