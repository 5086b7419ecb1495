/** What the Huma quotes guarantee to the router that calls them. */
module HumaQuoteLaws {
  import opened Numbers
  import opened Quoting
  import opened HumaFee
  import opened HumaFeeLaws
  import opened HumaQuote

  // ------------------------------------------------------------------------------------
  // Clamping
  // ------------------------------------------------------------------------------------

  /** Shares within the clamp are backed: they exist, their gross value can be paid, and the
      conversions to 64 bits lose nothing. */
  lemma ClampIsSound(s: Venue, shares: u64)
    requires s.supply > 0 && 0 < shares <= MaxShares(s)
    ensures s.modeAssets > 0
    ensures MaxShares(s) == MulDiv(Servable(s), s.supply, s.modeAssets)
    ensures shares <= s.supply
    ensures Gross(shares, s.modeAssets, s.supply) <= Servable(s)
    ensures Low64(Gross(shares, s.modeAssets, s.supply)) == Gross(shares, s.modeAssets, s.supply)
  {
    hide MulDiv;
    MulDivCommutes(Servable(s), s.supply, s.modeAssets);
    MulDivAtMost(s.supply, Servable(s), s.modeAssets);
    MulDivRoundTrip(Servable(s), s.supply, s.modeAssets, shares);
  }

  lemma GrossMonotone(s: Venue, m: nat, n: nat)
    requires s.supply > 0 && m <= n
    ensures Gross(m, s.modeAssets, s.supply) <= Gross(n, s.modeAssets, s.supply)
  {
    MulDivMonotone(m, n, s.modeAssets, s.supply);
  }

  /** A served withdrawal has a bracket below 100%, hence a price. */
  lemma ServedIsPriced(s: Venue, shares: u64)
    requires Progressive(s.tiers) && Payout(s, shares).Fee?
    ensures s.supply > 0
    ensures WithdrawPrice(s, shares).Some?
  {
    var w := Low64(Gross(shares, s.modeAssets, s.supply));
    FeeIsScheduled(s.tiers, RefreshedTotalAssets(s), LiquidBefore(s), w);
  }

  lemma NetRatePositive(modeAssets: nat, supply: nat, feeBps: nat)
    requires modeAssets > 0 && supply > 0 && feeBps < BPS
    ensures NetRate(modeAssets, supply, feeBps).Positive()
  {
    Scale(modeAssets, 0, BPS - feeBps);
  }

  lemma NothingWithoutSupply(s: Venue, shares: u64)
    requires s.supply == 0
    ensures Payout(s, shares) == Unserved && WithdrawPrice(s, shares) == None
  {
  }

  /** Within the clamp the payout does not abort, is positive when there is one, stays within
      the gross value and comes with a positive price. */
  lemma ServedPayoutIsSound(s: Venue, shares: u64)
    requires Progressive(s.tiers) && s.supply > 0 && 0 < shares <= MaxShares(s)
    ensures !Payout(s, shares).Abort?
    ensures Payout(s, shares).Fee? ==>
              && 0 < Payout(s, shares).amount <= Gross(shares, s.modeAssets, s.supply)
              && WithdrawPrice(s, shares).Some?
              && WithdrawPrice(s, shares).value.Positive()
  {
    hide WithdrawalFee, MaxShares, Gross, NetRate;
    ClampIsSound(s, shares);
    var w := Gross(shares, s.modeAssets, s.supply);
    FeeIsScheduled(s.tiers, RefreshedTotalAssets(s), LiquidBefore(s), w);
    if Payout(s, shares).Fee? {
      NetRatePositive(s.modeAssets, s.supply,
                      MarginalFeeBps(s.tiers, RefreshedTotalAssets(s), LiquidBefore(s), w).value);
    }
  }

  /** A quote panics only where the sum over the modes overflows.  Every quote for a positive
      served amount is covered by shares that exist and assets that can be paid out, never
      pays more than the gross value, and has a positive price. */
  lemma WithdrawQuoteIsSound(s: Venue, shares: u64)
    requires Progressive(s.tiers)
    ensures QuoteWithdraw(s, shares) == Panic <==> !SumFits(s)
    ensures QuoteWithdraw(s, shares).Ok? && QuoteWithdraw(s, shares).quote.amount > 0 ==>
              var q := QuoteWithdraw(s, shares).quote;
              && s.supply > 0
              && q.amount <= shares && q.amount <= s.supply
              && (q.notEnoughLiquidity <==> q.amount < shares)
              && 0 < q.output <= Gross(q.amount, s.modeAssets, s.supply)
              && Gross(q.amount, s.modeAssets, s.supply) <= s.modeAssets
              && Gross(q.amount, s.modeAssets, s.supply) <= AvailableBalance(s) + s.strategyLiquidity
              && q.price.Positive()
  {
    hide AllModeAssetsFresh, Payout, MaxShares, WithdrawPrice, Gross, SumFits;
    var served := Min(shares, MaxShares(s));
    if s.supply > 0 && served > 0 {
      ClampIsSound(s, served);
      ServedPayoutIsSound(s, served);
    } else if served > 0 {
      NothingWithoutSupply(s, served);
    }
  }

  // ------------------------------------------------------------------------------------
  // Monotone output, contiguous range
  // ------------------------------------------------------------------------------------

  /** Net output never falls as shares grow, and anything below a served size that pays
      anything at all stays served. */
  lemma PayoutMonotone(s: Venue, m: u64, n: u64)
    requires Progressive(s.tiers) && s.supply > 0 && m <= n
    requires Gross(n, s.modeAssets, s.supply) <= U64_MAX
    requires Payout(s, n).Fee?
    ensures !Payout(s, m).Abort?
    ensures Payout(s, m).Fee? ==> Payout(s, m).amount <= Payout(s, n).amount
    ensures forall x: u64 :: x <= m && Payout(s, x).Fee? ==> Payout(s, m).Fee?
  {
    hide WithdrawalFee, Gross;
    GrossMonotone(s, m, n);
    var wm, wn := Gross(m, s.modeAssets, s.supply), Gross(n, s.modeAssets, s.supply);
    FeeMonotoneAndLipschitz(s.tiers, RefreshedTotalAssets(s), LiquidBefore(s), wm, wn);
    forall x: u64 | x <= m && Payout(s, x).Fee?
      ensures Payout(s, m).Fee?
    {
      GrossMonotone(s, x, m);
      FeeMonotoneAndLipschitz(s.tiers, RefreshedTotalAssets(s), LiquidBefore(s),
                              Gross(x, s.modeAssets, s.supply), wm);
    }
  }

  /** Paying out all of the available balance leaves the disbursement reserve and the
      withdrawal reserve in the pool; there is some exactly when the balance exceeds both. */
  lemma AvailableBalanceLeavesReserves(s: Venue)
    ensures AvailableBalance(s) > 0 <==> s.underlyingBalance > Low64(s.disbursementReserve) + s.reserveLimit
    ensures AvailableBalance(s) > 0 ==>
              s.underlyingBalance - AvailableBalance(s) == Low64(s.disbursementReserve) + s.reserveLimit
  {
  }

  lemma {:induction false} SumOfUpdate(modes: seq<ModeState>, i: nat, assets: u128)
    requires i < |modes|
    ensures SumOfAssets(modes[i := modes[i].(assets := assets)]) == SumOfAssets(modes) - modes[i].assets + assets
    ensures SumOfAssets(modes) >= modes[i].assets
  {
    if i > 0 {
      SumOfUpdate(modes[1..], i - 1, assets);
      assert modes[i := modes[i].(assets := assets)][1..] == modes[1..][i - 1 := modes[i].(assets := assets)];
    } else {
      assert modes[0 := modes[0].(assets := assets)][1..] == modes[1..];
    }
  }

  /** The refreshed total is the sum over all modes with the quoted mode revalued, when that
      mode has not lost value and the sum fits 64 bits. */
  lemma RefreshedTotalIsUpdatedSum(s: Venue)
    requires s.modes[s.modeIndex].assets <= s.modeAssets
    requires SumOfAssets(s.modes[s.modeIndex := s.modes[s.modeIndex].(assets := s.modeAssets)]) <= U64_MAX
    ensures RefreshedTotalAssets(s)
         == SumOfAssets(s.modes[s.modeIndex := s.modes[s.modeIndex].(assets := s.modeAssets)])
  {
    SumOfUpdate(s.modes, s.modeIndex, s.modeAssets);
  }

  /** The gate compares the day's use plus the request with the budget, in whole numbers: an
      earlier day's use is forgotten, and only a budget of 2^64 - 1 can never be exceeded. */
  lemma GateComparesUseWithBudget(g: Gating, shares: u64, now: u64, budget: u64)
    ensures var used := if now / SECONDS_PER_DAY * SECONDS_PER_DAY > g.windowStartsAt then 0 else Low64(g.requested);
            g.WouldExceed(shares, now, budget) <==> used + shares > budget && budget < U64_MAX
  {
  }

  /** A valid withdrawal quote serves the whole request within the clamp. */
  lemma ValidWithdrawShape(s: Venue, shares: u64)
    requires Progressive(s.tiers)
    ensures Valid(QuoteWithdraw(s, shares)) <==>
            && 0 < shares <= MaxShares(s)
            && SumFits(s) && AllModeAssetsFresh(s)
            && !s.instantGating.WouldExceed(shares, s.now, Low64(s.maxInstant))
            && !s.globalGating.WouldExceed(shares, s.now, Low64(s.maxTotal))
            && Payout(s, shares).Fee?
    ensures Valid(QuoteWithdraw(s, shares)) ==>
              && QuoteWithdraw(s, shares).quote.amount == shares
              && QuoteWithdraw(s, shares).quote.output == Payout(s, shares).amount
              && WithdrawPrice(s, shares) == Some(QuoteWithdraw(s, shares).quote.price)
  {
    hide WithdrawalFee, Gross, AllModeAssetsFresh, MarginalFeeBps, SumFits;
    if Payout(s, shares).Fee? {
      ServedIsPriced(s, shares);
    }
  }

  /** The sizes that quote validly form an interval, and the output rises along it. */
  lemma ValidWithdrawalsAreContiguous(s: Venue, x: u64, y: u64, z: u64)
    requires Progressive(s.tiers) && x <= y <= z
    requires Valid(QuoteWithdraw(s, x)) && Valid(QuoteWithdraw(s, z))
    ensures Valid(QuoteWithdraw(s, y))
    ensures QuoteWithdraw(s, x).quote.output <= QuoteWithdraw(s, y).quote.output
                                             <= QuoteWithdraw(s, z).quote.output
  {
    hide QuoteWithdraw, Payout, Gross, MaxShares, AllModeAssetsFresh;
    ValidWithdrawShape(s, x);
    ValidWithdrawShape(s, y);
    ValidWithdrawShape(s, z);
    ServedIsPriced(s, x);
    ClampIsSound(s, z);
    PayoutMonotone(s, y, z);
    GrossMonotone(s, y, z);
    PayoutMonotone(s, x, y);
  }

  /** The pool's ratio lies in a bracket charging below 100%. */
  predicate SpotFeeKnown(s: Venue) {
    && RefreshedTotalAssets(s) > 0
    && Bracket(s.tiers, RefreshedTotalAssets(s), LiquidBefore(s)) < |s.tiers|
    && s.tiers[Bracket(s.tiers, RefreshedTotalAssets(s), LiquidBefore(s))].feeBps < BPS
  }

  lemma ZeroWithdrawalQuotes(s: Venue)
    ensures QuoteWithdraw(s, 0).Ok? <==> SumFits(s) && s.supply > 0 && SpotFeeKnown(s)
  {
    hide SumFits, RefreshedTotalAssets, LiquidBefore;
    if s.supply > 0 {
      assert Gross(0, s.modeAssets, s.supply) == 0;
    }
  }

  /** A venue must quote a zero input without an error.  This one does exactly when the pool is
      on and the pair is its own; and, for withdrawals, the sum over the modes fits, shares
      exist, and the pool holds assets at a ratio in a bracket charging below 100%. */
  lemma ZeroInputQuotes(s: Venue, inputMint: Key, outputMint: Key)
    ensures QuoteRequest(s, Request(inputMint, outputMint, 0, true)).Ok? <==>
            && !s.paused && s.poolOn
            && (|| (inputMint == s.underlyingMint && outputMint == s.modeMint)
                || (inputMint == s.modeMint && outputMint == s.underlyingMint
                    && SumFits(s) && s.supply > 0 && SpotFeeKnown(s)))
  {
    hide QuoteWithdraw, SumFits, SpotFeeKnown;
    ZeroWithdrawalQuotes(s);
  }

  // ------------------------------------------------------------------------------------
  // Price
  // ------------------------------------------------------------------------------------

  lemma KeepNear(supply: nat, a: int, b: int, keep: nat)
    requires keep <= BPS
    ensures a < b + supply ==> a * keep <= b * keep + supply * BPS
  {
    Scale(keep, a, b + supply);
    Distribute(b, supply, keep);
    Scale(supply, keep, BPS);
  }

  /** `supply * gross` approximates `value` to within `supply`, so it does after both are
      scaled by what the fee keeps. */
  lemma KeepValue(supply: nat, gross: nat, keep: nat, value: nat)
    requires keep <= BPS
    ensures supply * gross < value + supply ==> supply * (gross * keep) <= value * keep + supply * BPS
    ensures value < supply * gross + supply ==> value * keep <= supply * (gross * keep) + supply * BPS
  {
    assert supply * (gross * keep) == (supply * gross) * keep;
    KeepNear(supply, supply * gross, value, keep);
    KeepNear(supply, value, supply * gross, keep);
  }

  /** From a climb in net amount to a climb in output per share, rounding included. */
  lemma ChordAbove(modeAssets: nat, supply: nat, shares: nat, gross: nat, keep: nat, output: int)
    requires supply > 0 && keep <= BPS
    requires BPS * output <= gross * keep + 9_999
    requires supply * gross < shares * modeAssets + supply
    ensures supply * BPS * output < shares * (modeAssets * keep) + 2 * (supply * BPS)
  {
    KeepValue(supply, gross, keep, shares * modeAssets);
    assert (shares * modeAssets) * keep == shares * (modeAssets * keep);
    Scale(supply, BPS * output, gross * keep + BPS);
    Distribute(gross * keep, BPS, supply);
    assert supply * (BPS * output) == supply * BPS * output;
  }

  lemma ChordBelow(modeAssets: nat, supply: nat, shares: nat, gross: nat, keep: nat, output: int, crossed: nat)
    requires supply > 0 && keep <= BPS
    requires BPS * output >= gross * keep - 9_999 * (crossed + 1)
    requires supply * gross + supply > shares * modeAssets
    ensures supply * BPS * (output + crossed + 2) > shares * (modeAssets * keep)
  {
    KeepValue(supply, gross, keep, shares * modeAssets);
    assert (shares * modeAssets) * keep == shares * (modeAssets * keep);
    var climb := output + crossed + 1;
    assert gross * keep < BPS * climb;
    Scale(supply, gross * keep, BPS * climb);
    Distribute(climb, 1, supply * BPS);
    assert supply * (BPS * climb) == supply * BPS * climb;
  }

  lemma NetRateOrder(modeAssets: nat, supply: nat, fee1: nat, fee2: nat)
    requires fee1 <= fee2 <= BPS
    ensures NetRate(modeAssets, supply, fee2).AtMost(NetRate(modeAssets, supply, fee1))
  {
    Scale(modeAssets, BPS - fee2, BPS - fee1);
    Scale(supply * BPS, modeAssets * (BPS - fee2), modeAssets * (BPS - fee1));
  }

  /** The bracket a withdrawal of n shares ends in. */
  function BracketAt(s: Venue, n: u64): nat
    requires s.supply > 0
  {
    BracketAfter(s.tiers, RefreshedTotalAssets(s), LiquidBefore(s), Gross(n, s.modeAssets, s.supply))
  }

  /** How many brackets the withdrawal steps down between two sizes. */
  function BracketsCrossed(s: Venue, m: u64, n: u64): int
    requires s.supply > 0
  {
    BracketAt(s, m) - BracketAt(s, n)
  }

  lemma KeepRate(climb: nat, fee: nat)
    requires fee <= BPS
    ensures climb * (BPS - fee) == BPS * climb - climb * fee
  {
  }

  /** What is left after the fee climbs at what the marginal rates leave, up to rounding. */
  lemma NetSlope(tiers: seq<Tier>, total: u64, liquid: u64, w1: u64, w2: u64)
    requires Progressive(tiers) && liquid <= total && w1 <= w2
    requires WithdrawalFee(tiers, total, liquid, w1).Fee? && WithdrawalFee(tiers, total, liquid, w2).Fee?
    requires MarginalFeeBps(tiers, total, liquid, w1).Some? && MarginalFeeBps(tiers, total, liquid, w2).Some?
    ensures BracketAfter(tiers, total, liquid, w2) <= BracketAfter(tiers, total, liquid, w1)
    ensures MarginalFeeBps(tiers, total, liquid, w1).value <= MarginalFeeBps(tiers, total, liquid, w2).value < BPS
    ensures var net := w2 - WithdrawalFee(tiers, total, liquid, w2).amount
                       - (w1 - WithdrawalFee(tiers, total, liquid, w1).amount);
            var crossed := BracketAfter(tiers, total, liquid, w1) - BracketAfter(tiers, total, liquid, w2);
            (w2 - w1) * (BPS - MarginalFeeBps(tiers, total, liquid, w2).value) - 9_999 * (crossed + 1)
            <= BPS * net
            <= (w2 - w1) * (BPS - MarginalFeeBps(tiers, total, liquid, w1).value) + 9_999
  {
    hide WithdrawalFee;
    var f1 := MarginalFeeBps(tiers, total, liquid, w1).value;
    var f2 := MarginalFeeBps(tiers, total, liquid, w2).value;
    assert f1 < BPS && f2 < BPS;
    hide MarginalFeeBps, BracketAfter;
    if w1 < w2 {
      MarginalRateBracketsFee(tiers, total, liquid, w1, w2);
    }
    KeepRate(w2 - w1, f1);
    KeepRate(w2 - w1, f2);
  }

  /** The marginal fee after withdrawing n shares, 100% where there is none. */
  function MarginalAt(s: Venue, n: u64): nat
    requires s.supply > 0
  {
    var fee := MarginalFeeBps(s.tiers, RefreshedTotalAssets(s), LiquidBefore(s),
                              Low64(Gross(n, s.modeAssets, s.supply)));
    if fee.Some? then fee.value else BPS
  }

  /** The payout climbs with the gross value at what the marginal fees leave, up to rounding. */
  lemma PayoutSlope(s: Venue, m: u64, n: u64)
    requires Progressive(s.tiers) && s.supply > 0 && m < n
    requires Gross(n, s.modeAssets, s.supply) <= U64_MAX
    requires Payout(s, m).Fee? && Payout(s, n).Fee?
    ensures Gross(m, s.modeAssets, s.supply) <= Gross(n, s.modeAssets, s.supply)
    ensures 0 <= BracketsCrossed(s, m, n)
    ensures MarginalAt(s, m) <= MarginalAt(s, n) < BPS
    ensures WithdrawPrice(s, m) == Some(NetRate(s.modeAssets, s.supply, MarginalAt(s, m)))
    ensures WithdrawPrice(s, n) == Some(NetRate(s.modeAssets, s.supply, MarginalAt(s, n)))
    ensures var gross := Gross(n, s.modeAssets, s.supply) - Gross(m, s.modeAssets, s.supply);
            gross * (BPS - MarginalAt(s, n)) - 9_999 * (BracketsCrossed(s, m, n) + 1)
            <= BPS * (Payout(s, n).amount - Payout(s, m).amount)
            <= gross * (BPS - MarginalAt(s, m)) + 9_999
  {
    hide WithdrawalFee, Gross, NetRate, MarginalFeeBps, BracketAfter, RefreshedTotalAssets, LiquidBefore;
    GrossMonotone(s, m, n);
    ServedIsPriced(s, m);
    ServedIsPriced(s, n);
    NetSlope(s.tiers, RefreshedTotalAssets(s), LiquidBefore(s),
             Gross(m, s.modeAssets, s.supply), Gross(n, s.modeAssets, s.supply));
  }

  lemma GrossClimb(s: Venue, m: nat, n: nat)
    requires s.supply > 0 && m <= n
    ensures (n - m) * s.modeAssets - s.supply
          < s.supply * (Gross(n, s.modeAssets, s.supply) - Gross(m, s.modeAssets, s.supply))
          < (n - m) * s.modeAssets + s.supply
  {
    MulDivBounds(m, s.modeAssets, s.supply);
    MulDivBounds(n, s.modeAssets, s.supply);
    assert (n - m) * s.modeAssets == n * s.modeAssets - m * s.modeAssets;
  }

  /** Between two valid sizes the price falls, the realized rate exceeds the first price by
      less than two atoms, and falls short of the second by less than two atoms plus one for
      every bracket crossed. */
  lemma WithdrawMeanValue(s: Venue, m: u64, n: u64)
    requires Progressive(s.tiers) && m < n
    requires Valid(QuoteWithdraw(s, m)) && Valid(QuoteWithdraw(s, n))
    ensures s.supply > 0 && BracketsCrossed(s, m, n) >= 0
    ensures QuoteWithdraw(s, n).quote.price.AtMost(QuoteWithdraw(s, m).quote.price)
    ensures QuoteWithdraw(s, m).quote.price.den == QuoteWithdraw(s, n).quote.price.den == s.supply * BPS
    ensures s.supply * BPS * (QuoteWithdraw(s, n).quote.output - QuoteWithdraw(s, m).quote.output)
          < (n - m) * QuoteWithdraw(s, m).quote.price.num + 2 * (s.supply * BPS)
    ensures (n - m) * QuoteWithdraw(s, n).quote.price.num
          < s.supply * BPS * (QuoteWithdraw(s, n).quote.output - QuoteWithdraw(s, m).quote.output
                              + BracketsCrossed(s, m, n) + 2)
  {
    hide QuoteWithdraw, Gross, MaxShares, AllModeAssetsFresh, Payout, WithdrawPrice, MarginalAt, BracketsCrossed;
    ValidWithdrawShape(s, m);
    ValidWithdrawShape(s, n);
    ServedIsPriced(s, n);
    ClampIsSound(s, n);
    PayoutSlope(s, m, n);
    NetRateOrder(s.modeAssets, s.supply, MarginalAt(s, m), MarginalAt(s, n));
    GrossClimb(s, m, n);
    var gross := Gross(n, s.modeAssets, s.supply) - Gross(m, s.modeAssets, s.supply);
    var output := Payout(s, n).amount - Payout(s, m).amount;
    ChordAbove(s.modeAssets, s.supply, n - m, gross, BPS - MarginalAt(s, m), output);
    ChordBelow(s.modeAssets, s.supply, n - m, gross, BPS - MarginalAt(s, n), output, BracketsCrossed(s, m, n));
  }

  // ------------------------------------------------------------------------------------
  // Exactly when the mean value requirement holds
  // ------------------------------------------------------------------------------------

  /** What rounding the gross value down takes from n shares, in parts of an atom's supply-th. */
  function GrossRemainder(s: Venue, n: u64): nat
    requires s.supply > 0
  {
    n * s.modeAssets % s.supply
  }

  /** The fee on n shares before rounding, and what rounding adds, in 1/10000 of an atom. */
  function ExactFeeAt(s: Venue, n: u64): nat
    requires s.supply > 0
  {
    ExactFee(s.tiers, RefreshedTotalAssets(s), LiquidBefore(s), Gross(n, s.modeAssets, s.supply))
  }

  function FeeRoundingsAt(s: Venue, n: u64): nat
    requires s.supply > 0
  {
    FeeRoundings(s.tiers, RefreshedTotalAssets(s), LiquidBefore(s), Gross(n, s.modeAssets, s.supply))
  }

  /** All that rounding takes from n shares at a marginal fee, in units of the price's
      denominator. */
  function Lost(s: Venue, n: u64, feeBps: nat): nat
    requires s.supply > 0 && feeBps <= BPS
  {
    (BPS - feeBps) * GrossRemainder(s, n) + s.supply * FeeRoundingsAt(s, n)
  }

  /** How much more than a marginal fee the exact fee charges from m to n shares, in the same
      units: what changing brackets adds. */
  function Bend(s: Venue, m: u64, n: u64, feeBps: nat): int
    requires s.supply > 0
  {
    s.supply * (ExactFeeAt(s, n) - ExactFeeAt(s, m)
                - (Gross(n, s.modeAssets, s.supply) - Gross(m, s.modeAssets, s.supply)) * feeBps)
  }

  /** The gap between price and realized rate, from the climbs in shares, gross value, gross
      remainder, exact fee, roundings and output. */
  lemma ChordGap(modeAssets: nat, supply: nat, fee: nat, shares: int, gross: int, remainder: int,
                 exact: int, rounding: int, output: int)
    requires fee <= BPS
    requires supply * gross == shares * modeAssets - remainder
    requires BPS * output == BPS * gross - exact - rounding
    ensures shares * (modeAssets * (BPS - fee)) - output * (supply * BPS)
         == (BPS - fee) * remainder + supply * rounding + supply * (exact - gross * fee)
  {
    var keep := BPS - fee;
    calc {
      shares * (modeAssets * keep);
      { assert shares * (modeAssets * keep) == (shares * modeAssets) * keep; }
      (supply * gross + remainder) * keep;
      { Distribute(supply * gross, remainder, keep); }
      supply * gross * keep + remainder * keep;
      { assert supply * gross * keep == supply * (gross * keep); DistributeMinus(BPS, fee, gross); }
      supply * (BPS * gross - gross * fee) + keep * remainder;
    }
    assert output * (supply * BPS) == supply * (BPS * output);
    var a, b := BPS * gross - gross * fee, BPS * gross - exact - rounding;
    DistributeMinus(a, b, supply);
    Distribute(exact - gross * fee, rounding, supply);
    assert a - b == exact - gross * fee + rounding;
  }

  lemma GrossIsExact(s: Venue, n: u64)
    requires s.supply > 0
    ensures s.supply * Gross(n, s.modeAssets, s.supply) == n * s.modeAssets - GrossRemainder(s, n)
  {
  }

  /** A valid withdrawal in exact terms. */
  lemma ValidWithdrawExactly(s: Venue, n: u64)
    requires Progressive(s.tiers) && Valid(QuoteWithdraw(s, n))
    ensures s.supply > 0 && MarginalAt(s, n) < BPS
    ensures QuoteWithdraw(s, n).quote.amount == n
    ensures QuoteWithdraw(s, n).quote.price == NetRate(s.modeAssets, s.supply, MarginalAt(s, n))
    ensures s.supply * Gross(n, s.modeAssets, s.supply) == n * s.modeAssets - GrossRemainder(s, n)
    ensures BPS * QuoteWithdraw(s, n).quote.output
         == BPS * Gross(n, s.modeAssets, s.supply) - ExactFeeAt(s, n) - FeeRoundingsAt(s, n)
    ensures 0 < Gross(n, s.modeAssets, s.supply) < RefreshedTotalAssets(s)
    ensures Served(s.tiers, RefreshedTotalAssets(s), LiquidBefore(s), Gross(n, s.modeAssets, s.supply))
    ensures MarginalFeeBps(s.tiers, RefreshedTotalAssets(s), LiquidBefore(s), Gross(n, s.modeAssets, s.supply))
         == Some(MarginalAt(s, n))
  {
    hide QuoteWithdraw, MaxShares, AllModeAssetsFresh, WithdrawalFee, ExactFee, FeeRoundings, RefreshedTotalAssets,
         LiquidBefore, MarginalFeeBps, Gross, GrossRemainder, NetRate;
    ValidWithdrawShape(s, n);
    GrossIsExact(s, n);
    ServedIsPriced(s, n);
    ClampIsSound(s, n);
    var w := Gross(n, s.modeAssets, s.supply);
    FeeIsScheduled(s.tiers, RefreshedTotalAssets(s), LiquidBefore(s), w);
    FeeIsExactAndRoundings(s.tiers, RefreshedTotalAssets(s), LiquidBefore(s), w);
  }

  lemma LostDiffers(s: Venue, m: u64, n: u64, fee: nat)
    requires s.supply > 0 && fee <= BPS
    ensures Lost(s, n, fee) - Lost(s, m, fee)
         == (BPS - fee) * (GrossRemainder(s, n) - GrossRemainder(s, m))
            + s.supply * (FeeRoundingsAt(s, n) - FeeRoundingsAt(s, m))
  {
    DistributeMinus(GrossRemainder(s, n), GrossRemainder(s, m), BPS - fee);
    DistributeMinus(FeeRoundingsAt(s, n), FeeRoundingsAt(s, m), s.supply);
  }

  /** The exact fee climbs between the marginal fees of two valid sizes. */
  lemma WithdrawSlope(s: Venue, m: u64, n: u64)
    requires Progressive(s.tiers) && m < n
    requires Valid(QuoteWithdraw(s, m)) && Valid(QuoteWithdraw(s, n))
    ensures s.supply > 0 && MarginalAt(s, m) <= MarginalAt(s, n) < BPS
    ensures (Gross(n, s.modeAssets, s.supply) - Gross(m, s.modeAssets, s.supply)) * MarginalAt(s, m)
         <= ExactFeeAt(s, n) - ExactFeeAt(s, m)
         <= (Gross(n, s.modeAssets, s.supply) - Gross(m, s.modeAssets, s.supply)) * MarginalAt(s, n)
  {
    hide QuoteWithdraw, Gross, Served, ExactFee, MarginalAt, RefreshedTotalAssets, LiquidBefore, MarginalFeeBps;
    ValidWithdrawExactly(s, m);
    ValidWithdrawExactly(s, n);
    GrossMonotone(s, m, n);
    ExactFeeSlope(s.tiers, RefreshedTotalAssets(s), LiquidBefore(s),
                  Gross(m, s.modeAssets, s.supply), Gross(n, s.modeAssets, s.supply));
  }

  lemma BendSigns(supply: nat, gross: int, exact: int, fee1: nat, fee2: nat)
    requires gross * fee1 <= exact <= gross * fee2
    ensures supply * (exact - gross * fee2) <= 0 <= supply * (exact - gross * fee1)
  {
    Scale(supply, exact - gross * fee2, 0);
    Scale(supply, 0, exact - gross * fee1);
  }

  lemma WithdrawBend(s: Venue, m: u64, n: u64)
    requires Progressive(s.tiers) && m < n
    requires Valid(QuoteWithdraw(s, m)) && Valid(QuoteWithdraw(s, n))
    ensures s.supply > 0 && MarginalAt(s, m) <= MarginalAt(s, n) < BPS
    ensures Bend(s, m, n, MarginalAt(s, n)) <= 0 <= Bend(s, m, n, MarginalAt(s, m))
  {
    hide QuoteWithdraw, Gross, ExactFeeAt, MarginalAt, Valid, Progressive;
    WithdrawSlope(s, m, n);
    BendSigns(s.supply, Gross(n, s.modeAssets, s.supply) - Gross(m, s.modeAssets, s.supply),
              ExactFeeAt(s, n) - ExactFeeAt(s, m), MarginalAt(s, m), MarginalAt(s, n));
  }

  /** Exactly when two valid quotes meet the documented requirement, across any number of
      brackets: below, the roundings lost at the larger size and the bend of the fee make up
      for those lost at the smaller; above, the other way round.  The bend only helps. */
  lemma WithdrawMeanValueIff(s: Venue, m: u64, n: u64)
    requires Progressive(s.tiers) && m < n
    requires Valid(QuoteWithdraw(s, m)) && Valid(QuoteWithdraw(s, n))
    ensures s.supply > 0 && MarginalAt(s, m) <= MarginalAt(s, n) < BPS
    ensures Bend(s, m, n, MarginalAt(s, n)) <= 0 <= Bend(s, m, n, MarginalAt(s, m))
    ensures ChordAtMostFirst(QuoteWithdraw(s, m).quote, QuoteWithdraw(s, n).quote) <==>
            Lost(s, m, MarginalAt(s, m)) <= Lost(s, n, MarginalAt(s, m)) + Bend(s, m, n, MarginalAt(s, m))
    ensures ChordAtLeastLast(QuoteWithdraw(s, m).quote, QuoteWithdraw(s, n).quote) <==>
            Lost(s, n, MarginalAt(s, n)) + Bend(s, m, n, MarginalAt(s, n)) <= Lost(s, m, MarginalAt(s, n))
  {
    hide QuoteWithdraw, Gross, GrossRemainder, ExactFeeAt, FeeRoundingsAt, MarginalAt, Served, MarginalFeeBps,
         RefreshedTotalAssets, LiquidBefore;
    ValidWithdrawExactly(s, m);
    ValidWithdrawExactly(s, n);
    WithdrawBend(s, m, n);
    var a, b := QuoteWithdraw(s, m).quote, QuoteWithdraw(s, n).quote;
    var gross := Gross(n, s.modeAssets, s.supply) - Gross(m, s.modeAssets, s.supply);
    var remainder := GrossRemainder(s, n) - GrossRemainder(s, m);
    var exact := ExactFeeAt(s, n) - ExactFeeAt(s, m);
    var rounding := FeeRoundingsAt(s, n) - FeeRoundingsAt(s, m);
    DistributeMinus(n, m, s.modeAssets);
    DistributeMinus(Gross(n, s.modeAssets, s.supply), Gross(m, s.modeAssets, s.supply), s.supply);
    ChordGap(s.modeAssets, s.supply, MarginalAt(s, m), n - m, gross, remainder, exact, rounding, b.output - a.output);
    ChordGap(s.modeAssets, s.supply, MarginalAt(s, n), n - m, gross, remainder, exact, rounding, b.output - a.output);
    LostDiffers(s, m, n, MarginalAt(s, m));
    LostDiffers(s, m, n, MarginalAt(s, n));
  }

  /** What rounding adds to the charge on the slice of the bracket that n shares end in. */
  function LastSliceRounding(s: Venue, n: u64): nat
    requires s.supply > 0 && BracketAt(s, n) < |s.tiers|
  {
    LastRounding(s.tiers, RefreshedTotalAssets(s), LiquidBefore(s), Gross(n, s.modeAssets, s.supply))
  }

  lemma SameBracket(s: Venue, m: u64, n: u64)
    requires Progressive(s.tiers) && m < n
    requires Valid(QuoteWithdraw(s, m)) && Valid(QuoteWithdraw(s, n))
    requires s.supply > 0 && BracketAt(s, m) == BracketAt(s, n)
    ensures BracketAt(s, m) < |s.tiers|
    ensures MarginalAt(s, m) == MarginalAt(s, n) == s.tiers[BracketAt(s, m)].feeBps < BPS
    ensures FeeRoundingsAt(s, n) - FeeRoundingsAt(s, m) == LastSliceRounding(s, n) - LastSliceRounding(s, m)
  {
    hide QuoteWithdraw, Gross, GrossRemainder, MarginalAt, RefreshedTotalAssets, LiquidBefore, Enter, Matches,
         ExactFee, FeeRoundings, LastRounding, Bracket, NetRate;
    ValidWithdrawExactly(s, m);
    ValidWithdrawExactly(s, n);
    GrossMonotone(s, m, n);
    OneBracket(s.tiers, RefreshedTotalAssets(s), LiquidBefore(s),
               Gross(m, s.modeAssets, s.supply), Gross(n, s.modeAssets, s.supply));
  }

  /** Within one bracket the fee does not bend, so the requirement holds exactly when both
      sizes lose the same to rounding; and only the gross remainder and the rounding of the
      bracket's own slice can differ. */
  lemma MeanValueWithinBracketIff(s: Venue, m: u64, n: u64)
    requires Progressive(s.tiers) && m < n
    requires Valid(QuoteWithdraw(s, m)) && Valid(QuoteWithdraw(s, n))
    requires s.supply > 0 && BracketsCrossed(s, m, n) == 0
    ensures BracketAt(s, m) < |s.tiers| && s.tiers[BracketAt(s, m)].feeBps < BPS
    ensures MeanValue(QuoteWithdraw(s, m).quote, QuoteWithdraw(s, n).quote) <==>
            (BPS - s.tiers[BracketAt(s, m)].feeBps) * GrossRemainder(s, m) + s.supply * LastSliceRounding(s, m)
            == (BPS - s.tiers[BracketAt(s, m)].feeBps) * GrossRemainder(s, n) + s.supply * LastSliceRounding(s, n)
  {
    hide QuoteWithdraw, Gross, GrossRemainder, ExactFeeAt, FeeRoundingsAt, LastSliceRounding, BracketAt, MarginalAt,
         ChordAtMostFirst, ChordAtLeastLast, Bend, Lost;
    WithdrawMeanValueIff(s, m, n);
    SameBracket(s, m, n);
    var f := MarginalAt(s, m);
    LostDiffers(s, m, n, f);
    DistributeMinus(GrossRemainder(s, n), GrossRemainder(s, m), BPS - f);
    DistributeMinus(LastSliceRounding(s, n), LastSliceRounding(s, m), s.supply);
  }

  /** A pool of 1000 atoms, all liquid, charging 0.5%. */
  const SAMPLE_TIERS: seq<Tier> := [Tier(10_000, 50)]

  const SAMPLE: Venue := State(0, 1, false, true, [ModeState(1000, 1)], 0, 1000, 1000, 0, 0, 1000, 1,
                               0, SAMPLE_TIERS, 0, 0, 0, Gating(0, 0), Gating(0, 0), 1000, 1000)

  lemma SampleFee(w: u64)
    requires 1 <= w <= 200
    ensures WithdrawalFee(SAMPLE_TIERS, 1000, 1000, w) == Fee(1)
    ensures MarginalFeeBps(SAMPLE_TIERS, 1000, 1000, w) == Some(50)
  {
    assert Bracket(SAMPLE_TIERS, 1000, 1000) == 0;
    assert BracketAfter(SAMPLE_TIERS, 1000, 1000, w) == 0;
    assert DivCeil(w * 50, BPS) == 1;
  }

  lemma SampleTotals()
    ensures RefreshedTotalAssets(SAMPLE) == 1000
    ensures LiquidBefore(SAMPLE) == 1000
    ensures AvailableBalance(SAMPLE) == 1000
    ensures MaxShares(SAMPLE) == 1000
  {
    assert SumOfAssets([ModeState(1000, 1)]) == 1000 + SumOfAssets([]);
  }

  lemma SampleQuote(n: u64)
    requires 2 <= n <= 200
    ensures QuoteWithdraw(SAMPLE, n) == Ok(Quote(n, n - 1, false, Rate(9_950_000, 10_000_000)))
  {
    hide WithdrawalFee, MarginalFeeBps, RefreshedTotalAssets, LiquidBefore, MaxShares;
    SampleTotals();
    SampleFee(n);
    assert Gross(n, 1000, 1000) == n;
    hide Gross;
    assert NetRate(1000, 1000, 50) == Rate(9_950_000, 10_000_000);
    assert Payout(SAMPLE, n) == Fee(n - 1);
    assert WithdrawPrice(SAMPLE, n) == Some(NetRate(1000, 1000, 50));
    hide Payout, WithdrawPrice;
  }

  /** An instance that fails: from 2 to 3 shares the output climbs by 1 while the price at 2 is
      0.995. */
  lemma ExactMeanValueFails()
    ensures Progressive(SAMPLE.tiers)
    ensures Valid(QuoteWithdraw(SAMPLE, 2)) && Valid(QuoteWithdraw(SAMPLE, 3))
    ensures !MeanValue(QuoteWithdraw(SAMPLE, 2).quote, QuoteWithdraw(SAMPLE, 3).quote)
  {
    SampleQuote(2);
    SampleQuote(3);
  }

  // ------------------------------------------------------------------------------------
  // Deposits
  // ------------------------------------------------------------------------------------

  /** A served deposit never takes the pool above its cap, even where the room was truncated
      to 64 bits, and never mints more than its proportional share. */
  lemma DepositStaysWithinCap(s: Venue, assets: u64)
    ensures QuoteDeposit(s, assets).Ok? && assets > 0 ==>
              var q := QuoteDeposit(s, assets).quote;
              && 0 < q.amount <= assets
              && (q.notEnoughLiquidity <==> q.amount < assets)
              && q.amount + RefreshedTotalAssets(s) <= s.liquidityCap
              && q.amount >= Min(s.minDeposit, AvailableCap(s))
              && q.output > 0
              && (s.supply > 0 ==> q.output * s.modeAssets <= q.amount * s.supply)
  {
    hide RefreshedTotalAssets;
    if QuoteDeposit(s, assets).Ok? && assets > 0 && s.supply > 0 {
      var q := QuoteDeposit(s, assets).quote;
      MulDivBounds(q.amount, s.supply, s.modeAssets);
      Scale(s.modeAssets, q.output, MulDiv(q.amount, s.supply, s.modeAssets));
    }
  }

  /** Shares minted, counting a refusal as none. */
  function Minted(assets: u64, modeAssets: u64, supply: u64): u64 {
    var r := SharesForDeposit(assets, modeAssets, supply);
    if r.Some? then r.value else 0
  }

  lemma MulDivStep(a: nat, b: nat, d: nat)
    requires d > 0
    ensures MulDiv(a + 1, b, d) <= MulDiv(a, b, d) + b
  {
    MulDivBounds(a, b, d);
    var q := MulDiv(a, b, d) + b + 1;
    MulDivAtLeast(a + 1, b, d, q);
    assert (a + 1) * b == a * b + b;
    assert d * q == d * MulDiv(a, b, d) + d * b + d;
    Scale(b, 1, d);
  }

  /** Where the 64-bit conversion wraps for some deposit up to `cap`, it wraps first at one
      that mints fewer shares than the deposit one atom smaller. */
  lemma {:induction false} WrapLowersOutput(modeAssets: u64, supply: u64, cap: u64) returns (a: u64)
    requires modeAssets > 0 && supply > 0
    requires MulDiv(cap, supply, modeAssets) >= TWO_64
    ensures 0 < a <= cap
    ensures Minted(a, modeAssets, supply) < Minted(a - 1, modeAssets, supply)
    decreases cap
  {
    hide MulDiv;
    if cap == 0 {
      MulDivOfZero(supply, modeAssets);
    } else if MulDiv(cap - 1, supply, modeAssets) >= TWO_64 {
      a := WrapLowersOutput(modeAssets, supply, cap - 1);
    } else {
      a := cap;
      MulDivStep(cap - 1, supply, modeAssets);
    }
  }

  /** Minted shares rise with the deposit, all the way up to `cap`, exactly when the largest
      deposit converts to 64 bits without wrapping. */
  lemma MintedMonotoneIffNoWrap(modeAssets: u64, supply: u64, cap: u64)
    requires modeAssets > 0 && supply > 0
    ensures (forall a: u64, b: u64 :: a <= b <= cap ==> Minted(a, modeAssets, supply) <= Minted(b, modeAssets, supply))
       <==> MulDiv(cap, supply, modeAssets) < TWO_64
  {
    hide MulDiv;
    if MulDiv(cap, supply, modeAssets) < TWO_64 {
      forall a: u64, b: u64 | a <= b <= cap
        ensures Minted(a, modeAssets, supply) <= Minted(b, modeAssets, supply)
      {
        MulDivMonotone(a, b, supply, modeAssets);
        MulDivMonotone(b, cap, supply, modeAssets);
      }
    } else {
      var a := WrapLowersOutput(modeAssets, supply, cap);
    }
  }

  /** A valid deposit quote serves the whole request at the constant price; a quote panics
      only where the sum over the modes overflows. */
  lemma ValidDepositShape(s: Venue, assets: u64)
    ensures QuoteDeposit(s, assets) == Panic <==> !SumFits(s) && assets > 0 && s.minDeposit <= assets
    ensures Valid(QuoteDeposit(s, assets)) <==>
              && 0 < assets <= AvailableCap(s) && s.minDeposit <= assets
              && SumFits(s) && Minted(assets, s.modeAssets, s.supply) > 0
    ensures Valid(QuoteDeposit(s, assets)) ==>
              && QuoteDeposit(s, assets).quote.output == Minted(assets, s.modeAssets, s.supply)
              && QuoteDeposit(s, assets).quote.price == DepositPrice(s)
  {
    hide AvailableCap, MulDiv, SumFits;
  }

  /** How often the minted shares wrap at 64 bits. */
  function Wraps(assets: nat, modeAssets: nat, supply: nat): nat
    requires modeAssets > 0
  {
    MulDiv(assets, supply, modeAssets) / TWO_64
  }

  /** Two numbers split by a divisor are equal exactly when both parts are. */
  lemma SameParts(d: nat, u: nat, v: nat, r: nat, t: nat)
    requires r < d && t < d
    ensures d * u + r == d * v + t <==> r == t && u == v
  {
    Scale(d, u, v);
    Scale(d, v, u);
  }

  lemma MintedIs(modeAssets: u64, supply: u64, x: u64)
    requires modeAssets > 0 && supply > 0
    ensures x * supply == modeAssets * Minted(x, modeAssets, supply)
                          + modeAssets * TWO_64 * Wraps(x, modeAssets, supply) + x * supply % modeAssets
    ensures 0 <= x * supply % modeAssets < modeAssets
  {
    var n, q := x * supply, MulDiv(x, supply, modeAssets);
    assert n == modeAssets * q + n % modeAssets;
    assert q == TWO_64 * (q / TWO_64) + q % TWO_64;
    Distribute(TWO_64 * (q / TWO_64), q % TWO_64, modeAssets);
    assert modeAssets * (TWO_64 * (q / TWO_64)) == modeAssets * TWO_64 * (q / TWO_64);
  }

  /** Minted shares climb at exactly the constant rate when and only when both deposits leave
      the same remainder and wrap equally often. */
  lemma MintedClimbsExactlyIff(modeAssets: u64, supply: u64, x: u64, y: u64)
    requires modeAssets > 0 && supply > 0 && x <= y
    ensures modeAssets * (Minted(y, modeAssets, supply) - Minted(x, modeAssets, supply)) == (y - x) * supply <==>
            && x * supply % modeAssets == y * supply % modeAssets
            && Wraps(x, modeAssets, supply) == Wraps(y, modeAssets, supply)
  {
    hide Minted, Wraps;
    MintedIs(modeAssets, supply, x);
    MintedIs(modeAssets, supply, y);
    DistributeMinus(y, x, supply);
    DistributeMinus(Minted(y, modeAssets, supply), Minted(x, modeAssets, supply), modeAssets);
    SameParts(modeAssets * TWO_64, Wraps(x, modeAssets, supply), Wraps(y, modeAssets, supply),
              x * supply % modeAssets, y * supply % modeAssets);
  }

  lemma OnePriceMeanValue(a: Quote, b: Quote)
    requires a.price == b.price
    ensures MeanValue(a, b) <==> a.price.den * (b.output - a.output) == (b.amount - a.amount) * a.price.num
  {
  }

  lemma ValidDepositExactly(s: Venue, x: u64)
    requires Valid(QuoteDeposit(s, x))
    ensures QuoteDeposit(s, x).quote == Quote(x, Minted(x, s.modeAssets, s.supply), false, DepositPrice(s))
    ensures s.supply > 0 ==> s.modeAssets > 0
    ensures s.supply == 0 ==> Minted(x, s.modeAssets, s.supply) == x
  {
    hide AvailableCap, SumFits, MulDiv;
  }

  /** Exactly when two valid deposit quotes, wrapping or not, meet the documented mean value
      requirement: always in an empty mode, and otherwise when both leave the same remainder
      and wrap equally often. */
  lemma DepositMeanValueIff(s: Venue, x: u64, y: u64)
    requires x < y && Valid(QuoteDeposit(s, x)) && Valid(QuoteDeposit(s, y))
    ensures s.supply > 0 ==> s.modeAssets > 0
    ensures MeanValue(QuoteDeposit(s, x).quote, QuoteDeposit(s, y).quote) <==>
            s.supply > 0 ==>
              && x * s.supply % s.modeAssets == y * s.supply % s.modeAssets
              && Wraps(x, s.modeAssets, s.supply) == Wraps(y, s.modeAssets, s.supply)
  {
    hide AvailableCap, MulDiv, SumFits, QuoteDeposit, Wraps, Minted, SharesForDeposit, MeanValue;
    ValidDepositExactly(s, x);
    ValidDepositExactly(s, y);
    OnePriceMeanValue(QuoteDeposit(s, x).quote, QuoteDeposit(s, y).quote);
    if s.supply > 0 {
      MintedClimbsExactlyIff(s.modeAssets, s.supply, x, y);
    }
  }

  // ------------------------------------------------------------------------------------
  // Deposits whose shares wrap
  // ------------------------------------------------------------------------------------

  /** The shares before they are cut to 64 bits. */
  function Shares(s: Venue, assets: nat): nat
    requires s.modeAssets > 0
  {
    MulDiv(assets, s.supply, s.modeAssets)
  }

  lemma MintedAndWraps(s: Venue, x: u64)
    requires s.modeAssets > 0 && s.supply > 0
    ensures Shares(s, x) == TWO_64 * Wraps(x, s.modeAssets, s.supply) + Minted(x, s.modeAssets, s.supply)
  {
  }

  /** Shares before the cut climb at the constant rate up to one atom. */
  lemma SharesSlope(s: Venue, x: u64, y: u64)
    requires s.modeAssets > 0 && x <= y
    ensures Shares(s, x) <= Shares(s, y)
    ensures (y - x) * s.supply - s.modeAssets < s.modeAssets * (Shares(s, y) - Shares(s, x))
          < (y - x) * s.supply + s.modeAssets
  {
    MulDivMonotone(x, y, s.supply, s.modeAssets);
    MulDivBounds(x, s.supply, s.modeAssets);
    MulDivBounds(y, s.supply, s.modeAssets);
    hide MulDiv;
    DistributeMinus(y, x, s.supply);
    DistributeMinus(Shares(s, y), Shares(s, x), s.modeAssets);
  }

  /** Shares that wrap at all come at more than one an atom and fewer than 2^64. */
  lemma SharesStep(s: Venue, y: u64, a: u64)
    requires s.modeAssets > 0 && Shares(s, y) >= TWO_64
    ensures Shares(s, a) < Shares(s, a + 1) < Shares(s, a) + TWO_64
  {
    hide MulDiv;
    if s.supply <= s.modeAssets {
      MulDivAtMost(y, s.supply, s.modeAssets);
    }
    MulDivStep(a, s.supply, s.modeAssets);
    MulDivBounds(a, s.supply, s.modeAssets);
    MulDivAtLeast(a + 1, s.supply, s.modeAssets, Shares(s, a) + 1);
    Distribute(a, 1, s.supply);
    Distribute(Shares(s, a), 1, s.modeAssets);
  }

  /** A size strictly within the limits on deposits whose shares wrap to none. */
  predicate WrapsToZero(s: Venue, y: u64) {
    && SumFits(s) && s.supply > 0 && s.modeAssets > 0
    && 1 < y < AvailableCap(s) && s.minDeposit < y
    && Shares(s, y) >= TWO_64 && Shares(s, y) % TWO_64 == 0
  }

  ghost predicate GapFree(s: Venue) {
    forall y: u64 :: !WrapsToZero(s, y)
  }

  /** Between a multiple of 2^64 and the next there is none. */
  lemma NoMultipleNear(q: nat, r: nat)
    requires q % TWO_64 == 0
    ensures q < r < q + TWO_64 ==> r % TWO_64 > 0 && r / TWO_64 == q / TWO_64
    ensures q - TWO_64 < r < q ==> r % TWO_64 > 0 && r / TWO_64 + 1 == q / TWO_64
  {
  }

  /** Such a size is refused, and both its neighbours quote. */
  lemma NeighboursQuote(s: Venue, y: u64)
    requires WrapsToZero(s, y)
    ensures !Valid(QuoteDeposit(s, y)) && Valid(QuoteDeposit(s, y - 1)) && Valid(QuoteDeposit(s, y + 1))
    ensures Wraps(y - 1, s.modeAssets, s.supply) + 1 == Wraps(y, s.modeAssets, s.supply)
         == Wraps(y + 1, s.modeAssets, s.supply)
  {
    hide AvailableCap, QuoteDeposit, SumFits, MulDiv;
    ValidDepositShape(s, y - 1);
    ValidDepositShape(s, y);
    ValidDepositShape(s, y + 1);
    SharesStep(s, y, y - 1);
    SharesStep(s, y, y);
    NoMultipleNear(Shares(s, y), Shares(s, y - 1));
    NoMultipleNear(Shares(s, y), Shares(s, y + 1));
  }

  /** A refused size between two that quote wraps to none. */
  lemma RefusedBetween(s: Venue, x: u64, y: u64, z: u64)
    requires x <= y <= z && Valid(QuoteDeposit(s, x)) && Valid(QuoteDeposit(s, z))
    requires !Valid(QuoteDeposit(s, y))
    ensures x < y < z && WrapsToZero(s, y)
  {
    hide AvailableCap, QuoteDeposit, SumFits, MulDiv;
    ValidDepositShape(s, x);
    ValidDepositShape(s, y);
    ValidDepositShape(s, z);
    ValidDepositExactly(s, x);
    if s.supply > 0 {
      MulDivMonotone(x, y, s.supply, s.modeAssets);
    }
  }

  lemma NeighboursOf(s: Venue, y: u64)
    requires WrapsToZero(s, y)
    ensures !Valid(QuoteDeposit(s, y)) && exists x: u64, z: u64 ::
              x <= y <= z && Valid(QuoteDeposit(s, x)) && Valid(QuoteDeposit(s, z))
  {
    hide AvailableCap, SumFits, MulDiv, QuoteDeposit;
    NeighboursQuote(s, y);
    var x: u64, z: u64 := y - 1, y + 1;
    assert x <= y <= z;
  }

  /** The sizes that quote validly have no gap exactly when no size strictly within the limits
      has shares that wrap to none. */
  lemma DepositsAreContiguousIff(s: Venue)
    ensures (forall x: u64, y: u64, z: u64 ::
               x <= y <= z && Valid(QuoteDeposit(s, x)) && Valid(QuoteDeposit(s, z)) ==> Valid(QuoteDeposit(s, y)))
       <==> GapFree(s)
  {
    hide QuoteDeposit, WrapsToZero;
    forall y: u64 | WrapsToZero(s, y)
      ensures !Valid(QuoteDeposit(s, y)) && exists x: u64, z: u64 ::
                x <= y <= z && Valid(QuoteDeposit(s, x)) && Valid(QuoteDeposit(s, z))
    {
      NeighboursOf(s, y);
    }
    forall x: u64, y: u64, z: u64 | x <= y <= z && Valid(QuoteDeposit(s, x)) && Valid(QuoteDeposit(s, z))
                                    && !Valid(QuoteDeposit(s, y))
      ensures WrapsToZero(s, y)
    {
      RefusedBetween(s, x, y, z);
    }
  }

  /** Without such a size the valid deposits form an interval at a constant price, which is the
      realized rate up to one atom once wraps are counted back. */
  lemma ValidDepositsAreContiguous(s: Venue, x: u64, y: u64, z: u64)
    requires x <= y <= z && GapFree(s)
    requires Valid(QuoteDeposit(s, x)) && Valid(QuoteDeposit(s, z))
    ensures Valid(QuoteDeposit(s, y))
    ensures QuoteDeposit(s, x).quote.price == QuoteDeposit(s, y).quote.price == DepositPrice(s)
    ensures s.supply > 0 ==> s.modeAssets > 0
    ensures (s.supply > 0 ==> Wraps(x, s.modeAssets, s.supply) == Wraps(y, s.modeAssets, s.supply)) ==>
              QuoteDeposit(s, x).quote.output <= QuoteDeposit(s, y).quote.output
    ensures s.supply > 0 ==>
              (y - x) * s.supply - s.modeAssets
              < s.modeAssets * (QuoteDeposit(s, y).quote.output - QuoteDeposit(s, x).quote.output
                                + TWO_64 * (Wraps(y, s.modeAssets, s.supply) - Wraps(x, s.modeAssets, s.supply)))
              < (y - x) * s.supply + s.modeAssets
  {
    hide AvailableCap, QuoteDeposit, SumFits, MulDiv, WrapsToZero, Minted, Wraps, Shares, DepositPrice;
    if !Valid(QuoteDeposit(s, y)) {
      RefusedBetween(s, x, y, z);
    }
    ValidDepositExactly(s, x);
    ValidDepositExactly(s, y);
    if s.supply > 0 {
      MintedAndWraps(s, x);
      MintedAndWraps(s, y);
      SharesSlope(s, x, y);
      hide TWO_64;
    }
  }

  /** Exactly when the output does not fall between two valid deposits. */
  lemma DepositOutputsOrderedIff(s: Venue, x: u64, y: u64)
    requires x <= y && Valid(QuoteDeposit(s, x)) && Valid(QuoteDeposit(s, y))
    ensures s.supply > 0 ==> s.modeAssets > 0
    ensures QuoteDeposit(s, x).quote.output <= QuoteDeposit(s, y).quote.output <==>
            s.supply > 0 ==>
              TWO_64 * (Wraps(y, s.modeAssets, s.supply) - Wraps(x, s.modeAssets, s.supply))
              <= Shares(s, y) - Shares(s, x)
  {
    hide AvailableCap, QuoteDeposit, SumFits, Minted, Wraps, Shares;
    ValidDepositExactly(s, x);
    ValidDepositExactly(s, y);
    if s.supply > 0 {
      MintedAndWraps(s, x);
      MintedAndWraps(s, y);
    }
  }

  /** From x to the next valid size the shares wrap, and so the output falls. */
  predicate FallsAfter(s: Venue, x: u64) {
    && s.supply > 0 && s.modeAssets > 0 && x < U64_MAX
    && Valid(QuoteDeposit(s, x))
    && (|| (Valid(QuoteDeposit(s, x + 1))
            && Wraps(x, s.modeAssets, s.supply) < Wraps(x + 1, s.modeAssets, s.supply))
        || (WrapsToZero(s, x + 1) && Shares(s, x + 2) < Shares(s, x) + TWO_64))
  }

  lemma WrapsGrow(s: Venue, x: u64, y: u64)
    requires s.modeAssets > 0 && x <= y
    ensures Shares(s, x) <= Shares(s, y)
    ensures Wraps(x, s.modeAssets, s.supply) <= Wraps(y, s.modeAssets, s.supply)
    ensures Wraps(x, s.modeAssets, s.supply) < Wraps(y, s.modeAssets, s.supply) ==> Shares(s, y) >= TWO_64
  {
    hide MulDiv;
    MulDivMonotone(x, y, s.supply, s.modeAssets);
  }

  lemma FallIsSeen(s: Venue, x: u64) returns (y: u64)
    requires FallsAfter(s, x)
    ensures x < y && Valid(QuoteDeposit(s, x)) && Valid(QuoteDeposit(s, y))
    ensures QuoteDeposit(s, y).quote.output < QuoteDeposit(s, x).quote.output
  {
    hide AvailableCap, QuoteDeposit, SumFits, Minted, Wraps, Shares;
    if Valid(QuoteDeposit(s, x + 1)) && Wraps(x, s.modeAssets, s.supply) < Wraps(x + 1, s.modeAssets, s.supply) {
      y := x + 1;
      WrapsGrow(s, x, x + 1);
      SharesStep(s, x + 1, x);
    } else {
      y := x + 2;
      NeighboursQuote(s, x + 1);
    }
    DepositOutputsOrderedIff(s, x, y);
  }

  lemma {:induction false} NoFallNoDrop(s: Venue, x: u64, y: u64)
    requires forall z: u64 :: !FallsAfter(s, z)
    requires x <= y && Valid(QuoteDeposit(s, x)) && Valid(QuoteDeposit(s, y))
    ensures QuoteDeposit(s, x).quote.output <= QuoteDeposit(s, y).quote.output
    decreases y
  {
    hide AvailableCap, QuoteDeposit, SumFits, Minted, Wraps, Shares, WrapsToZero;
    DepositOutputsOrderedIff(s, x, y);
    if x < y && s.supply > 0 {
      if Valid(QuoteDeposit(s, y - 1)) {
        NoFallNoDrop(s, x, y - 1);
        assert !FallsAfter(s, y - 1);
        WrapsGrow(s, y - 1, y);
        DepositOutputsOrderedIff(s, y - 1, y);
      } else {
        RefusedBetween(s, x, y - 1, y);
        NeighboursQuote(s, y - 1);
        NoFallNoDrop(s, x, y - 2);
        assert !FallsAfter(s, y - 2);
        DepositOutputsOrderedIff(s, y - 2, y);
      }
    }
  }

  /** The output of valid deposits never falls exactly when it does not fall from one valid size
      to the next. */
  lemma DepositOutputsMonotoneIff(s: Venue)
    ensures (forall x: u64, y: u64 :: x <= y && Valid(QuoteDeposit(s, x)) && Valid(QuoteDeposit(s, y)) ==>
               QuoteDeposit(s, x).quote.output <= QuoteDeposit(s, y).quote.output)
       <==> forall x: u64 :: !FallsAfter(s, x)
  {
    hide QuoteDeposit, FallsAfter;
    if x: u64 :| FallsAfter(s, x) {
      var y := FallIsSeen(s, x);
    } else {
      forall x: u64, y: u64 | x <= y && Valid(QuoteDeposit(s, x)) && Valid(QuoteDeposit(s, y))
        ensures QuoteDeposit(s, x).quote.output <= QuoteDeposit(s, y).quote.output
      {
        NoFallNoDrop(s, x, y);
      }
    }
  }

  /** A pool of one atom backing the given shares, with room for 99 more. */
  function OneAtomPool(shares: u64): Venue {
    State(0, 1, false, true, [ModeState(1, 1)], 0, 1, shares, 0, 0, 1, 1,
          0, [], 0, 100, 0, Gating(0, 0), Gating(0, 0), 0, 0)
  }

  lemma OneAtomCap(shares: u64)
    ensures SumFits(OneAtomPool(shares)) && AvailableCap(OneAtomPool(shares)) == 99
  {
    assert SumOfAssets([ModeState(1, 1)]) == 1 + SumOfAssets([]);
  }

  lemma OneAtomDeposits(shares: u64, x: u64)
    requires 0 < x <= 99 && x * shares % TWO_64 > 0
    ensures QuoteDeposit(OneAtomPool(shares), x).Ok?
    ensures QuoteDeposit(OneAtomPool(shares), x).quote.output == x * shares % TWO_64
    ensures Valid(QuoteDeposit(OneAtomPool(shares), x))
  {
    OneAtomCap(shares);
    hide AvailableCap, SumFits;
    assert MulDiv(x, shares, 1) == x * shares;
  }

  lemma MultipleAndRest(h: nat, r: u64)
    ensures (TWO_64 * h + r) % TWO_64 == r
  {
  }

  lemma HalfMultiples(x: nat)
    ensures Low64(MulDiv(x, 0x8000_0000_0000_0000, 1)) in {0, 0x8000_0000_0000_0000}
  {
    var h, r := x / 2, if x % 2 == 0 then 0 else 0x8000_0000_0000_0000;
    assert x * 0x8000_0000_0000_0000 == TWO_64 * h + r;
    MultipleAndRest(h, r);
  }

  /** With 2^63 shares on one atom, deposits of 1 and 3 quote and 2 wraps to none; yet all valid
      deposits output the same, so wrapping alone does not make the output fall. */
  lemma WrappingBreaksContiguity()
    ensures WrapsToZero(OneAtomPool(0x8000_0000_0000_0000), 2)
    ensures Valid(QuoteDeposit(OneAtomPool(0x8000_0000_0000_0000), 1))
    ensures !Valid(QuoteDeposit(OneAtomPool(0x8000_0000_0000_0000), 2))
    ensures Valid(QuoteDeposit(OneAtomPool(0x8000_0000_0000_0000), 3))
    ensures forall x: u64 :: Valid(QuoteDeposit(OneAtomPool(0x8000_0000_0000_0000), x)) ==>
              QuoteDeposit(OneAtomPool(0x8000_0000_0000_0000), x).quote.output == 0x8000_0000_0000_0000
  {
    var s := OneAtomPool(0x8000_0000_0000_0000);
    OneAtomCap(0x8000_0000_0000_0000);
    hide AvailableCap, SumFits;
    assert Shares(s, 2) == TWO_64;
    NeighboursQuote(s, 2);
    forall x: u64 | Valid(QuoteDeposit(s, x))
      ensures QuoteDeposit(s, x).quote.output == 0x8000_0000_0000_0000
    {
      ValidDepositExactly(s, x);
      HalfMultiples(x);
    }
  }

  /** With 3 * 2^62 shares on one atom, depositing 2 outputs less than depositing 1. */
  lemma WrappingLowersOutput()
    ensures Valid(QuoteDeposit(OneAtomPool(0xC000_0000_0000_0000), 1))
    ensures Valid(QuoteDeposit(OneAtomPool(0xC000_0000_0000_0000), 2))
    ensures QuoteDeposit(OneAtomPool(0xC000_0000_0000_0000), 2).quote.output
          < QuoteDeposit(OneAtomPool(0xC000_0000_0000_0000), 1).quote.output
  {
    OneAtomDeposits(0xC000_0000_0000_0000, 1);
    OneAtomDeposits(0xC000_0000_0000_0000, 2);
  }
}
