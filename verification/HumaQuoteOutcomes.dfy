/** What the Huma venue answers, request by request, in terms of the pool's own fields. */
module HumaQuoteOutcomes {
  import opened Numbers
  import opened Quoting
  import opened HumaFee
  import opened HumaFeeLaws
  import opened HumaQuote
  import opened HumaQuoteLaws

  // ------------------------------------------------------------------------------------
  // The pool's fields
  // ------------------------------------------------------------------------------------

  /** What the pool's balance leaves above its two reserves. */
  function Above(s: Venue): nat {
    var reserves := s.disbursementReserve % TWO_64 + s.reserveLimit;
    if s.underlyingBalance > reserves then s.underlyingBalance - reserves else 0
  }

  /** The liquid assets are those deployed and those above the reserves, but no more than the
      pool's total, nor than 64 bits hold. */
  lemma LiquidIsDeployedAndAvailable(s: Venue)
    ensures AvailableBalance(s) == Above(s)
    ensures LiquidBefore(s) <= RefreshedTotalAssets(s)
    ensures s.liquidDeployed + Above(s) <= RefreshedTotalAssets(s) ==>
              LiquidBefore(s) == s.liquidDeployed + Above(s)
    ensures s.liquidDeployed + Above(s) > RefreshedTotalAssets(s) ==>
              LiquidBefore(s) == RefreshedTotalAssets(s)
  {
    hide RefreshedTotalAssets;
  }

  /** The refreshed total is the 64-bit sum over the modes and what the quoted mode has gained
      over its own 64-bit record, held at 2^64 - 1. */
  lemma TotalIsSumAndGain(s: Venue)
    ensures var sum := SumOfAssets(s.modes) % TWO_64;
            var recorded := s.modes[s.modeIndex].assets % TWO_64;
            var gain := if s.modeAssets > recorded then s.modeAssets - recorded else 0;
            && (sum + gain <= U64_MAX ==> RefreshedTotalAssets(s) == sum + gain)
            && (sum + gain > U64_MAX ==> RefreshedTotalAssets(s) == U64_MAX)
  {
  }

  /** Some mode was last refreshed more than five days ago. */
  ghost predicate SomeModeStale(s: Venue) {
    exists i :: 0 <= i < |s.modes| && s.now > s.modes[i].refreshedAt + 432_000
  }

  lemma FreshIffNoneStale(s: Venue)
    ensures AllModeAssetsFresh(s) <==> !SomeModeStale(s)
  {
    forall m | m in s.modes && SatSub(s.now, m.refreshedAt) > MAX_ASSETS_STALENESS_SECS
      ensures SomeModeStale(s)
    {
      var i :| 0 <= i < |s.modes| && s.modes[i] == m;
      assert s.now > s.modes[i].refreshedAt + 432_000;
    }
    forall i | 0 <= i < |s.modes| && s.now > s.modes[i].refreshedAt + 432_000
      ensures !AllModeAssetsFresh(s)
    {
      assert s.modes[i] in s.modes;
    }
  }

  /** The day's use and the request exceed a budget; one of 2^64 - 1 never is. */
  predicate GateShut(g: Gating, shares: u64, now: u64, budget: u128) {
    var used := if now - now % 86_400 > g.windowStartsAt then 0 else g.requested % TWO_64;
    budget % TWO_64 < U64_MAX && used + shares > budget % TWO_64
  }

  predicate SomeGateShut(s: Venue, shares: u64) {
    GateShut(s.instantGating, shares, s.now, s.maxInstant) || GateShut(s.globalGating, shares, s.now, s.maxTotal)
  }

  lemma GateShutIff(g: Gating, shares: u64, now: u64, budget: u128)
    ensures g.WouldExceed(shares, now, Low64(budget)) <==> GateShut(g, shares, now, budget)
  {
    GateComparesUseWithBudget(g, shares, now, Low64(budget));
    assert now / SECONDS_PER_DAY * SECONDS_PER_DAY == now - now % 86_400;
  }

  // ------------------------------------------------------------------------------------
  // Withdrawals
  // ------------------------------------------------------------------------------------

  /** So many shares can be paid out: they exist, and the mode's assets they stand for are
      covered by what the pool holds above its reserves and what its strategy can pay. */
  predicate Payable(s: Venue, shares: nat) {
    shares == 0
    || (s.modeAssets > 0 && shares <= s.supply
        && shares * s.modeAssets <= s.supply * (Above(s) + s.strategyLiquidity))
  }

  lemma SmallerServable(supply: nat, shares: nat, modeAssets: u64, funds: nat, servable: nat)
    requires modeAssets > 0
    requires servable == if funds <= modeAssets then funds else modeAssets
    ensures servable * supply >= modeAssets * shares <==>
            shares == 0 || (shares <= supply && shares * modeAssets <= supply * funds)
  {
    Scale(modeAssets, supply, shares);
    Scale(modeAssets, shares, supply);
    Scale(supply, servable, funds);
    Scale(supply, funds, modeAssets);
    if shares > supply {
      Scale(supply, servable, modeAssets);
    }
  }

  /** The clamp is the largest number of shares that can be paid out. */
  lemma ClampIsLargest(s: Venue, shares: nat)
    ensures shares <= MaxShares(s) <==> Payable(s, shares)
  {
    hide MulDiv;
    LiquidIsDeployedAndAvailable(s);
    hide AvailableBalance, Above;
    if s.modeAssets > 0 {
      var servable := Servable(s);
      MulDivCommutes(servable, s.supply, s.modeAssets);
      MulDivAtMost(s.supply, servable, s.modeAssets);
      MulDivAtLeast(servable, s.supply, s.modeAssets, shares);
      SmallerServable(s.supply, shares, s.modeAssets, Above(s) + s.strategyLiquidity, servable);
    }
  }

  /** What shares are worth before the fee, rounded down. */
  function Value(s: Venue, shares: nat): nat
    requires s.supply > 0
  {
    MulDiv(shares, s.modeAssets, s.supply)
  }

  /** A withdrawal of these shares pays something: there are shares, the fee is defined, and it
      leaves part of the gross value. */
  predicate PaysOut(s: Venue, shares: nat) {
    s.supply > 0
    && var gross := Value(s, shares);
       && Served(s.tiers, RefreshedTotalAssets(s), LiquidBefore(s), gross)
       && ScheduledFee(s.tiers, RefreshedTotalAssets(s), LiquidBefore(s), gross) < gross
  }

  /** A withdrawal's output and price: the value less the fee, and the gross rate times what the
      marginal fee leaves. */
  ghost predicate IsWithdrawal(s: Venue, shares: nat, output: nat, price: Rate)
    requires s.supply > 0
  {
    && Value(s, shares) <= U64_MAX
    && output == Value(s, shares) - ScheduledFee(s.tiers, RefreshedTotalAssets(s), LiquidBefore(s), Value(s, shares))
    && var fee := MarginalFeeBps(s.tiers, RefreshedTotalAssets(s), LiquidBefore(s), Value(s, shares));
       fee.Some? && price == Rate(s.modeAssets * (BPS - fee.value), s.supply * BPS)
  }

  lemma PayoutIff(s: Venue, shares: u64)
    requires Progressive(s.tiers) && Payable(s, shares) && shares > 0
    ensures !Payout(s, shares).Abort?
    ensures Payout(s, shares).Fee? <==> PaysOut(s, shares)
    ensures PaysOut(s, shares) ==>
              && s.supply > 0 && WithdrawPrice(s, shares).Some?
              && IsWithdrawal(s, shares, Payout(s, shares).amount, WithdrawPrice(s, shares).value)
  {
    hide WithdrawalFee, ScheduledFee, Served, RefreshedTotalAssets, LiquidBefore, Payable, MarginalFeeBps, MaxShares;
    ClampIsLargest(s, shares);
    if s.supply > 0 {
      ClampIsSound(s, shares);
      FeeIsScheduled(s.tiers, RefreshedTotalAssets(s), LiquidBefore(s), Gross(shares, s.modeAssets, s.supply));
      if Payout(s, shares).Fee? {
        ServedIsPriced(s, shares);
      }
    }
  }

  /** Every withdrawal that can be paid out in full, at gates that are open: it is quoted, with
      exactly its value less its fee, when it pays anything, and not available otherwise. */
  lemma FullWithdrawal(s: Venue, shares: u64)
    requires Progressive(s.tiers) && SumOfAssets(s.modes) < TWO_128
    requires shares > 0 && Payable(s, shares) && !SomeModeStale(s) && !SomeGateShut(s, shares)
    ensures QuoteWithdraw(s, shares).Ok? <==> PaysOut(s, shares)
    ensures PaysOut(s, shares) ==>
              var q := QuoteWithdraw(s, shares).quote;
              && q.amount == shares && !q.notEnoughLiquidity
              && s.supply > 0 && IsWithdrawal(s, shares, q.output, q.price)
    ensures !PaysOut(s, shares) ==> QuoteWithdraw(s, shares) == Err(NotAvailable)
  {
    hide Payout, WithdrawPrice, PaysOut, IsWithdrawal, MaxShares, AllModeAssetsFresh, SomeModeStale, GateShut, Payable;
    FreshIffNoneStale(s);
    GateShutIff(s.instantGating, shares, s.now, s.maxInstant);
    GateShutIff(s.globalGating, shares, s.now, s.maxTotal);
    ClampIsLargest(s, shares);
    PayoutIff(s, shares);
  }

  /** The answer for a request that is cut. */
  function Cut(r: QuoteResult): QuoteResult {
    if r.Ok? then Ok(r.quote.(notEnoughLiquidity := true)) else r
  }

  lemma SmallerRequestPasses(g: Gating, small: u64, large: u64, now: u64, budget: u128)
    requires small <= large && !GateShut(g, large, now, budget)
    ensures !GateShut(g, small, now, budget)
  {
  }

  /** A request for more than can be paid out is answered as one for the most that can be. */
  lemma CutWithdrawal(s: Venue, shares: u64) returns (most: u64)
    requires SumOfAssets(s.modes) < TWO_128 && !Payable(s, shares)
    requires !SomeModeStale(s) && !SomeGateShut(s, shares)
    ensures most < shares && Payable(s, most)
    ensures forall n: nat :: n > most ==> !Payable(s, n)
    ensures QuoteWithdraw(s, shares) == Cut(QuoteWithdraw(s, most))
  {
    hide Payout, WithdrawPrice, MaxShares, AllModeAssetsFresh, SomeModeStale, GateShut, Payable;
    most := MaxShares(s);
    FreshIffNoneStale(s);
    GateShutIff(s.instantGating, shares, s.now, s.maxInstant);
    GateShutIff(s.globalGating, shares, s.now, s.maxTotal);
    ClampIsLargest(s, shares);
    ClampIsLargest(s, most);
    forall n: nat | n > most
      ensures !Payable(s, n)
    {
      ClampIsLargest(s, n);
    }
    GateShutIff(s.instantGating, most, s.now, s.maxInstant);
    GateShutIff(s.globalGating, most, s.now, s.maxTotal);
    SmallerRequestPasses(s.instantGating, most, shares, s.now, s.maxInstant);
    SmallerRequestPasses(s.globalGating, most, shares, s.now, s.maxTotal);
  }

  /** Every request falls under one of the two: what is quoted is the largest part of it that can
      be paid out, flagged when that is not all. */
  lemma ServedIsLargestPayable(s: Venue, shares: u64)
    requires QuoteWithdraw(s, shares).Ok?
    ensures var q := QuoteWithdraw(s, shares).quote;
            && q.amount <= shares && Payable(s, q.amount)
            && (q.amount < shares ==> !Payable(s, q.amount + 1))
            && (q.notEnoughLiquidity <==> q.amount < shares)
            && (q.amount == 0 ==> q.output == 0)
  {
    hide Payout, WithdrawPrice, MaxShares, AllModeAssetsFresh, SumFits, Payable;
    var q := QuoteWithdraw(s, shares).quote;
    ClampIsLargest(s, q.amount);
    ClampIsLargest(s, q.amount + 1);
    ClampIsLargest(s, 0);
  }

  /** Exactly when a withdrawal request is refused or faults before anything is computed. */
  lemma WithdrawalRefusals(s: Venue, shares: u64)
    requires Progressive(s.tiers)
    ensures QuoteWithdraw(s, shares) == Panic <==> SumOfAssets(s.modes) >= TWO_128
    ensures QuoteWithdraw(s, shares) == Err(Stale) <==>
            SumOfAssets(s.modes) < TWO_128 && shares > 0 && SomeModeStale(s)
    ensures QuoteWithdraw(s, shares) == Err(WindowLimit) <==>
            SumOfAssets(s.modes) < TWO_128 && shares > 0 && !SomeModeStale(s) && SomeGateShut(s, shares)
    ensures QuoteWithdraw(s, shares).Err? ==> QuoteWithdraw(s, shares).error in {Stale, WindowLimit, NotAvailable}
  {
    hide Payout, WithdrawPrice, MaxShares, AllModeAssetsFresh, SomeModeStale, GateShut;
    WithdrawQuoteIsSound(s, shares);
    FreshIffNoneStale(s);
    GateShutIff(s.instantGating, shares, s.now, s.maxInstant);
    GateShutIff(s.globalGating, shares, s.now, s.maxTotal);
  }

  /** The zero-input withdrawal: the spot price, or not available. */
  lemma ZeroWithdrawal(s: Venue)
    requires SumOfAssets(s.modes) < TWO_128
    ensures QuoteWithdraw(s, 0).Ok? <==> s.supply > 0 && SpotFeeKnown(s)
    ensures !QuoteWithdraw(s, 0).Ok? ==> QuoteWithdraw(s, 0) == Err(NotAvailable)
    ensures QuoteWithdraw(s, 0).Ok? ==>
              QuoteWithdraw(s, 0).quote
              == Quote(0, 0, false,
                       Rate(s.modeAssets
                            * (BPS - s.tiers[Bracket(s.tiers, RefreshedTotalAssets(s), LiquidBefore(s))].feeBps),
                            s.supply * BPS))
  {
    hide RefreshedTotalAssets, LiquidBefore;
    if s.supply > 0 {
      assert Gross(0, s.modeAssets, s.supply) == 0;
    }
  }

  // ------------------------------------------------------------------------------------
  // Deposits
  // ------------------------------------------------------------------------------------

  /** The room under the liquidity cap, cut to 64 bits. */
  function Room(s: Venue): nat {
    if s.liquidityCap > RefreshedTotalAssets(s) then (s.liquidityCap - RefreshedTotalAssets(s)) % TWO_64 else 0
  }

  /** The shares a deposit mints: its proportional part cut to 64 bits, and in an empty mode one
      for each atom; none where the mode has shares but no assets. */
  function Mints(s: Venue, assets: nat): nat {
    if s.supply == 0 then assets
    else if s.modeAssets == 0 then 0
    else MulDiv(assets, s.supply, s.modeAssets) % TWO_64
  }

  /** What every deposit request is answered: the constant price for nothing; refusals of what is
      too small, of everything where there is no room, and of what mints nothing; and otherwise
      a quote for the request, or for exactly the room where the request exceeds it. */
  lemma DepositOutcome(s: Venue, assets: u64)
    ensures var price := if s.supply == 0 then Rate(1, 1) else Rate(s.supply, s.modeAssets);
            var served := if assets <= Room(s) then assets else Room(s);
            QuoteDeposit(s, assets)
            == if assets == 0 then Ok(Quote(0, 0, false, price))
               else if assets < s.minDeposit then Err(BelowMinimum)
               else if SumOfAssets(s.modes) >= TWO_128 then Panic
               else if Room(s) == 0 then Err(CapReached)
               else if Mints(s, served) == 0 then Err(ZeroShares)
               else Ok(Quote(served, Mints(s, served), assets > Room(s), price))
  {
    hide RefreshedTotalAssets, MulDiv;
  }

  // ------------------------------------------------------------------------------------
  // Requests
  // ------------------------------------------------------------------------------------

  /** Which requests the venue takes, and as what. */
  lemma RequestOutcome(s: Venue, r: Request)
    ensures QuoteRequest(s, r) == Err(ExactOutNotSupported) <==> !r.exactIn
    ensures QuoteRequest(s, r) == Err(InactivePool) <==> r.exactIn && (s.paused || !s.poolOn)
    ensures QuoteRequest(s, r) == Err(InvalidMint) <==>
            && r.exactIn && !s.paused && s.poolOn
            && !(r.inputMint == s.underlyingMint && r.outputMint == s.modeMint)
            && !(r.inputMint == s.modeMint && r.outputMint == s.underlyingMint)
    ensures r.exactIn && !s.paused && s.poolOn && r.inputMint == s.underlyingMint && r.outputMint == s.modeMint ==>
              QuoteRequest(s, r) == QuoteDeposit(s, r.amount)
    ensures r.exactIn && !s.paused && s.poolOn && r.inputMint == s.modeMint && r.outputMint == s.underlyingMint
            && s.modeMint != s.underlyingMint ==>
              QuoteRequest(s, r) == QuoteWithdraw(s, r.amount)
  {
    hide Payout, WithdrawPrice, MaxShares, AvailableCap, SharesForDeposit, SumFits;
  }
}
