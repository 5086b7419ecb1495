/**
 Quotes of the Huma venue: deposits of the underlying for mode shares, and instant
 withdrawals the other way.
 */
module HumaQuote {
  import opened Numbers
  import opened Quoting
  import opened HumaFee

  const SECONDS_PER_DAY: nat := 86_400
  const MAX_ASSETS_STALENESS_SECS: nat := 5 * SECONDS_PER_DAY

  datatype ModeState = ModeState(assets: u128, refreshedAt: u64)

  /** A rolling one-day budget of redeemed shares. */
  datatype Gating = Gating(requested: u128, windowStartsAt: u64) {
    predicate WouldExceed(shares: u64, now: u64, maxShares: u64) {
      var startOfToday := now / SECONDS_PER_DAY * SECONDS_PER_DAY;
      var used := if startOfToday > windowStartsAt then 0 else Low64(requested);
      SatAdd(used, shares) > maxShares
    }
  }

  /** The decoded accounts a quote reads; `modeAssets` is the yield-refreshed value of the
      quoted mode and `strategyLiquidity` what the lending strategy can pay out. */
  datatype State = State(
    underlyingMint: Key, modeMint: Key, paused: bool, poolOn: bool,
    modes: seq<ModeState>, modeIndex: nat, modeAssets: u64, supply: u64,
    disbursementReserve: u128, liquidDeployed: u64, underlyingBalance: u64, now: u64,
    strategyLiquidity: u64, tiers: seq<Tier>, reserveLimit: u64,
    liquidityCap: u128, minDeposit: u64,
    instantGating: Gating, globalGating: Gating, maxInstant: u128, maxTotal: u128)

  /** The mode index was found in the pool's list of modes. */
  type Venue = s: State | s.modeIndex < |s.modes|
    witness State(0, 1, false, true, [ModeState(0, 0)], 0, 0, 0, 0, 0, 0, 0, 0, [], 0, 0, 0,
                  Gating(0, 0), Gating(0, 0), 0, 0)

  function SumOfAssets(modes: seq<ModeState>): nat {
    if modes == [] then 0 else modes[0].assets + SumOfAssets(modes[1..])
  }

  /** The sum over the modes fits the 128 bits it is taken in. */
  predicate SumFits(s: Venue) {
    SumOfAssets(s.modes) < TWO_128
  }

  function RefreshedTotalAssets(s: Venue): u64 {
    var delta := SatSub(s.modeAssets, Low64(s.modes[s.modeIndex].assets));
    SatAdd(Low64(SumOfAssets(s.modes)), delta)
  }

  function AvailableBalance(s: Venue): u64 {
    SatSub(SatSub(s.underlyingBalance, Low64(s.disbursementReserve)), s.reserveLimit)
  }

  predicate AllModeAssetsFresh(s: Venue) {
    forall m :: m in s.modes ==> SatSub(s.now, m.refreshedAt) <= MAX_ASSETS_STALENESS_SECS
  }

  // ------------------------------------------------------------------------------------
  // Valuation
  // ------------------------------------------------------------------------------------

  /** Underlying value of shares before the fee. */
  function Gross(shares: nat, modeAssets: nat, supply: nat): nat
    requires supply > 0
  {
    MulDiv(shares, modeAssets, supply)
  }

  function LiquidBefore(s: Venue): (l: u64)
    ensures l <= RefreshedTotalAssets(s)
  {
    Min(SatAdd(s.liquidDeployed, AvailableBalance(s)), RefreshedTotalAssets(s))
  }

  /** Gross rate times what the fee leaves. */
  function NetRate(modeAssets: nat, supply: nat, feeBps: nat): Rate
    requires feeBps <= BPS
  {
    Rate(modeAssets * (BPS - feeBps), supply * BPS)
  }

  /** `instant_withdraw_price` */
  function WithdrawPrice(s: Venue, shares: u64): Option<Rate> {
    if s.supply == 0 then None
    else
      var w := Low64(Gross(shares, s.modeAssets, s.supply));
      var fee := MarginalFeeBps(s.tiers, RefreshedTotalAssets(s), LiquidBefore(s), w);
      if fee.None? || fee.value >= BPS then None
      else Some(NetRate(s.modeAssets, s.supply, fee.value))
  }

  /** `underlying_for_instant_withdraw`; an aborting fee is passed on. */
  function Payout(s: Venue, shares: u64): FeeResult {
    if s.supply == 0 then Unserved
    else
      var w := Low64(Gross(shares, s.modeAssets, s.supply));
      var fee := WithdrawalFee(s.tiers, RefreshedTotalAssets(s), LiquidBefore(s), w);
      if !fee.Fee? then fee
      else if w <= fee.amount then Unserved
      else Fee(w - fee.amount)
  }

  // ------------------------------------------------------------------------------------
  // Quotes
  // ------------------------------------------------------------------------------------

  /** The underlying the pool and its strategy can pay. */
  function Servable(s: Venue): u64 {
    Min(SatAdd(AvailableBalance(s), s.strategyLiquidity), s.modeAssets)
  }

  /** The most shares the pool and its strategy can pay out. */
  function MaxShares(s: Venue): u64 {
    if s.modeAssets == 0 then 0 else Low64(MulDiv(Servable(s), s.supply, s.modeAssets))
  }

  function Priced(s: Venue, served: u64, output: u64, partial: bool, pricedAt: u64): QuoteResult {
    var price := WithdrawPrice(s, pricedAt);
    if price.None? then Err(NotAvailable) else Ok(Quote(served, output, partial, price.value))
  }

  /** `quote_instant_withdraw` */
  function QuoteWithdraw(s: Venue, shares: u64): QuoteResult {
    if !SumFits(s) then Panic
    else if shares == 0 then Priced(s, 0, 0, false, 0)
    else if !AllModeAssetsFresh(s) then Err(Stale)
    else if s.instantGating.WouldExceed(shares, s.now, Low64(s.maxInstant))
         || s.globalGating.WouldExceed(shares, s.now, Low64(s.maxTotal)) then Err(WindowLimit)
    else
      var served := Min(shares, MaxShares(s));
      if served == 0 then Priced(s, 0, 0, true, 0)
      else
        match Payout(s, served)
        case Unserved => Err(NotAvailable)
        case Abort(_) => Panic
        case Fee(out) => Priced(s, served, out, served < shares, served)
  }

  /** `deposit_price`; an insolvent mode has denominator 0. */
  function DepositPrice(s: Venue): Rate {
    if s.supply == 0 then Rate(1, 1) else Rate(s.supply, s.modeAssets)
  }

  /** `shares_for_deposit` */
  function SharesForDeposit(assets: u64, modeAssets: u64, supply: u64): Option<u64> {
    if supply == 0 then Some(assets)
    else if modeAssets == 0 then None
    else
      var shares := Low64(MulDiv(assets, supply, modeAssets));
      if shares == 0 then None else Some(shares)
  }

  /** Room under the liquidity cap, truncated to 64 bits. */
  function AvailableCap(s: Venue): u64 {
    Low64(SatSub(s.liquidityCap, RefreshedTotalAssets(s)))
  }

  /** `quote_deposit` */
  function QuoteDeposit(s: Venue, assets: u64): QuoteResult {
    if assets == 0 then Ok(Quote(0, 0, false, DepositPrice(s)))
    else if assets < s.minDeposit then Err(BelowMinimum)
    else if !SumFits(s) then Panic
    else if AvailableCap(s) == 0 then Err(CapReached)
    else
      var served := Min(assets, AvailableCap(s));
      var shares := SharesForDeposit(served, s.modeAssets, s.supply);
      if shares.None? then Err(ZeroShares)
      else Ok(Quote(served, shares.value, served < assets, DepositPrice(s)))
  }

  /** `quote` */
  function QuoteRequest(s: Venue, r: Request): QuoteResult {
    if !r.exactIn then Err(ExactOutNotSupported)
    else if s.paused || !s.poolOn then Err(InactivePool)
    else if r.inputMint == s.underlyingMint && r.outputMint == s.modeMint then QuoteDeposit(s, r.amount)
    else if r.inputMint == s.modeMint && r.outputMint == s.underlyingMint then QuoteWithdraw(s, r.amount)
    else Err(InvalidMint)
  }
}
