/** The bounds each venue reports: the boundary search applied to its own quotes. */
module VenueBounds {
  import opened Numbers
  import opened Quoting
  import opened Bounds
  import opened BoundsLaws
  import HumaFee
  import HumaQuote
  import HumaQuoteLaws
  import Raydium
  import RaydiumLaws

  /** What a caller may rely on: without a result no power of two quotes; with one, sizes
      between the bounds quote, and sizes 100 or more outside them do not, except possibly
      the largest 64-bit number. */
  ghost predicate Reported(f: Probe, r: BoundsResult) {
    && (r.Found? <==> SomePowerQuotes(f))
    && (r.Found? ==>
          && r.lower <= r.upper
          && (forall x: u64 :: r.lower <= x <= r.upper ==> Quotes(f, x))
          && (forall x: u64 :: x + 100 <= r.lower ==> !Quotes(f, x))
          && (forall x: u64 :: x >= r.upper + 100 && x < U64_MAX ==> !Quotes(f, x)))
  }

  /** The search over a gapless range. */
  method BoundsOf(f: Probe) returns (r: BoundsResult)
    requires forall x: u64 :: !f(x).Panic?
    requires Contiguous(f) && !Quotes(f, 0)
    ensures Reported(f, r)
  {
    ghost var below, above, probes;
    r, below, above, probes := FindBoundaries(f);
    if r.Found? {
      BoundsOfContiguousRange(f, r.lower, r.upper, below, above);
    }
  }

  function HumaWithdrawals(s: HumaQuote.Venue): Probe {
    (x: u64) => HumaQuote.QuoteRequest(s, Request(s.modeMint, s.underlyingMint, x, true))
  }

  lemma HumaWithdrawalsAreContiguous(s: HumaQuote.Venue)
    requires HumaFee.Progressive(s.tiers) && s.modeMint != s.underlyingMint && HumaQuote.SumFits(s)
    ensures Contiguous(HumaWithdrawals(s)) && !Quotes(HumaWithdrawals(s), 0)
    ensures forall x: u64 :: !HumaWithdrawals(s)(x).Panic?
  {
    hide HumaQuote.QuoteWithdraw;
    var f := HumaWithdrawals(s);
    forall x: u64
      ensures !f(x).Panic?
    {
      HumaQuoteLaws.WithdrawQuoteIsSound(s, x);
    }
    HumaQuoteLaws.ValidWithdrawShape(s, 0);
    forall x: u64, y: u64, z: u64 | x <= y <= z && Quotes(f, x) && Quotes(f, z)
      ensures Quotes(f, y)
    {
      HumaQuoteLaws.ValidWithdrawalsAreContiguous(s, x, y, z);
    }
  }

  /** Instant withdrawals of a pool with progressive tiers. */
  method HumaWithdrawBounds(s: HumaQuote.Venue) returns (r: BoundsResult)
    requires HumaFee.Progressive(s.tiers) && s.modeMint != s.underlyingMint && HumaQuote.SumFits(s)
    ensures Reported(HumaWithdrawals(s), r)
  {
    HumaWithdrawalsAreContiguous(s);
    r := BoundsOf(HumaWithdrawals(s));
  }

  function HumaDeposits(s: HumaQuote.Venue): Probe {
    (x: u64) => HumaQuote.QuoteRequest(s, Request(s.underlyingMint, s.modeMint, x, true))
  }

  /** Deposit quotes have no gap exactly when the pool is off or no size strictly within the
      limits has shares that wrap to none. */
  lemma HumaDepositsAreContiguousIff(s: HumaQuote.Venue)
    ensures Contiguous(HumaDeposits(s)) <==> s.paused || !s.poolOn || HumaQuoteLaws.GapFree(s)
    ensures !Quotes(HumaDeposits(s), 0)
    ensures HumaQuote.SumFits(s) ==> forall x: u64 :: !HumaDeposits(s)(x).Panic?
  {
    var f := HumaDeposits(s);
    forall x: u64 | HumaQuote.SumFits(s)
      ensures !f(x).Panic?
    {
    }
    assert !Quotes(f, 0);
    hide HumaQuote.QuoteDeposit, HumaQuote.QuoteWithdraw, MulDiv, HumaQuote.AvailableCap, HumaQuoteLaws.GapFree;
    HumaQuoteLaws.DepositsAreContiguousIff(s);
    forall x: u64
      ensures Quotes(f, x) <==> !s.paused && s.poolOn && Valid(HumaQuote.QuoteDeposit(s, x))
    {
    }
    if !s.paused && s.poolOn {
      assert forall x: u64 :: Quotes(f, x) <==> Valid(HumaQuote.QuoteDeposit(s, x));
    }
  }

  /** Deposits of a pool whose shares leave no gap. */
  method HumaDepositBounds(s: HumaQuote.Venue) returns (r: BoundsResult)
    requires HumaQuote.SumFits(s)
    requires s.paused || !s.poolOn || HumaQuoteLaws.GapFree(s)
    ensures Reported(HumaDeposits(s), r)
  {
    HumaDepositsAreContiguousIff(s);
    r := BoundsOf(HumaDeposits(s));
  }

  function Swaps(v: Raydium.Venue, inputMint: Key, outputMint: Key): Probe {
    (x: u64) => Raydium.QuoteRequest(v, RaydiumLaws.ExactIn(inputMint, outputMint, x))
  }

  lemma SwapsAreContiguous(v: Raydium.Venue, inputMint: Key, outputMint: Key)
    requires RaydiumLaws.Sound(v)
    ensures Contiguous(Swaps(v, inputMint, outputMint)) && !Quotes(Swaps(v, inputMint, outputMint), 0)
    ensures forall x: u64 :: !Swaps(v, inputMint, outputMint)(x).Panic?
  {
    hide Raydium.QuoteRequest;
    var f := Swaps(v, inputMint, outputMint);
    forall x: u64
      ensures !f(x).Panic?
    {
      RaydiumLaws.ValidSwapShape(v, inputMint, outputMint, x);
    }
    RaydiumLaws.ValidSwapShape(v, inputMint, outputMint, 0);
    forall x: u64, y: u64, z: u64 | x <= y <= z && Quotes(f, x) && Quotes(f, z)
      ensures Quotes(f, y)
    {
      RaydiumLaws.ValidSwapsAreContiguous(v, inputMint, outputMint, x, y, z);
    }
  }

  /** Swaps of a constant-product pool in either direction. */
  method SwapBounds(v: Raydium.Venue, inputMint: Key, outputMint: Key) returns (r: BoundsResult)
    requires RaydiumLaws.Sound(v)
    ensures Reported(Swaps(v, inputMint, outputMint), r)
  {
    SwapsAreContiguous(v, inputMint, outputMint);
    r := BoundsOf(Swaps(v, inputMint, outputMint));
  }
}
