# Titan integration template: verified model

This project models the quoting, routing and settlement logic of the Titan venue
integration template and proves what a router may rely on. It covers:

- the progressive instant-withdrawal fee of the Huma pool and the quotes built on it
  (`HumaFee`, `HumaFeeLaws`, `HumaQuote`, `HumaQuoteLaws`, `HumaQuoteOutcomes`);
- the search for the range of sizes a venue quotes (`Bounds`, `BoundsLaws`), and its use by
  both venues (`VenueBounds`);
- the constant-product swap of the Raydium venue (`Raydium`, `RaydiumLaws`);
- the route instruction: how legs are built and encoded off-chain (`SwapRoute`,
  `SwapRouteLaws`), and the on-chain program that decodes and executes them against accounts
  that venues may change at will (`Ledger`, `LedgerLaws`, `Bitmap`, `Router`, `RouterLaws`,
  `RouteOutcomes`, `RouterProgram`);
- the account cache in front of the RPC node (`RpcCache`).

`Numbers` holds machine integers and rounding, `Quoting` what a quote is. Integers are
mathematical with explicit 16, 32, 64 and 128 bit bounds; casts that truncate are written
out. Prices, floating point in the program, are exact rationals here. An arithmetic fault or
a failed unwrap is a result of its own (`Abort`, `Panic`, `Aborted`), never a precondition.

Code that updates state step by step is a method or a class (the fee loop, the searches, the
ceiling division, the encoders, the bitmap, the program, the cache); each is proved equal to a
function, and the theorems are about that function.

Check everything with `dafny verify dfyconfig.toml`.

## Where the code and its documentation part

- The mean value requirement on quotes (src/trading_venue/mod.rs:259-268) leaves no slack.
  Rounding breaks it: `HumaQuoteLaws.ExactMeanValueFails` and `RaydiumLaws.ExactMeanValueFails`
  give pools and sizes. Three theorems say exactly when two valid quotes meet it, in terms of
  pool state and sizes: `HumaQuoteLaws.WithdrawMeanValueIff` for withdrawals across any number
  of fee brackets (`HumaQuoteLaws.MeanValueWithinBracketIff` is its form inside one),
  `HumaQuoteLaws.DepositMeanValueIff` for deposits and `RaydiumLaws.QuoteMeanValueIff` for
  swaps; the last also gives a condition on reserves and amounts alone that suffices.
  `HumaQuoteLaws.WithdrawMeanValue` and `RaydiumLaws.SwapMeanValue` prove the requirement
  between all valid sizes with explicit slack. For Huma the slack is two atoms plus one for
  each bracket crossed.
- The price documentation (src/huma/math.rs:23-28) takes it that lower ratios cost more; the
  program does not check it. Laws about the fee therefore name the shape of the tiers they
  need: ascending thresholds (`HumaFee.Sorted`), and rates that do not rise with the threshold
  (`HumaFee.Progressive`). `HumaFeeLaws.FeeForAnyTiers` says for tiers in any order and of any
  rates exactly when the fee computation refuses, when it faults and how, and what it charges
  otherwise; `HumaFeeLaws.UnsortedTiersFault` and `HumaFeeLaws.SteepTiersOverflow` are
  instances of its two faults.
- `find_boundaries` promises exact bounds (src/trading_venue/bounds.rs:245-253).
  `BoundsLaws.DocumentedExactlyOnGrid` says when they are exact: the ends must be multiples of
  64, or powers of two below; from 2^63 on, the upper end must be a point of the last
  bisection, which ends at 2^64 - 1, and 2^64 - 1 itself is found only on ranges that start
  above 2^62. `BoundsLaws.NarrowRangeIsMissed` shows a range that is not found at all, because
  it holds no power of two.
- A venue must quote a zero input without an error (src/trading_venue/mod.rs:236-238).
  `HumaQuoteLaws.ZeroInputQuotes` says exactly when the Huma venue does.
- A venue must not panic on an exact-out request (src/trading_venue/mod.rs:240-242). The
  constant-product venue does; `RaydiumLaws.ExactOutPanicsIff` says exactly when: the amount
  reaches the output reserve, or the input it takes does not fit 64 bits.
- `checked_ceil_div` is a ceiling exactly when the dividend is zero or at least half the
  divisor (`RaydiumLaws.CeilDivisionIsCeilingIff`), which decides when exact-out and exact-in
  swaps form a Galois connection (`RaydiumLaws.GaloisConnectionIff`).
- Minted shares are cut to 64 bits (src/huma/math.rs:66), so deposits need not meet the
  requirement that output never falls (src/trading_venue/mod.rs:252-253), nor form the range
  the boundary search presumes. `HumaQuoteLaws.DepositOutputsMonotoneIff` says exactly when the
  output of valid deposits never falls (`HumaQuoteLaws.DepositOutputsOrderedIff` compares any
  two of them, `HumaQuoteLaws.WrappingLowersOutput` gives two between which it falls), and
  `HumaQuoteLaws.DepositsAreContiguousIff` exactly when they have no gap. Wrapping alone
  does not lower the output: in the pool of `HumaQuoteLaws.WrappingBreaksContiguity`, which has
  a gap, all valid deposits output the same.
- The cache claims not to retry missing accounts (src/account_caching/rpc_cache.rs:30). A
  batched lookup does: `RpcCache.BatchFailsIff` shows that it asks the node whenever a key has
  no account in the cache, known to be missing or not.
- In base-out mode `swap_with_slippage` holds the quoted input, not the output its message
  speaks of, against the output reserve (src/example/amm.rs:202-208).
  `RaydiumLaws.ExactOutRefusedIff` says exactly when it refuses for that;
  `RaydiumLaws.ServableOutputIsRefused` is an output the pool would have paid.

## Model

| member | source | states |
|---|---|---|
| `HumaFee.ComputeInstantWithdrawalFee` | src/huma/state.rs:88-140 | The reverse loop over brackets computes the fee computation's result, refusals and arithmetic faults included. |
| `HumaFee.EnterDescends` | src/huma/state.rs:176-185 | Boundaries of higher thresholds are reached earlier. |
| `HumaFee.EnterShifts` | src/huma/state.rs:176-185 | After w has been withdrawn, every bracket boundary lies exactly w nearer. |
| `HumaFee.EnterIsLastAtOrAbove` | src/huma/state.rs:176-185 | The boundary formula names the last whole amount whose removal leaves the ratio at or above the threshold. |
| `HumaFee.Crossing` | src/huma/state.rs:109-119 | A withdrawal whose final ratio matches a tier is past that tier's boundary; otherwise it is at or before it. |
| `HumaFeeLaws.BracketFalls` | src/huma/state.rs:109-119 | The ending bracket never rises as more is withdrawn, for tiers in any order. |
| `HumaFeeLaws.BracketBounds` | src/huma/state.rs:109-119 | A withdrawal lies between the boundary of its ending bracket and those of all brackets above. |
| `HumaFeeLaws.BoundaryIsEntry` | src/huma/state.rs:176-185 | Above a threshold the boundary computation neither underflows, divides by zero, nor loses bits. |
| `HumaFeeLaws.TrajectoryWellFormed` | src/huma/state.rs:109-139 | For ascending tiers the ending bracket is at or below the starting one, every boundary is defined, and the exits ascend from 0 to the withdrawal. |
| `HumaFeeLaws.FeeForAnyTiers` | src/huma/state.rs:88-140 | For tiers in any order and of any rates: exactly the unserved withdrawals are refused, no boundary faults, the sum overflows exactly when the charges before any step backwards exceed 64 bits, failing that a slice faults exactly when two brackets on the way are met in the wrong order, and otherwise the fee is those charges. |
| `HumaFeeLaws.FaultsExactlyWhenDisordered` | src/huma/state.rs:94-140 | With no rate above 100% on the way, the wrong order is the only fault there is. |
| `HumaFeeLaws.OnlyTheSumCanOverflow` | src/huma/state.rs:120-139 | No boundary faults for tiers in any order, and no slice for ascending ones. |
| `HumaFeeLaws.UnsortedTiersFault` | src/huma/state.rs:120-139 | An instance of four tiers, two of them swapped, whose slice faults. |
| `HumaFeeLaws.SteepTiersOverflow` | src/huma/state.rs:120-139 | An instance of ascending tiers with rates above 100% whose sum overflows. |
| `HumaFeeLaws.ThreeTiersCharge` | src/huma/math.rs:178-190 | An instance of a withdrawal across three brackets: the boundaries, the three charges and the fee in numbers. |
| `HumaFeeLaws.FeeIsScheduled` | src/huma/state.rs:88-140 | For progressive tiers the computation never faults, refuses exactly the unserved withdrawals, and otherwise returns the bracket schedule's fee, which is at most the withdrawal. |
| `HumaFeeLaws.ServedSplits` | src/huma/state.rs:94-119 | Two withdrawals in turn can be served exactly when their sum can. |
| `HumaFeeLaws.SchedulesJoin` | src/huma/state.rs:120-139 | Continuing a withdrawal costs the joint schedule or one atom more. |
| `HumaFeeLaws.SplitCostsAtMostOneAtom` | src/huma/state.rs:88-140 | Splitting a withdrawal in two is served exactly when the whole is, and costs the same or one atom more. |
| `HumaFeeLaws.RunCostsAtMostOneAtomPerPart` | src/huma/state.rs:88-140 | Any run of withdrawals is served exactly when its sum is, never costs less, and costs at most one atom more per part after the first. |
| `HumaFeeLaws.ScheduleSlope` | src/huma/state.rs:120-139 | The schedule climbs at the rates of the brackets between its ends, up to one rounding per bracket. |
| `HumaFeeLaws.MarginalRateBracketsFee` | src/huma/state.rs:142-173 | Discrete mean value theorem: the fee climbs between the marginal rates of the two sizes, up to one rounding below and one per bracket touched above; the marginal rate ascends. |
| `HumaFeeLaws.FeeMonotoneAndLipschitz` | src/huma/state.rs:88-140 | The fee never falls, and an extra atom never costs more than itself. |
| `HumaFeeLaws.FeeClimbsAtMarginalRateIff` | src/huma/state.rs:142-173 | Within a bracket the fee alone climbs at exactly the marginal rate when and only when rate times difference is a whole number of atoms. |
| `HumaFeeLaws.FeeIsExactAndRoundings` | src/huma/state.rs:88-140 | Every fee charged is the unrounded fee plus one rounding for each bracket touched. |
| `HumaFeeLaws.ExactFeeSlope` | src/huma/state.rs:142-173 | The unrounded fee climbs between the marginal rates of the two sizes, with no allowance. |
| `HumaQuoteLaws.ClampIsSound` | src/huma/venue.rs:286-296 | Clamped shares exist, their gross value can be paid by pool and strategy and is backed by the mode, and the 64-bit casts lose nothing. |
| `HumaQuoteLaws.ServedPayoutIsSound` | src/huma/math.rs:75-97 | A served payout is positive, within the gross value, and has a positive price. |
| `HumaQuoteLaws.WithdrawQuoteIsSound` | src/huma/venue.rs:206-337 | A withdrawal quote panics exactly when the sum over the modes overflows; one for a positive amount is backed, flagged partial exactly when clamped, and positively priced. |
| `HumaQuoteLaws.PayoutMonotone` | src/huma/math.rs:87-96 | Net output never falls with the shares, and sizes between two that pay are served. |
| `HumaQuoteLaws.AvailableBalanceLeavesReserves` | src/huma/state.rs:405-409 | Paying out the available balance leaves exactly the two reserves in the pool. |
| `HumaQuoteLaws.RefreshedTotalIsUpdatedSum` | src/huma/state.rs:399-414 | The refreshed total is the sum over the modes with the quoted mode revalued, when that fits 64 bits and is no loss. |
| `HumaQuoteLaws.GateComparesUseWithBudget` | src/huma/state.rs:300-308 | The redemption gate compares the day's use plus the request with the budget; a budget of 2^64 - 1 is never exceeded. |
| `HumaQuoteLaws.ValidWithdrawShape` | src/huma/venue.rs:206-337 | Exactly when a withdrawal quote is valid, and that it then serves the whole request. |
| `HumaQuoteLaws.ValidWithdrawalsAreContiguous` | src/huma/venue.rs:206-337 | The validly quoted sizes form an interval along which the output rises. |
| `HumaQuoteLaws.WithdrawMeanValue` | src/trading_venue/mod.rs:255-268 | Between two valid sizes the price falls and brackets the realized rate, within two atoms above and two plus one per bracket crossed below. |
| `HumaQuoteLaws.WithdrawMeanValueIff` | src/trading_venue/mod.rs:259-268 | Exactly when two valid withdrawal quotes meet each half of the requirement without slack: what rounding takes at the two sizes is compared, helped by the bend of the fee between brackets. |
| `HumaQuoteLaws.MeanValueWithinBracketIff` | src/trading_venue/mod.rs:259-268 | Within one bracket they meet it exactly when the gross remainder and the rounding of the last slice together lose the same at both. |
| `HumaQuoteLaws.ExactMeanValueFails` | src/trading_venue/mod.rs:259-268 | Two valid quotes of a pool that do not meet it. |
| `HumaQuoteLaws.ZeroInputQuotes` | src/huma/venue.rs:698-713 | Exactly when a zero-input quote succeeds, in either direction: on the pool's status and mints, and for withdrawals on its assets, shares and spot fee. |
| `HumaQuoteLaws.DepositStaysWithinCap` | src/huma/venue.rs:139-204 | A served deposit keeps the pool within its cap despite the truncated room, and mints no more than its proportional share. |
| `HumaQuoteLaws.WrapLowersOutput` | src/huma/math.rs:58-68 | Where minted shares wrap, some deposit mints less than one an atom smaller, a refusal counting as none. |
| `HumaQuoteLaws.MintedMonotoneIffNoWrap` | src/huma/math.rs:58-68 | With a refusal counted as none, minted shares never fall up to a size exactly when that size does not wrap. |
| `HumaQuoteLaws.ValidDepositShape` | src/huma/venue.rs:139-204 | Exactly when a deposit quote is valid and exactly when it panics. |
| `HumaQuoteLaws.DepositsAreContiguousIff` | src/huma/venue.rs:139-204 | The validly quoted deposits have no gap exactly when no size strictly within the limits has shares that wrap to none. |
| `HumaQuoteLaws.ValidDepositsAreContiguous` | src/huma/venue.rs:139-204 | Without such a size they form an interval at a constant price, the realized rate up to one atom once wraps are counted back; output rises where none intervenes. |
| `HumaQuoteLaws.DepositOutputsOrderedIff` | src/trading_venue/mod.rs:252-253 | Exactly when the output does not fall between two valid deposits: the wraps between them take no more than the shares they add. |
| `HumaQuoteLaws.DepositOutputsMonotoneIff` | src/trading_venue/mod.rs:252-253 | It falls between no two exactly when it does not fall from any valid size to the next. |
| `HumaQuoteLaws.WrappingLowersOutput` | src/trading_venue/mod.rs:252-253 | Two valid deposits of a pool between which it falls. |
| `HumaQuoteLaws.DepositMeanValueIff` | src/trading_venue/mod.rs:259-268 | Two valid deposit quotes, wrapping or not, meet the requirement exactly in an empty mode or when both leave the same remainder and wrap equally often. |
| `HumaQuoteLaws.WrappingBreaksContiguity` | src/huma/math.rs:58-68 | An instance with a gap: deposits of 1 and 3 atoms quote and 2 wraps to none; its valid outputs are all equal. |
| `HumaQuoteOutcomes.LiquidIsDeployedAndAvailable` | src/huma/math.rs:88-89 | The liquid assets are those deployed and those above the pool's reserves, held at the total. |
| `HumaQuoteOutcomes.TotalIsSumAndGain` | src/huma/state.rs:399-414 | The refreshed total from the fields, truncations and saturation included. |
| `HumaQuoteOutcomes.FreshIffNoneStale` | src/huma/state.rs:389-393 | Modes are fresh exactly when none was last refreshed more than five days ago. |
| `HumaQuoteOutcomes.GateShutIff` | src/huma/state.rs:300-308 | A gate is shut exactly when the day's use and the request exceed its budget, from the fields. |
| `HumaQuoteOutcomes.ClampIsLargest` | src/huma/venue.rs:286-302 | The clamp is the largest number of shares that exist and whose assets the pool's excess and its strategy cover. |
| `HumaQuoteOutcomes.ServedIsLargestPayable` | src/huma/venue.rs:286-336 | Every quote serves the largest part of the request that can be paid out, and is flagged exactly when that is not all. |
| `HumaQuoteOutcomes.FullWithdrawal` | src/huma/venue.rs:206-337 | A payable request is quoted at exactly its value less its fee, with the marginal price, when that is positive, and is not available otherwise. |
| `HumaQuoteOutcomes.CutWithdrawal` | src/huma/venue.rs:301-336 | A request for more than can be paid out is answered as one for the most that can be, flagged. |
| `HumaQuoteOutcomes.ZeroWithdrawal` | src/huma/venue.rs:230-260 | A zero-input withdrawal is answered with the spot price, or is not available. |
| `HumaQuoteOutcomes.WithdrawalRefusals` | src/huma/venue.rs:262-284 | Exactly when a withdrawal is refused as stale or beyond a window, or panics. |
| `HumaQuoteOutcomes.DepositOutcome` | src/huma/venue.rs:139-204 | The answer to every deposit request: each refusal, and a quote for the request or for exactly the room under the cap. |
| `HumaQuoteOutcomes.RequestOutcome` | src/huma/venue.rs:698-713 | Which requests are refused for their kind, the pool's status or their mints, and which are deposits and withdrawals. |
| `Bounds.FindBoundariesCoarse` | src/trading_venue/bounds.rs:66-117 | The doubling search finds the first power of two that quotes and the end of the quoting powers after it, in at most 65 calls. |
| `Bounds.RefineLower` | src/trading_venue/bounds.rs:134-180 | The lower bisection ends within 100 of a size that does not quote, in at most 60 calls, and exactly 64 apart on aligned intervals. |
| `Bounds.RefineUpper` | src/trading_venue/bounds.rs:196-243 | The same for the upper end. |
| `Bounds.FindBoundaries` | src/trading_venue/bounds.rs:258-281 | For any quoting function: success exactly when a power of two quotes, no BoundarySearchFailed, both ends quote and are bracketed, at most 185 calls. |
| `BoundsLaws.BoundsOfContiguousRange` | src/trading_venue/bounds.rs:245-253 | On a gapless range everything between the bounds quotes and nothing 100 or more outside does, save possibly 2^64 - 1. |
| `BoundsLaws.BoundsRoundToGrid` | src/trading_venue/bounds.rs:134-243 | For every range the bounds are its true ends rounded inwards to the search grid, which from 2^63 on consists of the points of the last bisection. |
| `BoundsLaws.DocumentedExactlyOnGrid` | src/trading_venue/bounds.rs:245-253 | For every range the documented promise is kept exactly when both ends are on that grid; 2^64 - 1 is, for ranges that start above 2^62. |
| `BoundsLaws.WideRangeIsFound` | src/trading_venue/bounds.rs:66-117 | A range from a to at least 2a - 1 is found. |
| `BoundsLaws.NarrowRangeIsMissed` | src/trading_venue/bounds.rs:66-117 | The range from 5 to 7 is not. |
| `VenueBounds.HumaWithdrawBounds` | src/trading_venue/mod.rs:289-308 | The bounds reported for withdrawals from a pool with progressive tiers meet the contiguous-range guarantee. |
| `VenueBounds.HumaDepositBounds` | src/trading_venue/mod.rs:289-308 | So do those for deposits whose shares leave no gap. |
| `VenueBounds.HumaDepositsAreContiguousIff` | src/huma/venue.rs:698-713 | Deposit quotes meet the search's hypothesis exactly when the pool is off or no size within the limits wraps to none. |
| `VenueBounds.SwapBounds` | src/trading_venue/mod.rs:289-308 | So do those of a constant-product pool, in both directions. |
| `VenueBounds.HumaWithdrawalsAreContiguous` | src/huma/venue.rs:698-713 | Withdrawal quotes meet the search's hypothesis: no gap, 0 not valid, no panic. |
| `VenueBounds.SwapsAreContiguous` | src/example/mod.rs:234-289 | So do constant-product quotes. |
| `Raydium.CheckedCeilDiv` | src/example/raydium/math.rs:179-210 | The stepwise division computes the rounded quotient and the recomputed divisor. |
| `RaydiumLaws.CeilDivisionIsCeilingIff` | src/example/raydium/math.rs:179-210 | The division is a ceiling exactly when the dividend is zero or at least half the divisor. |
| `RaydiumLaws.CeilDivisionFailsIff` | src/example/raydium/math.rs:179-210 | It fails exactly on a zero divisor and on a small dividend that cannot be doubled. |
| `RaydiumLaws.RecomputedDivisorIsLeast` | src/example/raydium/math.rs:125-142 | The recomputed divisor is the least one with the same rounded-up quotient. |
| `RaydiumLaws.FeeIsCeiling` | src/example/amm.rs:222-242 | Every exact-in quote charges the true ceiling of the fee and swaps the amount scaled down. |
| `RaydiumLaws.FeePositiveIff` | src/example/amm.rs:222-236 | The fee is positive exactly from the amount whose doubled fee reaches one atom. |
| `RaydiumLaws.CurveKeepsProduct` | src/example/raydium/math.rs:42-78 | Output stays below the reserve and the product of the reserves never falls. |
| `RaydiumLaws.CurveReaches` | src/example/raydium/math.rs:42-78 | An output is reached exactly from the input that covers it at the remaining reserve. |
| `RaydiumLaws.CurveMonotone` | src/example/raydium/math.rs:42-78 | Output never falls with the net input. |
| `RaydiumLaws.SwapInIsCurve` | src/example/amm.rs:213-249 | With positive reserves exact-in never panics, succeeds exactly when the fee is positive, and pays the curve at the net amount. |
| `RaydiumLaws.CurveCovers` | src/example/raydium/math.rs:80-122 | An input suffices for an output exactly from the rounded-up input on. |
| `RaydiumLaws.GaloisConnectionIff` | src/example/raydium/math.rs:42-122 | Exact-out names the least sufficient input for every amount exactly when twice input reserve times output reaches the remaining reserve. |
| `RaydiumLaws.NetCovers` | src/example/amm.rs:222-271 | Adding the fee back names the least amount whose net reaches the target. |
| `RaydiumLaws.ExactOutIsLeastSufficientInput` | src/example/amm.rs:213-275 | Through fees, an exact input yields the output exactly when it is at least the quoted input. |
| `RaydiumLaws.RoundTripPaysOut` | src/example/amm.rs:213-275 | Feeding an exact-out answer back as exact-in returns at least the output. |
| `RaydiumLaws.CurveIsConcave` | src/example/raydium/math.rs:42-78 | The output climb lies within one atom of the exact difference, and so between the derivatives at both ends. |
| `RaydiumLaws.PriceFalls` | src/example/mod.rs:89-115 | The reported price is positive and falls with the amount. |
| `RaydiumLaws.NoFeeDenominator` | src/example/mod.rs:106-115 | Without a fee denominator the price is that of a pool without a fee. |
| `RaydiumLaws.SwapMeanValue` | src/trading_venue/mod.rs:259-268 | The price brackets the realized rate of exact-in quotes up to one output atom and one input atom at the spot rate. |
| `RaydiumLaws.CurveMeanValueIff` | src/example/amm.rs:213-249 | Exactly when two outputs meet each half of the requirement without slack, from the remainders of both divisions at both amounts. |
| `RaydiumLaws.QuoteMeanValueIff` | src/trading_venue/mod.rs:259-268 | The same for any two valid quotes of a sound pool, and a condition on reserves and amounts alone under which they meet it. |
| `RaydiumLaws.ExactMeanValueFails` | src/trading_venue/mod.rs:259-268 | Two valid quotes of a sound pool that do not meet it. |
| `RaydiumLaws.ExactOutPanicsIff` | src/example/mod.rs:234-289 | Exactly when an exact-out request to a sound pool panics. |
| `RaydiumLaws.ExactOutRefusedIff` | src/example/amm.rs:202-208 | Exactly when one is refused because its quoted input reaches the output reserve. |
| `RaydiumLaws.ServableOutputIsRefused` | src/example/amm.rs:202-208 | A sound pool that refuses so an output it pays for that very input. |
| `RaydiumLaws.ExactInOutcome` | src/example/mod.rs:234-289 | The answer to every exact-in request to a sound pool, by the names of its tokens: which reserve is sold from and which bought from, which balance must have room, output, price and refusals. |
| `RaydiumLaws.ExactOutOutcome` | src/example/mod.rs:234-289 | The same for every exact-out request for a positive amount. |
| `RaydiumLaws.UninitializedIff` | src/example/mod.rs:234-238 | A pool answers that it is not initialised exactly before its first update. |
| `RaydiumLaws.ValidSwapShape` | src/example/mod.rs:234-289 | Exactly when a quote of a sound pool is valid; it never panics. |
| `RaydiumLaws.SlippageLowersOutput` | src/example/amm.rs:151-160 | The least acceptable output gives up the tolerated part, rounded up, and never panics. |
| `RaydiumLaws.SlippageRaisesInput` | src/example/amm.rs:136-150 | The largest acceptable input adds the tolerated part, rounded down, and aborts exactly when something does not fit 64 bits. |
| `RaydiumLaws.SlippageOutcome` | src/example/amm.rs:162-211 | A swap with slippage needs room beside the balance and answers the threshold of its kind below the output reserve. |
| `RaydiumLaws.SwapInMonotone` | src/example/amm.rs:213-249 | Exact-in stays possible and pays no less as the amount grows. |
| `RaydiumLaws.ValidSwapsAreContiguous` | src/example/mod.rs:234-289 | The validly quoted amounts form an interval along which the output rises. |
| `SwapRoute.EncodeSwapRouteV3Data` | src/swap_route/mod.rs:174-185 | The appending loop produces the encoding of the route. |
| `SwapRoute.DispatchRestoresMetas` | src/swap_route/mod.rs:145-168 | Clearing the TitanPDA's signature off-chain and restoring it on-chain yields the venue's metas. |
| `SwapRoute.RaydiumSwap` | program-template/programs/titan-v3-venue-template/src/instructions/venues/raydium_amm.rs:5-17 | The program's builder produces the data the off-chain encoder packs, with no least output. |
| `SwapRoute.HumaSwap` | program-template/programs/titan-v3-venue-template/src/instructions/venues/huma.rs:24-54 | The program's byte-by-byte builder produces the data the off-chain encoder packs. |
| `SwapRouteLaws.SwapRoundTrip` | program-template/programs/titan-v3-venue-template/src/state.rs:6-22 | Decoding one leg in the program's field order inverts its encoding. |
| `SwapRouteLaws.SwapCanonical` | program-template/programs/titan-v3-venue-template/src/state.rs:6-22 | Bytes that decode to a leg are that leg's encoding. |
| `SwapRouteLaws.RouteRoundTrip` | src/swap_route/mod.rs:174-185 | The program reads back exactly the encoded route and leaves trailing bytes untouched. |
| `SwapRouteLaws.RouteCanonical` | src/swap_route/mod.rs:174-185 | Whatever the program accepts is the encoding of what it read, followed by the rest. |
| `SwapRouteLaws.EncodingIsPrefixFree` | src/swap_route/mod.rs:174-185 | No route's encoding is a prefix of another's. |
| `SwapRouteLaws.LowByteFirst` | src/swap_route/mod.rs:174-185 | Numbers are encoded low byte first. |
| `SwapRouteLaws.LegLayout` | src/swap_route/mod.rs:50-80 | The bytes of a leg by position: venue tag, direction, indices, weight and account count. |
| `SwapRouteLaws.RouteLayout` | src/swap_route/mod.rs:174-185 | The bytes of a route by position: tag, amount, mints, number of legs, legs in order. |
| `SwapRouteLaws.CpiDataAgrees` | src/swap_route/mod.rs:84-105 | For every request a venue accepts, the data the program builds for the leg it maps to and any amount is that of the instruction the venue generates for that amount. |
| `SwapRouteLaws.PackIsInjective` | src/huma/instruction.rs:37-61 | Packed bytes determine the instruction and its amounts. |
| `SwapRouteLaws.PackSwapBaseInIsInjective` | src/example/raydium/instruction.rs:37-51 | Packed bytes determine both amounts. |
| `SwapRouteLaws.DepositLayout` | src/huma/instruction.rs:37-50 | A packed deposit is 34 bytes with the amount, the commitment's length and text, and no renewal at their positions. |
| `SwapRouteLaws.WithdrawLayout` | src/huma/venue.rs:732-742 | The venue's packed withdrawal is 24 bytes with the shares and the largest fee there is. |
| `SwapRouteLaws.SwapLayout` | src/example/raydium/instruction.rs:37-51 | A packed swap is 17 bytes with its tag, the amount, and no least output. |
| `SwapRouteLaws.GeneratesIff` | src/huma/venue.rs:715-745 | Which requests a venue builds an instruction for, and that its accounts are those of the way the request converts. |
| `SwapRouteLaws.LegCarriesItsRequest` | src/swap_route/mod.rs:120-168 | A leg is built exactly when its venue generates an instruction, with the indices, weight, venue and direction asked for and the instruction's accounts unsigned by the TitanPDA. |
| `SwapRouteLaws.LegIsRecovered` | src/swap_route/mod.rs:10-22 | Slicing the concatenated legs by their counts recovers each leg. |
| `SwapRouteLaws.LegCountIsExactIff` | src/swap_route/mod.rs:120-140 | A leg's 8-bit account count is exact exactly up to 255 accounts. |
| `Bitmap.TitanPdaBitmap.Set` | program-template/programs/titan-v3-venue-template/src/instructions/swap_route_v3.rs:679-683 | Setting an index adds it to the marked set, or does nothing from 256 on. |
| `Bitmap.TitanPdaBitmap.IsSet` | program-template/programs/titan-v3-venue-template/src/instructions/swap_route_v3.rs:685-687 | Reading an index tells whether it is marked. |
| `RouterLaws.CheckIsPointwise` | program-template/programs/titan-v3-venue-template/src/instructions/swap_route_v3.rs:131-148 | The check by bitmap and compact vector holds exactly when every recognised account below index 256 keeps its snapshot balance. |
| `RouterLaws.ValidatesIff` | program-template/programs/titan-v3-venue-template/src/instructions/swap_route_v3.rs:58-99 | Exactly which routes pass the checks on the arguments, and which error the others get. |
| `RouterLaws.RecordIsRead` | program-template/programs/titan-v3-venue-template/src/instructions/swap_route_v3.rs:357-389 | A record of eight bytes, the account's key and a balance reads as that balance. |
| `RouterLaws.RecordReadIff` | program-template/programs/titan-v3-venue-template/src/instructions/swap_route_v3.rs:357-389 | Exactly which records are read, and that the number read is bytes 40 to 47. |
| `RouterLaws.EffectiveAmountIff` | program-template/programs/titan-v3-venue-template/src/instructions/swap_route_v3.rs:150-160 | With a record the amount is the input account's gain since, which must be positive. |
| `RouterLaws.AnyVenueSafety` | program-template/programs/titan-v3-venue-template/src/instructions/swap_route_v3.rs:322-332 | Whatever the venues did, a successful route leaves every such account with at least its snapshot balance, whoever owns it by then. |
| `RouterLaws.CheckIgnoresAuthority` | program-template/programs/titan-v3-venue-template/src/instructions/swap_route_v3.rs:322-332 | A successful route on which a venue makes a TitanPDA account its own. |
| `RouterLaws.AuthorityPersists` | program-template/programs/titan-v3-venue-template/src/instructions/swap_route_v3.rs:131-332 | With venues that take no TitanPDA account over, every one of the snapshot is one at the end, unless the route created and closed it. |
| `RouterLaws.CreationAddsMissing` | program-template/programs/titan-v3-venue-template/src/instructions/swap_route_v3.rs:101-129 | Creation leaves existing accounts alone, creates empty TitanPDA accounts where missing, and all of the route's accounts exist afterwards. |
| `RouterLaws.LegKeepsReserves` | program-template/programs/titan-v3-venue-template/src/instructions/swap_route_v3.rs:207-251 | A leg of an honest venue takes no TitanPDA account below its reserve. |
| `RouterLaws.LegsKeepReserves` | program-template/programs/titan-v3-venue-template/src/instructions/swap_route_v3.rs:207-251 | Nor does any number of legs, whatever their weights. |
| `RouterLaws.LegSpendsItsShare` | program-template/programs/titan-v3-venue-template/src/instructions/swap_route_v3.rs:221-227 | The share of what is above the reserve, rounded down; full weight takes all of it. |
| `RouterLaws.LegIsStep` | program-template/programs/titan-v3-venue-template/src/instructions/swap_route_v3.rs:207-251 | A leg succeeds exactly with the ledger and call that its weight, its input account's balance above the reserve, its accounts and its venue determine: none where the share is below one atom, else one of the share rounded down. |
| `RouterLaws.LegFailsIff` | program-template/programs/titan-v3-venue-template/src/instructions/swap_route_v3.rs:208-220 | Exactly when a leg fails for each reason but its venue's. |
| `RouterLaws.LegsAreSteps` | program-template/programs/titan-v3-venue-template/src/instructions/swap_route_v3.rs:206-251 | Legs that succeed step through a sequence of ledgers, each from the one the leg before it left. |
| `RouterLaws.StepsAreLegs` | program-template/programs/titan-v3-venue-template/src/instructions/swap_route_v3.rs:206-251 | Legs that so step succeed, with exactly those calls. |
| `RouterLaws.RouteIsSteps` | program-template/programs/titan-v3-venue-template/src/instructions/swap_route_v3.rs:206-251 | On a successful route every leg dispatches its weight of what its input account then holds above its balance at the snapshot. |
| `RouterLaws.PaymentIsExact` | program-template/programs/titan-v3-venue-template/src/instructions/swap_route_v3.rs:150-205 | The first account gains exactly the effective amount; with a recorded balance the user's account is left at it; SOL is wrapped exactly as far as the input account lacks it, and an account created for that is gone afterwards. |
| `RouterLaws.SettlementIsExact` | program-template/programs/titan-v3-venue-template/src/instructions/swap_route_v3.rs:253-288 | The output account settles at exactly its reserve, the user gains exactly the excess, nothing else changes; all of it exactly unless both are one account. |
| `RouterLaws.ClosingKeepsHoldings` | program-template/programs/titan-v3-venue-template/src/instructions/swap_route_v3.rs:290-320 | Closing changes no holding, and every created account ends closed or holding something. |
| `RouterLaws.HonestRunSucceeds` | program-template/programs/titan-v3-venue-template/src/instructions/swap_route_v3.rs:131-332 | With honest venues reserves hold at every stage, settlement is exact, and the final check never fails. |
| `RouterLaws.HonestRunEnds` | program-template/programs/titan-v3-venue-template/src/instructions/swap_route_v3.rs:206-332 | Once paid into, such a route fails only for want of leg accounts, by a venue, or by the token program at settlement; balances can be read and created accounts closed. |
| `RouterLaws.LegsDispatchTheirSlices` | program-template/programs/titan-v3-venue-template/src/instructions/swap_route_v3.rs:207-251 | Every venue call passes its own leg's slice of the accounts, whichever earlier legs were skipped. |
| `RouterLaws.BuiltLegsAreDispatched` | program-template/programs/titan-v3-venue-template/src/instructions/swap_route_v3.rs:229-247 | On a route built off-chain every call is, in data and accounts, the instruction the leg's venue would generate for the amount moved, the TitanPDA signing, in leg order. |
| `RouterLaws.LegsCanBeBuilt` | src/swap_route/mod.rs:120-140 | Any requests their venues accept, of at most 254 accounts each, can be built into legs with the indices and weights asked for. |
| `LedgerLaws.AccountsByLength` | program-template/programs/titan-v3-venue-template/src/instructions/swap_route_v3.rs:621-668 | Which accounts exist, can be read and are token accounts, by their owner, lamports and length. |
| `LedgerLaws.TransferIff` | program-template/programs/titan-v3-venue-template/src/instructions/swap_route_v3.rs:403-457 | Exactly when a transfer succeeds; it moves the amount and changes nothing else. |
| `LedgerLaws.CreateAtaIff` | program-template/programs/titan-v3-venue-template/src/instructions/swap_route_v3.rs:459-515 | Creation succeeds exactly at the derived address and makes an empty account of the owner. |
| `LedgerLaws.DepositSolIff` | program-template/programs/titan-v3-venue-template/src/instructions/swap_route_v3.rs:599-619 | Exactly when SOL can be wrapped, and that only that balance grows. |
| `LedgerLaws.CloseIff` | program-template/programs/titan-v3-venue-template/src/instructions/swap_route_v3.rs:517-556 | Exactly when an account can be closed, and that only it goes. |
| `RouteOutcomes.CreationSucceedsIff` | program-template/programs/titan-v3-venue-template/src/instructions/swap_route_v3.rs:101-129 | Creation succeeds exactly when every missing account lies at the address derived from its own mint. |
| `RouteOutcomes.CreatedAreMissing` | program-template/programs/titan-v3-venue-template/src/instructions/swap_route_v3.rs:101-129 | Exactly the first missing account of each key is marked as created. |
| `RouteOutcomes.CreationMakes` | program-template/programs/titan-v3-venue-template/src/instructions/swap_route_v3.rs:101-129 | Each of them is empty, the TitanPDA's and of its mint; every other account stays as it was. |
| `RouteOutcomes.SetUpOutcome` | program-template/programs/titan-v3-venue-template/src/instructions/swap_route_v3.rs:558-597 | Exactly when the account for a payment in SOL can be prepared, what is wrapped, and whether it was made for it. |
| `RouteOutcomes.PaymentIff` | program-template/programs/titan-v3-venue-template/src/instructions/swap_route_v3.rs:162-205 | Exactly when the user can pay, in tokens or in SOL. |
| `RouteOutcomes.PaymentTouchesTwo` | program-template/programs/titan-v3-venue-template/src/instructions/swap_route_v3.rs:162-205 | No payment changes an account but the user's input account and the first TitanPDA account. |
| `RouteOutcomes.SettlementOutcome` | program-template/programs/titan-v3-venue-template/src/instructions/swap_route_v3.rs:253-288 | Exactly when a route settles whatever its venues did, and that exactly the excess of the output account moves. |
| `RouteOutcomes.ClosingOutcome` | program-template/programs/titan-v3-venue-template/src/instructions/swap_route_v3.rs:290-320 | Closing removes exactly the created accounts that hold nothing, and exactly when it fails. |
| `RouteOutcomes.RecognisedIff` | program-template/programs/titan-v3-venue-template/src/instructions/swap_route_v3.rs:131-148 | A route goes on exactly when each of its TitanPDA accounts is a token account of the TitanPDA. |
| `RouteOutcomes.FundingFails` | program-template/programs/titan-v3-venue-template/src/instructions/swap_route_v3.rs:58-205 | Which error a route that fails before its legs ends with. |
| `RouteOutcomes.RunIsStages` | program-template/programs/titan-v3-venue-template/src/instructions/swap_route_v3.rs:52-320 | The stages of a successful route lead from one to the next in order, on the amounts and output the arguments name. |
| `RouteOutcomes.ExecutesIff` | program-template/programs/titan-v3-venue-template/src/instructions/swap_route_v3.rs:322-335 | A route is executed exactly when it runs and every account that was the TitanPDA's at the snapshot, among the first 256, holds at least its balance then. |
| `RouterProgram.Program.CreateMissingAtas` | program-template/programs/titan-v3-venue-template/src/instructions/swap_route_v3.rs:101-129 | The creation loop leaves the specified ledger and set. |
| `RouterProgram.Program.SetUpWrapped` | program-template/programs/titan-v3-venue-template/src/instructions/swap_route_v3.rs:558-597 | Preparing the wrapped input account leaves the specified ledger and flag. |
| `RouterProgram.Program.TakePayment` | program-template/programs/titan-v3-venue-template/src/instructions/swap_route_v3.rs:172-205 | The payment leaves the specified ledger. |
| `RouterProgram.Program.Snapshot` | program-template/programs/titan-v3-venue-template/src/instructions/swap_route_v3.rs:131-148 | The snapshot loop fills bitmap, reserves and compact vector. |
| `RouterProgram.Program.RunAllLegs` | program-template/programs/titan-v3-venue-template/src/instructions/swap_route_v3.rs:206-251 | The leg loop leaves the specified ledger and calls. |
| `RouterProgram.Program.CloseEmpty` | program-template/programs/titan-v3-venue-template/src/instructions/swap_route_v3.rs:290-320 | The closing loop leaves the specified ledger. |
| `RouterProgram.Program.CheckReserves` | program-template/programs/titan-v3-venue-template/src/instructions/swap_route_v3.rs:322-332 | The checking loop decides the reserve check and never reads past the vector. |
| `RouterProgram.Program.Run` | program-template/programs/titan-v3-venue-template/src/instructions/swap_route_v3.rs:52-335 | The program leaves the specified ledger and calls, or returns the specified error. |
| `RpcCache.RunIsTransparent` | src/account_caching/rpc_cache.rs:56-160 | Over any run of calls every reply that is not a failure is the node's own answer, in length, order and value. |
| `RpcCache.RunRemembers` | src/account_caching/rpc_cache.rs:56-160 | Over any run from an empty cache every reply is determined by the calls since the last reset: a single lookup fails exactly when none of them brought its key in and the node cannot answer, a batch exactly when the node is down and one of its keys has no account among those brought in. |
| `RpcCache.CacheHoldsKnown` | src/account_caching/rpc_cache.rs:56-160 | The cache holds exactly the keys brought in since the last reset, each with the node's answer. |
| `RpcCache.BatchFailsIff` | src/account_caching/rpc_cache.rs:114-147 | A batch fails exactly when the node is down and some key has no account in the cache. |
| `RpcCache.RpcClientCache.GetMultiple` | src/account_caching/rpc_cache.rs:67-78 | Reads cached accounts in order, missing and unknown alike as absent. |
| `RpcCache.RpcClientCache.GetAccount` | src/account_caching/rpc_cache.rs:89-104 | Replies and updates the cache as specified. |
| `RpcCache.RpcClientCache.GetAccounts` | src/account_caching/rpc_cache.rs:114-160 | Splits, fetches and reassembles as specified; every key is found. |

## Left out

- HumaFee.ComputeInstantWithdrawalFee: an overflow ends in `Abort` as in a checked build; a release build wraps instead. For progressive tiers neither happens.
- HumaQuoteLaws.WithdrawQuoteIsSound: the 128-bit sum over the modes ends in `Panic` as in a checked build; a release build wraps instead.
- VenueBounds.HumaWithdrawBounds: supposes, as `HumaDepositBounds` does, that this sum fits; otherwise the first quote with a positive amount panics, and the search with it.
- RouterProgram.Program.Run: the mask of created accounts is a set of indices, decimals are only checked to be readable, and the runtime's rollback of a failed transaction is not repeated in the class.
- RouterLaws.PaymentIsExact: SOL sent to a wrapped account other than by the route is not counted there, though a synchronisation would count it.
- Bitmap.TitanPdaBitmap.Set: words are numbers with bits taken by halving, not machine words.
- RouterLaws.AnyVenueSafety: speaks of balances, as the check it rests on does; `RouterLaws.CheckIgnoresAuthority` shows that the owner of an account may change under it, and `RouterLaws.AuthorityPersists` under which venues it does not.
- RouterLaws.HonestRunSucceeds: supposes, as `HonestRunEnds` and `AuthorityPersists` do, that the user is not the TitanPDA itself, which cannot sign a transaction, and that accounts holding data pay their rent.
- Floating point: prices are exact rationals, and `ModeState::refreshed_assets`, compound growth in floating point, is an input of the quote.
- Token-2022 transfer fees, decimals in the token program, and rent payments: transfers move the amount they name.
- Merging of signer and writable flags for repeated keys by the runtime: account metas reach the program as they were built.
- Derivation of addresses and discriminators: keys are opaque, and off-chain and on-chain discriminators are taken to agree.
- Account decoding, pool creation parsers, lookup tables, token metadata and status flags: each is settled by reading one branch.
- `update_state` of the venues and the lending strategies: the decoded state and the strategy's liquidity are inputs.
- Account lists of the venues' own instructions: opaque sequences of metas.
- Asynchrony and concurrent access to the cache: calls happen one after another against a node with fixed answers.
- What the venues' own on-chain programs do with a call: they are arbitrary, or honest where a theorem says so; that quotes equal their execution is not claimed.
