/** The constant-product venue: fee, swap in both directions, and quote. */
module Raydium {
  import opened Numbers
  import opened Quoting

  datatype Direction = PC2Coin | Coin2PC

  lemma CeilOfInexact(n: nat, d: nat)
    requires d > 0
    ensures n % d != 0 ==> DivCeil(n, d) == n / d + 1
  {
  }

  /** Rounded-up quotients of a dividend no smaller than the divisor stay within range. */
  lemma Quotients(n: nat, d: nat)
    requires 0 < d <= n
    ensures 0 < n / d <= n && 0 < DivCeil(n, d) <= n
    ensures 0 < DivCeil(n, DivCeil(n, d)) <= d
    ensures n % d != 0 ==> DivCeil(n, d) == n / d + 1
  {
    hide DivCeil;
    FloorAtLeast(n, d, 1);
    FloorAtLeast(n, d, n + 1);
    Distribute(n, 1, d);
    Scale(n, 1, d);
    CeilBounds(n, d);
    CeilAtMost(n, d, n);
    CeilBounds(n, DivCeil(n, d));
    CeilAtMost(n, DivCeil(n, d), d);
    assert n % d != 0 ==> DivCeil(n, d) == n / d + 1 by { CeilOfInexact(n, d); }
  }

  /** `checked_ceil_div`: a quotient rounded up, with the divisor recomputed from it.  A
      dividend below the divisor is rounded to the nearest of 0 and 1 instead, with no
      divisor.  None on division by zero, and where doubling the dividend overflows. */
  function CeilDivision(n: u128, d: u128): Option<(u128, u128)> {
    if d == 0 then None
    else if n < d then
      if 2 * n >= TWO_128 then None
      else if 2 * n >= d then Some((1, 0))
      else Some((0, 0))
    else if n % d == 0 then
      Quotients(n, d);
      Some((n / d, d))
    else
      Quotients(n, d);
      Some((DivCeil(n, d), DivCeil(n, DivCeil(n, d))))
  }

  /** The division as the program computes it, updating quotient and divisor in turn. */
  method CheckedCeilDiv(n: u128, d: u128) returns (r: Option<(u128, u128)>)
    ensures r == CeilDivision(n, d)
  {
    var rhs: u128 := d;
    if rhs == 0 {
      return None;
    }
    FloorAtLeast(n, d, 1);
    var quotient: u128 := n / rhs;
    if quotient == 0 {
      if n * 2 >= TWO_128 {
        return None;
      }
      return Some(if n * 2 >= rhs then (1, 0) else (0, 0));
    }
    Quotients(n, d);
    if n % rhs > 0 {
      quotient := quotient + 1;
      rhs := n / quotient;
      if n % quotient > 0 {
        rhs := rhs + 1;
      }
    }
    r := Some((quotient, rhs));
  }

  // ------------------------------------------------------------------------------------
  // The curve, with X the reserve of the token sold and Y that of the token bought
  // ------------------------------------------------------------------------------------

  function InputReserve(pc: u64, coin: u64, direction: Direction): u64 {
    if direction.Coin2PC? then coin else pc
  }

  function OutputReserve(pc: u64, coin: u64, direction: Direction): u64 {
    if direction.Coin2PC? then pc else coin
  }

  /** `swap_token_amount_base_in`; None where its division by zero panics. */
  function BaseIn(x: u64, inputReserve: u64, outputReserve: u64): Option<nat> {
    if inputReserve + x == 0 then None else Some(MulDiv(outputReserve, x, inputReserve + x))
  }

  lemma ProductFits(a: u64, b: u64)
    ensures a * b < TWO_128
  {
    Scale(a, b, U64_MAX);
    Scale(U64_MAX, a, U64_MAX);
  }

  /** `a * b` in 128 bits */
  function Times(a: u64, b: u64): u128 {
    ProductFits(a, b);
    a * b
  }

  /** `swap_token_amount_base_out`; None where the unwrap of its subtraction or division panics. */
  function BaseOut(out: u64, inputReserve: u64, outputReserve: u64): Option<u128> {
    if out > outputReserve then None
    else
      var r := CeilDivision(Times(inputReserve, out), outputReserve - out);
      if r.None? then None else Some(r.value.0)
  }

  datatype SwapResult = Amount(value: u64) | Failed(error: QuoteError) | Aborted

  /** `as_u64`, which panics on overflow. */
  function AsU64(x: nat): SwapResult {
    if x <= U64_MAX then Amount(x) else Aborted
  }

  /** The fee on an exact input. */
  function InputFee(amount: u64, num: u64, den: u64): Option<u128> {
    var r := CeilDivision(Times(amount, num), den);
    if r.None? then None else Some(r.value.0)
  }

  /** `swap_exact_amount` in base-in mode */
  function SwapIn(inputReserve: u64, outputReserve: u64, num: u64, den: u64, amount: u64): SwapResult {
    var fee := InputFee(amount, num, den);
    if fee.None? || fee.value == 0 || fee.value > amount then Failed(MathError)
    else
      var out := BaseIn(amount - fee.value, inputReserve, outputReserve);
      if out.None? then Aborted else AsU64(out.value)
  }

  /** `swap_exact_amount` in base-out mode */
  function SwapOut(inputReserve: u64, outputReserve: u64, num: u64, den: u64, amount: u64): SwapResult {
    var before := BaseOut(amount, inputReserve, outputReserve);
    if before.None? then Aborted
    else if before.value * den >= TWO_128 || den < num then Failed(MathError)
    else
      var after := CeilDivision(before.value * den, den - num);
      if after.None? then Failed(MathError) else AsU64(after.value.0)
  }

  function SwapExactAmount(pc: u64, coin: u64, num: u64, den: u64, direction: Direction,
                           amount: u64, baseIn: bool): SwapResult {
    var x, y := InputReserve(pc, coin, direction), OutputReserve(pc, coin, direction);
    if baseIn then SwapIn(x, y, num, den, amount) else SwapOut(x, y, num, den, amount)
  }

  const TEN_THOUSAND: nat := 10_000

  function MinAmountWithSlippage(amount: u64, slippageBps: u64): SwapResult {
    AsU64(MulDiv(amount, SatSub(TEN_THOUSAND, slippageBps), TEN_THOUSAND))
  }

  function MaxAmountWithSlippage(amount: u64, slippageBps: u64): SwapResult {
    if TEN_THOUSAND + slippageBps > U64_MAX then Aborted
    else AsU64(MulDiv(amount, TEN_THOUSAND + slippageBps, TEN_THOUSAND))
  }

  /** `swap_with_slippage` */
  function SwapWithSlippage(pcAmount: u64, coinAmount: u64, pc: u64, coin: u64, num: u64, den: u64,
                            direction: Direction, amount: u64, baseIn: bool, slippageBps: u64): SwapResult {
    if InputReserve(pcAmount, coinAmount, direction) + amount > U64_MAX then Failed(MathError)
    else
      var exact := SwapExactAmount(pc, coin, num, den, direction, amount, baseIn);
      if !exact.Amount? then exact
      else
        var threshold := if baseIn then MinAmountWithSlippage(exact.value, slippageBps)
                         else MaxAmountWithSlippage(exact.value, slippageBps);
        if !threshold.Amount? then threshold
        else if threshold.value >= OutputReserve(pc, coin, direction) then Failed(OutputExceedsTolerance)
        else threshold
  }

  // ------------------------------------------------------------------------------------
  // The venue
  // ------------------------------------------------------------------------------------

  datatype Reserves = Reserves(pc: u64, coin: u64, num: u64, den: u64)

  /** `reserves` is known after the first update; the balances are the raw vault balances. */
  datatype Venue = Venue(pcMint: Key, coinMint: Key, reserves: Option<Reserves>, pcBalance: u64, coinBalance: u64)

  /** The derivative of Y x' / (X + x') at the amount, where x' is the amount less the fee
      fraction num / den. */
  function PriceAt(inputReserve: u64, outputReserve: u64, num: u64, den: u64, amount: u64): Rate {
    var d := if den == 0 then 1 else den;
    var keep := if den == 0 then 1 else den - num;
    var w := inputReserve * d + keep * amount;
    Rate(outputReserve * keep * (inputReserve * d), w * w)
  }

  function DirectionOf(v: Venue, inputMint: Key, outputMint: Key): Option<Direction> {
    if inputMint == v.pcMint && outputMint == v.coinMint then Some(PC2Coin)
    else if inputMint == v.coinMint && outputMint == v.pcMint then Some(Coin2PC)
    else None
  }

  /** `quote` */
  function QuoteRequest(v: Venue, r: Request): QuoteResult {
    if v.reserves.None? then Err(NotInitialized)
    else
      var direction := DirectionOf(v, r.inputMint, r.outputMint);
      if direction.None? then Err(InvalidMint)
      else
        var a := v.reserves.value;
        var x, y := InputReserve(a.pc, a.coin, direction.value), OutputReserve(a.pc, a.coin, direction.value);
        if r.amount == 0 then Ok(Quote(0, 0, false, PriceAt(x, y, a.num, a.den, 0)))
        else
          match SwapWithSlippage(v.pcBalance, v.coinBalance, a.pc, a.coin, a.num, a.den,
                                 direction.value, r.amount, r.exactIn, 0)
          case Failed(e) => Err(e)
          case Aborted => Panic
          case Amount(out) => Ok(Quote(r.amount, out, false, PriceAt(x, y, a.num, a.den, r.amount)))
  }
}
