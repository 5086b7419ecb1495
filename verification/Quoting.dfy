/** What a venue answers when asked for a quote. */
module Quoting {
  import opened Numbers

  /** A rational: output atoms per input atom. */
  datatype Rate = Rate(num: int, den: int) {
    ghost predicate Positive() {
      num > 0 && den > 0
    }

    ghost predicate AtMost(other: Rate) {
      num * other.den <= other.num * den
    }
  }

  datatype QuoteError =
    | ExactOutNotSupported | InactivePool | InvalidMint | NotInitialized
    | BelowMinimum | CapReached | ZeroShares | NotAvailable | Stale | WindowLimit
    | MathError | OutputExceedsTolerance

  datatype Quote = Quote(amount: u64, output: u64, notEnoughLiquidity: bool, price: Rate)

  /** `Panic` stands for an arithmetic fault or a failed unwrap. */
  datatype QuoteResult = Ok(quote: Quote) | Err(error: QuoteError) | Panic

  /** `valid_quote`, on a result that may be an error. */
  predicate Valid(r: QuoteResult) {
    r.Ok? && !r.quote.notEnoughLiquidity && r.quote.output > 0
  }

  /** Between a smaller and a larger amount, the realized rate is at most the smaller one's
      price. */
  predicate ChordAtMostFirst(a: Quote, b: Quote) {
    (b.output - a.output) * a.price.den <= (b.amount - a.amount) * a.price.num
  }

  /** The realized rate is at least the larger one's price. */
  predicate ChordAtLeastLast(a: Quote, b: Quote) {
    (b.amount - a.amount) * b.price.num <= (b.output - a.output) * b.price.den
  }

  /** The documented mean value requirement, which allows no slack. */
  predicate MeanValue(a: Quote, b: Quote) {
    ChordAtMostFirst(a, b) && ChordAtLeastLast(a, b)
  }

  type Key = nat

  datatype Request = Request(inputMint: Key, outputMint: Key, amount: u64, exactIn: bool)
}
