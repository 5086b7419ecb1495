/**
 The route program as a function of its accounts: snapshot, transfer in, weighted legs
 through the venues' own programs, settlement, closing, and the final reserve check.
 */
module Router {
  import opened Numbers
  import opened Quoting
  import opened SwapRoute
  import opened Ledger

  const MAX_SWAPS: nat := 12
  const MAX_MINTS: nat := 12
  const ALL_NANOS: nat := 1_000_000_000

  datatype Error =
    | InvalidSwapInput | MissingRemainingAccount | InvalidAccountData
    | TokenProgramFailed | VenueFailed | ReservedBalanceViolation

  datatype Outcome<+T> = Success(value: T) | Failure(error: Error) {
    predicate IsFailure() {
      Failure?
    }
    function PropagateFailure<U>(): Outcome<U>
      requires Failure?
    {
      Failure(error)
    }
    function Extract(): T
      requires Success?
    {
      value
    }
  }

  /** A call of a venue's program: amount, direction data, metas and the accounts passed. */
  datatype Dispatch = Dispatch(amount: u64, venue: VenueId, metas: seq<Meta>, infos: seq<Meta>)

  /** Everything outside the program: the keys and accounts it is called with, the data of the
      optional ledger of the input account, the addresses of associated token accounts, whether
      the user has an amount of SOL, and what the k-th leg's venue does to the accounts (None
      where it fails). Nothing is assumed of the venue. */
  datatype Context = Context(
    titan: Key, user: Key, inputAccount: Key, outputAccount: Key,
    ledgerData: Option<bytes>, accounts: seq<Meta>, nativeMint: Key,
    titanAta: Key -> Key, userAta: Key -> Key, hasSol: (Accounts, u64) -> bool,
    venue: (Accounts, nat, Dispatch) -> Option<Accounts>)

  /** The route's TitanPDA account and mint for index i. */
  function AtaKey(c: Context, i: nat): Key
    requires i < |c.accounts|
  {
    c.accounts[i].key
  }

  function Require(condition: bool, error: Error): Outcome<()> {
    if condition then Success(()) else Failure(error)
  }

  predicate IndicesInRange(swaps: seq<Swap>, mints: nat) {
    forall s :: s in swaps ==> s.from < mints && s.to < mints
  }

  /** `read_token_ledger`: the recorded balance of the input account, if there is a ledger; a
      key is the number its 32 bytes spell. */
  function ReadTokenLedger(c: Context): Outcome<Option<u64>> {
    match c.ledgerData
    case None => Success(None)
    case Some(data) =>
      var _ :- Require(|data| >= 48, InvalidAccountData);
      var _ :- Require(FromLittleEndian(data[8..40]) == c.inputAccount, InvalidAccountData);
      NumberFits(data[40..48]);
      Success(Some(FromLittleEndian(data[40..48])))
  }

  /** What the checks on the arguments establish. */
  predicate Routable(c: Context, mints: nat, swaps: seq<Swap>) {
    mints > 1 && 2 * mints <= |c.accounts| && swaps != [] && IndicesInRange(swaps, mints)
  }

  /** The checks on the arguments, in order, and the recorded balance. */
  function Validate(c: Context, l: Accounts, mints: u8, swaps: seq<Swap>): (r: Outcome<Option<u64>>)
    ensures r.Success? ==> Routable(c, mints, swaps) && mints <= MAX_MINTS
  {
    var _ :- Require(mints > 1 && swaps != [], InvalidSwapInput);
    var _ :- Require(|swaps| <= MAX_SWAPS, InvalidSwapInput);
    var _ :- Require(mints <= MAX_MINTS, InvalidSwapInput);
    var _ :- Require(|c.accounts| >= 2 * mints, MissingRemainingAccount);
    var _ :- Require(swaps[0].from == 0, InvalidSwapInput);
    var _ :- Require(IndicesInRange(swaps, mints), InvalidSwapInput);
    var recorded :- ReadTokenLedger(c);
    var output := swaps[|swaps| - 1].to;
    assert swaps[|swaps| - 1] in swaps;
    var _ :- Require(At(l, c.accounts[mints].key).dataLen > 44, InvalidAccountData);
    var _ :- Require(At(l, c.accounts[mints + output].key).dataLen > 44, InvalidAccountData);
    Success(recorded)
  }

  /** Missing TitanPDA accounts from index i on are created; the set tells which. */
  function CreateAtas(c: Context, l: Accounts, mints: nat, i: nat, created: set<nat>): Outcome<(Accounts, set<nat>)>
    requires i <= mints && 2 * mints <= |c.accounts|
    decreases mints - i
  {
    if i == mints then Success((l, created))
    else if Exists(At(l, AtaKey(c, i))) then CreateAtas(c, l, mints, i + 1, created)
    else
      var mint := c.accounts[mints + i].key;
      match CreateAta(l, AtaKey(c, i), c.titanAta(mint), c.titan, mint)
      case None => Failure(TokenProgramFailed)
      case Some(l') => CreateAtas(c, l', mints, i + 1, created + {i})
  }

  /** Account i is a token account of the TitanPDA. */
  predicate Recognised(c: Context, l: Accounts, i: nat)
    requires i < |c.accounts|
  {
    OwnedBy(At(l, c.accounts[i].key), c.titan)
  }

  /** Balances of the recognised accounts from index i on, in order and without gaps. */
  function CompactBalances(c: Context, l: Accounts, i: nat): seq<u64>
    requires i <= |c.accounts|
    decreases |c.accounts| - i
  {
    if i == |c.accounts| then []
    else if Recognised(c, l, i) then [At(l, c.accounts[i].key).amount] + CompactBalances(c, l, i + 1)
    else CompactBalances(c, l, i + 1)
  }

  /** Balances of the route's own accounts. */
  function Reserves(c: Context, l: Accounts, mints: nat): (r: seq<u64>)
    requires mints <= |c.accounts|
    ensures |r| == mints
  {
    seq(mints, i requires 0 <= i < mints => At(l, AtaKey(c, i)).amount)
  }

  predicate AllRecognised(c: Context, l: Accounts, mints: nat)
    requires mints <= |c.accounts|
  {
    forall i :: 0 <= i < mints ==> Recognised(c, l, i)
  }

  /** The amount transferred in: the input account's gain over a recorded amount, if any. */
  function EffectiveAmount(c: Context, l: Accounts, recorded: Option<u64>, amount: u64): Outcome<u64> {
    if recorded.None? then Success(amount)
    else
      match AmountOf(At(l, c.inputAccount))
      case None => Failure(InvalidAccountData)
      case Some(current) =>
        if current <= recorded.value then Failure(InvalidAccountData)
        else Success(current - recorded.value)
  }

  /** `transfer_sol_and_sync` from the user to the input account */
  function Wrap(c: Context, l: Accounts, amount: u64): Outcome<Accounts> {
    match if amount == 0 || c.hasSol(l, amount) then DepositSol(l, c.inputAccount, c.nativeMint, amount) else None
    case None => Failure(TokenProgramFailed)
    case Some(l') => Success(l')
  }

  /** `setup_wsol_input_account`: an existing input account is topped up to the amount, a
      missing one is created and filled; the flag tells which. */
  function SetUpWrappedInput(c: Context, l: Accounts, mint: Key, amount: u64): Outcome<(Accounts, bool)> {
    if Exists(At(l, c.inputAccount)) then
      match AmountOf(At(l, c.inputAccount))
      case None => Failure(InvalidAccountData)
      case Some(current) =>
        var l' :- Wrap(c, l, SatSub(amount, current));
        Success((l', false))
    else
      match CreateAta(l, c.inputAccount, c.userAta(mint), c.user, mint)
      case None => Failure(TokenProgramFailed)
      case Some(created) =>
        var l' :- Wrap(c, created, amount);
        Success((l', true))
  }

  /** The payment is made in SOL the program wraps. */
  predicate PaysInSol(c: Context, mints: nat, recorded: Option<u64>)
    requires mints < |c.accounts|
  {
    recorded.None? && c.accounts[mints].key == c.nativeMint
  }

  /** The user's payment into the first TitanPDA account; an input account created for it is
      closed again. */
  function Pay(c: Context, l: Accounts, mints: nat, recorded: Option<u64>, amount: u64): Outcome<Accounts>
    requires 0 < mints < |c.accounts|
  {
    var ready :- if PaysInSol(c, mints, recorded) then SetUpWrappedInput(c, l, c.accounts[mints].key, amount)
                 else Success((l, false));
    match Transfer(ready.0, c.inputAccount, AtaKey(c, 0), c.user, amount)
    case None => Failure(TokenProgramFailed)
    case Some(paid) =>
      match if ready.1 then CloseWrapped(paid, c.inputAccount, c.user) else Some(paid)
      case None => Failure(TokenProgramFailed)
      case Some(l') => Success(l')
  }

  /** The part of the balance above the reserve that a leg spends. */
  function LegInput(balance: u64, reserve: u64, weightNanos: u32): (amount: u64)
    ensures amount <= SatSub(balance, reserve)
  {
    MulDivAtMost(SatSub(balance, reserve), Min(weightNanos, ALL_NANOS), ALL_NANOS);
    MulDiv(SatSub(balance, reserve), Min(weightNanos, ALL_NANOS), ALL_NANOS)
  }

  /** The leg's accounts start at `offset`. */
  function DispatchOf(c: Context, swap: Swap, offset: nat, amount: u64): Dispatch
    requires swap.nAccounts > 0 && offset + swap.nAccounts <= |c.accounts|
  {
    var leg := c.accounts[offset..][..swap.nAccounts];
    Dispatch(amount, swap.venue, DispatchMetas(leg, c.titan), leg)
  }

  /** One leg: how much it spends, and what its venue leaves. */
  function RunLeg(c: Context, l: Accounts, reserves: seq<u64>, k: nat, swap: Swap, offset: nat)
    : Outcome<(Accounts, seq<(nat, Dispatch)>)>
    requires |reserves| <= |c.accounts| && swap.from < |reserves|
  {
    if swap.nAccounts == 0 then Failure(InvalidSwapInput)
    else if offset + swap.nAccounts > |c.accounts| then Failure(MissingRemainingAccount)
    else
      match AmountOf(At(l, AtaKey(c, swap.from)))
      case None => Failure(InvalidAccountData)
      case Some(balance) =>
        var input := LegInput(balance, reserves[swap.from], swap.weightNanos);
        if input == 0 then Success((l, []))
        else
          var d := DispatchOf(c, swap, offset, input);
          match c.venue(l, k, d)
          case None => Failure(VenueFailed)
          case Some(l') => Success((l', [(k, d)]))
  }

  /** The legs from index k on, with a log of the venue calls. */
  function RunLegs(c: Context, l: Accounts, reserves: seq<u64>, swaps: seq<Swap>, k: nat, offset: nat)
    : Outcome<(Accounts, seq<(nat, Dispatch)>)>
    requires |reserves| <= |c.accounts| && k <= |swaps| && IndicesInRange(swaps, |reserves|)
    decreases |swaps| - k
  {
    if k == |swaps| then Success((l, []))
    else
      assert swaps[k] in swaps;
      var leg :- RunLeg(c, l, reserves, k, swaps[k], offset);
      var rest :- RunLegs(c, leg.0, reserves, swaps, k + 1, offset + swaps[k].nAccounts);
      Success((rest.0, leg.1 + rest.1))
  }

  /** Everything above the reserve of the output account goes to the user. */
  function Settle(c: Context, l: Accounts, mints: nat, output: nat, reserve: u64): Outcome<Accounts>
    requires output < mints && 2 * mints <= |c.accounts|
  {
    match AmountOf(At(l, AtaKey(c, output)))
    case None => Failure(InvalidAccountData)
    case Some(raw) =>
      var mint := c.accounts[mints + output].key;
      var ready := if Exists(At(l, c.outputAccount)) then Some(l)
                   else CreateAta(l, c.outputAccount, c.userAta(mint), c.user, mint);
      if ready.None? then Failure(TokenProgramFailed)
      else
        match Transfer(ready.value, AtaKey(c, output), c.outputAccount, c.titan, SatSub(raw, reserve))
        case None => Failure(TokenProgramFailed)
        case Some(l') => Success(l')
  }

  /** Created accounts from index i on that hold nothing are closed. */
  function CloseCreated(c: Context, l: Accounts, mints: nat, i: nat, created: set<nat>): Outcome<Accounts>
    requires i <= mints <= |c.accounts|
    decreases mints - i
  {
    if i == mints then Success(l)
    else if i !in created || Holding(l, AtaKey(c, i)) > 0 then CloseCreated(c, l, mints, i + 1, created)
    else
      match Close(l, AtaKey(c, i), c.titan)
      case None => Failure(TokenProgramFailed)
      case Some(l') => CloseCreated(c, l', mints, i + 1, created)
  }

  /** The bitmap remembers recognised accounts below index 256 only. */
  predicate Marked(c: Context, l: Accounts, i: nat)
    requires i < |c.accounts|
  {
    i < 256 && Recognised(c, l, i)
  }

  /** The final check from index i on: each marked account against the next entry of the
      compact vector. `snapshot` is the ledger the bitmap was taken from. Reading past the
      vector would panic. */
  predicate ReservesHold(c: Context, snapshot: Accounts, final: Accounts, balances: seq<u64>, i: nat, idx: nat)
    requires i <= |c.accounts|
    decreases |c.accounts| - i
  {
    if i == |c.accounts| then true
    else if Marked(c, snapshot, i) then
      idx < |balances| && Holding(final, c.accounts[i].key) >= balances[idx]
      && ReservesHold(c, snapshot, final, balances, i + 1, idx + 1)
    else ReservesHold(c, snapshot, final, balances, i + 1, idx)
  }

  /** The route's output account by index. */
  function OutputIndex(c: Context, mints: nat, swaps: seq<Swap>): (i: nat)
    requires Routable(c, mints, swaps)
    ensures i < mints
  {
    assert swaps[|swaps| - 1] in swaps;
    swaps[|swaps| - 1].to
  }

  /** The ledger at the snapshot, what was created for it, and the ledger once paid into. */
  datatype Funding = Funding(snapshot: Accounts, created: set<nat>, funded: Accounts)

  /** Everything before the legs. */
  function Fund(c: Context, l: Accounts, amount: u64, mints: u8, swaps: seq<Swap>): (r: Outcome<Funding>)
    ensures r.Success? ==> Routable(c, mints, swaps)
  {
    var recorded :- Validate(c, l, mints, swaps);
    var created :- CreateAtas(c, l, mints, 0, {});
    var s := created.0;
    var _ :- Require(AllRecognised(c, s, mints), InvalidAccountData);
    var effective :- EffectiveAmount(c, s, recorded, amount);
    var funded :- Pay(c, s, mints, recorded, effective);
    Success(Funding(s, created.1, funded))
  }

  /** The legs of a funded route. */
  function Trade(c: Context, f: Funding, mints: nat, swaps: seq<Swap>): Outcome<(Accounts, seq<(nat, Dispatch)>)>
    requires Routable(c, mints, swaps)
  {
    RunLegs(c, f.funded, Reserves(c, f.snapshot, mints), swaps, 0, 2 * mints)
  }

  /** The settlement of a traded route. */
  function SettleRoute(c: Context, f: Funding, traded: Accounts, mints: nat, swaps: seq<Swap>): Outcome<Accounts>
    requires Routable(c, mints, swaps)
  {
    var output := OutputIndex(c, mints, swaps);
    Settle(c, traded, mints, output, At(f.snapshot, AtaKey(c, output)).amount)
  }

  /** The ledger after each stage of a route that got that far. */
  datatype Stages = Stages(snapshot: Accounts, created: set<nat>, funded: Accounts,
                           traded: Accounts, settled: Accounts, final: Accounts,
                           log: seq<(nat, Dispatch)>)

  /** All stages up to the final check. */
  function Run(c: Context, l: Accounts, amount: u64, mints: u8, swaps: seq<Swap>): (r: Outcome<Stages>)
    ensures r.Success? ==> Routable(c, mints, swaps)
  {
    var f :- Fund(c, l, amount, mints, swaps);
    var traded :- Trade(c, f, mints, swaps);
    var settled :- SettleRoute(c, f, traded.0, mints, swaps);
    var final :- CloseCreated(c, settled, mints, 0, f.created);
    Success(Stages(f.snapshot, f.created, f.funded, traded.0, settled, final, traded.1))
  }

  /** `execute` */
  function Execute(c: Context, l: Accounts, amount: u64, mints: u8, swaps: seq<Swap>): Outcome<Stages> {
    var stages :- Run(c, l, amount, mints, swaps);
    if ReservesHold(c, stages.snapshot, stages.final, CompactBalances(c, stages.snapshot, 0), 0, 0)
    then Success(stages)
    else Failure(ReservedBalanceViolation)
  }
}
