/** What each stage of a route does and when it fails, for any venues. */
module RouteOutcomes {
  import opened Numbers
  import opened Quoting
  import opened SwapRoute
  import opened SwapRouteLaws
  import opened Ledger
  import opened LedgerLaws
  import opened Router
  import opened RouterLaws

  // ------------------------------------------------------------------------------------
  // Creation
  // ------------------------------------------------------------------------------------

  /** Account j of the route is missing, and no earlier one is the same. */
  predicate FirstMissing(c: Context, l: Accounts, i: nat, j: nat)
    requires j < |c.accounts|
  {
    && !Exists(At(l, AtaKey(c, j)))
    && forall k :: i <= k < j ==> AtaKey(c, k) != AtaKey(c, j)
  }

  /** The address derived for account j from its mint. */
  function DerivedAta(c: Context, mints: nat, j: nat): Key
    requires j < mints && 2 * mints <= |c.accounts|
  {
    c.titanAta(c.accounts[mints + j].key)
  }

  lemma PastExisting(c: Context, l: Accounts, i: nat, j: nat)
    requires i < j < |c.accounts| && Exists(At(l, AtaKey(c, i)))
    ensures FirstMissing(c, l, i, j) <==> FirstMissing(c, l, i + 1, j)
  {
  }

  /** The empty account made for index i. */
  function Made(c: Context, mints: nat, i: nat): Account
    requires i < mints && 2 * mints <= |c.accounts|
  {
    Account(true, true, 165, c.titan, c.accounts[mints + i].key, 0)
  }

  lemma PastCreated(c: Context, l: Accounts, mints: nat, i: nat, j: nat)
    requires i < j < mints && 2 * mints <= |c.accounts| && !Exists(At(l, AtaKey(c, i)))
    ensures FirstMissing(c, l, i, j) <==> FirstMissing(c, l[AtaKey(c, i) := Made(c, mints, i)], i + 1, j)
  {
  }

  /** One step of creation. */
  lemma CreationStep(c: Context, l: Accounts, mints: nat, i: nat, created: set<nat>)
    requires i < mints && 2 * mints <= |c.accounts|
    ensures FirstMissing(c, l, i, i) <==> !Exists(At(l, AtaKey(c, i)))
    ensures CreateAtas(c, l, mints, i, created)
         == if Exists(At(l, AtaKey(c, i))) then CreateAtas(c, l, mints, i + 1, created)
            else if DerivedAta(c, mints, i) != AtaKey(c, i) then Failure(TokenProgramFailed)
            else CreateAtas(c, l[AtaKey(c, i) := Made(c, mints, i)], mints, i + 1, created + {i})
  {
    hide Exists;
  }

  /** Creation of the accounts from index i on succeeds exactly when every missing one lies at the
      address derived from its own mint. */
  lemma {:induction false} CreationSucceedsIff(c: Context, l: Accounts, mints: nat, i: nat, created: set<nat>)
    requires i <= mints && 2 * mints <= |c.accounts|
    ensures CreateAtas(c, l, mints, i, created).Success? <==>
            forall j :: i <= j < mints && FirstMissing(c, l, i, j) ==> DerivedAta(c, mints, j) == AtaKey(c, j)
    ensures CreateAtas(c, l, mints, i, created).Failure? ==>
              CreateAtas(c, l, mints, i, created).error == TokenProgramFailed
    decreases mints - i
  {
    if i < mints {
      CreationStep(c, l, mints, i, created);
      var l' := l[AtaKey(c, i) := Made(c, mints, i)];
      forall j | i < j < mints
        ensures Exists(At(l, AtaKey(c, i))) ==> (FirstMissing(c, l, i, j) <==> FirstMissing(c, l, i + 1, j))
        ensures !Exists(At(l, AtaKey(c, i))) ==> (FirstMissing(c, l, i, j) <==> FirstMissing(c, l', i + 1, j))
      {
        if Exists(At(l, AtaKey(c, i))) {
          PastExisting(c, l, i, j);
        } else {
          PastCreated(c, l, mints, i, j);
        }
      }
      hide FirstMissing, Exists, CreateAtas, DerivedAta, Made;
      if Exists(At(l, AtaKey(c, i))) {
        CreationSucceedsIff(c, l, mints, i + 1, created);
      } else if DerivedAta(c, mints, i) == AtaKey(c, i) {
        CreationSucceedsIff(c, l', mints, i + 1, created + {i});
      }
    }
  }

  /** Exactly the missing accounts are created. */
  lemma {:induction false} CreatedAreMissing(c: Context, l: Accounts, mints: nat, i: nat, created: set<nat>)
    requires i <= mints && 2 * mints <= |c.accounts|
    requires CreateAtas(c, l, mints, i, created).Success?
    ensures forall j: nat :: j in CreateAtas(c, l, mints, i, created).value.1 <==>
              j in created || (i <= j < mints && FirstMissing(c, l, i, j))
    decreases mints - i
  {
    if i < mints {
      CreationStep(c, l, mints, i, created);
      var l' := l[AtaKey(c, i) := Made(c, mints, i)];
      forall j | i < j < mints
        ensures Exists(At(l, AtaKey(c, i))) ==> (FirstMissing(c, l, i, j) <==> FirstMissing(c, l, i + 1, j))
        ensures !Exists(At(l, AtaKey(c, i))) ==> (FirstMissing(c, l, i, j) <==> FirstMissing(c, l', i + 1, j))
      {
        if Exists(At(l, AtaKey(c, i))) {
          PastExisting(c, l, i, j);
        } else {
          PastCreated(c, l, mints, i, j);
        }
      }
      hide FirstMissing, Exists, CreateAtas, DerivedAta, Made;
      if Exists(At(l, AtaKey(c, i))) {
        CreatedAreMissing(c, l, mints, i + 1, created);
      } else {
        CreatedAreMissing(c, l', mints, i + 1, created + {i});
      }
    }
  }

  /** Each account created is empty, the TitanPDA's, and of the mint beside it; and no other
      account changes. */
  lemma {:induction false} CreationMakes(c: Context, l: Accounts, mints: nat, i: nat, created: set<nat>, k: Key)
    requires i <= mints && 2 * mints <= |c.accounts|
    requires CreateAtas(c, l, mints, i, created).Success?
    ensures forall j :: i <= j < mints && FirstMissing(c, l, i, j) && AtaKey(c, j) == k ==>
              At(CreateAtas(c, l, mints, i, created).value.0, k) == Made(c, mints, j)
    ensures (forall j :: i <= j < mints && FirstMissing(c, l, i, j) ==> AtaKey(c, j) != k) ==>
              At(CreateAtas(c, l, mints, i, created).value.0, k) == At(l, k)
    decreases mints - i
  {
    if i < mints {
      CreationStep(c, l, mints, i, created);
      var l' := l[AtaKey(c, i) := Made(c, mints, i)];
      forall j | i < j < mints
        ensures Exists(At(l, AtaKey(c, i))) ==> (FirstMissing(c, l, i, j) <==> FirstMissing(c, l, i + 1, j))
        ensures !Exists(At(l, AtaKey(c, i))) ==> (FirstMissing(c, l, i, j) <==> FirstMissing(c, l', i + 1, j))
        ensures !Exists(At(l, AtaKey(c, i))) && FirstMissing(c, l, i, j) ==> AtaKey(c, j) != AtaKey(c, i)
      {
        if Exists(At(l, AtaKey(c, i))) {
          PastExisting(c, l, i, j);
        } else {
          PastCreated(c, l, mints, i, j);
        }
      }
      assert At(l', k) == if k == AtaKey(c, i) then Made(c, mints, i) else At(l, k);
      hide FirstMissing, Exists, CreateAtas, DerivedAta, Made, At;
      if Exists(At(l, AtaKey(c, i))) {
        CreationMakes(c, l, mints, i + 1, created, k);
      } else {
        CreationMakes(c, l', mints, i + 1, created + {i}, k);
      }
    }
  }

  // ------------------------------------------------------------------------------------
  // Payment
  // ------------------------------------------------------------------------------------

  /** The input account can be topped up with SOL: by nothing, or the user has that much and the
      account takes it. */
  predicate CanWrap(c: Context, l: Accounts, amount: u64) {
    amount == 0 || (c.hasSol(l, amount) && DepositSol(l, c.inputAccount, c.nativeMint, amount).Some?)
  }

  lemma WrapOutcome(c: Context, l: Accounts, amount: u64)
    ensures Wrap(c, l, amount).Success? <==> CanWrap(c, l, amount)
    ensures Wrap(c, l, amount).Failure? ==> Wrap(c, l, amount).error == TokenProgramFailed
    ensures Wrap(c, l, amount).Success? ==>
              Some(Wrap(c, l, amount).value) == DepositSol(l, c.inputAccount, c.nativeMint, amount)
  {
  }

  /** What the input account of a payment in SOL lacks. */
  function Lacking(l: Accounts, k: Key, amount: u64): u64 {
    if At(l, k).amount < amount then amount - At(l, k).amount else 0
  }

  /** Exactly when the input account can be prepared for a payment in SOL, and how. */
  lemma SetUpOutcome(c: Context, l: Accounts, mint: Key, amount: u64)
    ensures Exists(At(l, c.inputAccount)) ==>
              && (SetUpWrappedInput(c, l, mint, amount).Success? <==>
                    At(l, c.inputAccount).dataLen >= 72 && CanWrap(c, l, Lacking(l, c.inputAccount, amount)))
              && (SetUpWrappedInput(c, l, mint, amount) == Failure(InvalidAccountData) <==>
                    At(l, c.inputAccount).dataLen < 72)
              && (SetUpWrappedInput(c, l, mint, amount).Success? ==>
                    && !SetUpWrappedInput(c, l, mint, amount).value.1
                    && Some(SetUpWrappedInput(c, l, mint, amount).value.0)
                       == DepositSol(l, c.inputAccount, c.nativeMint, Lacking(l, c.inputAccount, amount)))
    ensures !Exists(At(l, c.inputAccount)) ==>
              var made := l[c.inputAccount := Account(true, true, 165, c.user, mint, 0)];
              && (SetUpWrappedInput(c, l, mint, amount).Success? <==>
                    c.userAta(mint) == c.inputAccount && CanWrap(c, made, amount))
              && (SetUpWrappedInput(c, l, mint, amount).Success? ==>
                    && SetUpWrappedInput(c, l, mint, amount).value.1
                    && Some(SetUpWrappedInput(c, l, mint, amount).value.0)
                       == DepositSol(made, c.inputAccount, c.nativeMint, amount))
    ensures SetUpWrappedInput(c, l, mint, amount).Failure? ==>
              SetUpWrappedInput(c, l, mint, amount).error in {InvalidAccountData, TokenProgramFailed}
  {
    hide DepositSol, Wrap, CanWrap;
    WrapOutcome(c, l, Lacking(l, c.inputAccount, amount));
    WrapOutcome(c, l[c.inputAccount := Account(true, true, 165, c.user, mint, 0)], amount);
  }

  /** Exactly when the user can pay: in tokens, when the transfer from the input account to the
      first TitanPDA account can be made; in SOL, which is how the native mint is paid for without
      a record, when the input account can be prepared for that and an account made for it
      closed. */
  lemma PaymentIff(c: Context, l: Accounts, mints: nat, recorded: Option<u64>, amount: u64)
    requires 0 < mints < |c.accounts|
    ensures PaysInSol(c, mints, recorded) <==> recorded.None? && c.accounts[mints].key == c.nativeMint
    ensures !PaysInSol(c, mints, recorded) ==>
              && (Pay(c, l, mints, recorded, amount).Success? <==>
                    CanTransfer(l, c.inputAccount, c.accounts[0].key, c.user, amount))
              && (Pay(c, l, mints, recorded, amount).Failure? ==>
                    Pay(c, l, mints, recorded, amount).error == TokenProgramFailed)
    ensures PaysInSol(c, mints, recorded) ==>
              var ready := SetUpWrappedInput(c, l, c.accounts[mints].key, amount);
              && (Pay(c, l, mints, recorded, amount).Success? <==>
                    && ready.Success?
                    && CanTransfer(ready.value.0, c.inputAccount, c.accounts[0].key, c.user, amount)
                    && (ready.value.1 ==>
                          OwnedBy(At(Transfer(ready.value.0, c.inputAccount, c.accounts[0].key, c.user, amount).value,
                                     c.inputAccount), c.user)))
              && (ready.Failure? ==> Pay(c, l, mints, recorded, amount) == Failure(ready.error))
              && (ready.Success? && Pay(c, l, mints, recorded, amount).Failure? ==>
                    Pay(c, l, mints, recorded, amount).error == TokenProgramFailed)
  {
    hide SetUpWrappedInput, Transfer, CanTransfer, CloseWrapped, OwnedBy;
    var ready := if PaysInSol(c, mints, recorded) then SetUpWrappedInput(c, l, c.accounts[mints].key, amount)
                 else Success((l, false));
    if ready.Success? {
      TransferIff(ready.value.0, c.inputAccount, c.accounts[0].key, c.user, amount);
      var paid := Transfer(ready.value.0, c.inputAccount, c.accounts[0].key, c.user, amount);
      if paid.Some? {
        CloseIff(paid.value, c.inputAccount, c.user);
      }
    }
  }

  /** Whatever is paid, and however, no account changes but the two of the payment. */
  lemma PaymentTouchesTwo(c: Context, l: Accounts, mints: nat, recorded: Option<u64>, amount: u64, k: Key)
    requires 0 < mints < |c.accounts| && Pay(c, l, mints, recorded, amount).Success?
    requires k != c.inputAccount && k != c.accounts[0].key
    ensures At(Pay(c, l, mints, recorded, amount).value, k) == At(l, k)
  {
  }

  // ------------------------------------------------------------------------------------
  // Settlement and closing
  // ------------------------------------------------------------------------------------

  /** What the output account holds above its reserve. */
  function Excess(l: Accounts, k: Key, reserve: u64): u64 {
    if At(l, k).amount > reserve then At(l, k).amount - reserve else 0
  }

  /** The ledger once the user's output account exists. */
  function WithOutputAccount(c: Context, l: Accounts, mint: Key): Accounts {
    if Exists(At(l, c.outputAccount)) then l
    else l[c.outputAccount := Account(true, true, 165, c.user, mint, 0)]
  }

  /** Exactly when a route can be settled, whatever its venues did, and how: the user's account
      exists or lies at its derived address, where it is made for the output's mint, and exactly
      the excess over the reserve moves there. */
  lemma SettlementOutcome(c: Context, l: Accounts, mints: nat, output: nat, reserve: u64)
    requires output < mints && 2 * mints <= |c.accounts|
    ensures var own, mint := c.accounts[output].key, c.accounts[mints + output].key;
            var ready := WithOutputAccount(c, l, mint);
            && (Settle(c, l, mints, output, reserve).Success? <==>
                  && At(l, own).dataLen >= 72
                  && (Exists(At(l, c.outputAccount)) || c.userAta(mint) == c.outputAccount)
                  && CanTransfer(ready, own, c.outputAccount, c.titan, Excess(l, own, reserve)))
            && (Settle(c, l, mints, output, reserve) == Failure(InvalidAccountData) <==> At(l, own).dataLen < 72)
            && (Settle(c, l, mints, output, reserve).Failure? ==>
                  Settle(c, l, mints, output, reserve).error in {InvalidAccountData, TokenProgramFailed})
            && (Settle(c, l, mints, output, reserve).Success? ==>
                  Some(Settle(c, l, mints, output, reserve).value)
                  == Transfer(ready, own, c.outputAccount, c.titan, Excess(l, own, reserve)))
  {
    hide Transfer, CanTransfer;
    var own, mint := c.accounts[output].key, c.accounts[mints + output].key;
    TransferIff(WithOutputAccount(c, l, mint), own, c.outputAccount, c.titan, Excess(l, own, reserve));
  }

  lemma EmptyWhenHeld(l: Accounts, k: Key, authority: Key)
    ensures OwnedBy(At(l, k), authority) ==> At(l, k).amount == Holding(l, k)
  {
  }

  /** Closing removes exactly the created accounts that hold nothing, and fails exactly when one
      of them is no longer the TitanPDA's empty account. */
  lemma {:induction false} ClosingOutcome(c: Context, l: Accounts, mints: nat, i: nat, created: set<nat>)
    requires i <= mints <= |c.accounts| && DistinctKeys(c, created, i, mints)
    ensures CloseCreated(c, l, mints, i, created).Success? <==>
            forall j :: i <= j < mints && j in created && Holding(l, AtaKey(c, j)) == 0 ==>
                          OwnedBy(At(l, AtaKey(c, j)), c.titan)
    ensures CloseCreated(c, l, mints, i, created).Failure? ==>
              CloseCreated(c, l, mints, i, created).error == TokenProgramFailed
    ensures CloseCreated(c, l, mints, i, created).Success? ==>
              forall k: Key :: At(CloseCreated(c, l, mints, i, created).value, k)
                               == if WasCreated(c, created, mints, i, k) && Holding(l, k) == 0 then NO_ACCOUNT
                                  else At(l, k)
    decreases mints - i
  {
    if i < mints {
      var key := AtaKey(c, i);
      forall k: Key
        ensures WasCreated(c, created, mints, i, k) <==>
                (i in created && k == key) || WasCreated(c, created, mints, i + 1, k)
      {
      }
      if i !in created || Holding(l, key) > 0 {
        ClosingOutcome(c, l, mints, i + 1, created);
      } else {
        CloseIff(l, key, c.titan);
        EmptyWhenHeld(l, key, c.titan);
        if OwnedBy(At(l, key), c.titan) {
          var l' := Close(l, key, c.titan).value;
          forall j | i + 1 <= j < mints && j in created
            ensures At(l', AtaKey(c, j)) == At(l, AtaKey(c, j))
            ensures Holding(l', AtaKey(c, j)) == Holding(l, AtaKey(c, j))
          {
          }
          ClosingOutcome(c, l', mints, i + 1, created);
        }
      }
    }
  }

  // ------------------------------------------------------------------------------------
  // The whole route
  // ------------------------------------------------------------------------------------

  /** Every account of the route is the TitanPDA's, by index. */
  lemma RecognisedIff(c: Context, l: Accounts, mints: nat)
    requires mints <= |c.accounts|
    ensures AllRecognised(c, l, mints) <==>
            forall i :: 0 <= i < mints ==> OwnedBy(At(l, c.accounts[i].key), c.titan)
  {
    forall i | 0 <= i < mints
      ensures Recognised(c, l, i) <==> OwnedBy(At(l, c.accounts[i].key), c.titan)
    {
    }
    hide OwnedBy, Recognised;
  }

  /** How a route fails before its legs: the first of its checks, its creations, its accounts, its
      amount and its payment that fails decides. */
  lemma FundingFails(c: Context, l: Accounts, amount: u64, mints: u8, swaps: seq<Swap>)
    requires Fund(c, l, amount, mints, swaps).Failure?
    ensures !Admissible(c, l, mints, swaps) ==>
              Validate(c, l, mints, swaps) == Failure(Fund(c, l, amount, mints, swaps).error)
    ensures Admissible(c, l, mints, swaps) && CreateAtas(c, l, mints, 0, {}).Failure? ==>
              Fund(c, l, amount, mints, swaps).error == TokenProgramFailed
    ensures Admissible(c, l, mints, swaps) && CreateAtas(c, l, mints, 0, {}).Success? ==>
              var s := CreateAtas(c, l, mints, 0, {}).value.0;
              var recorded := ReadTokenLedger(c).value;
              var effective := EffectiveAmount(c, s, recorded, amount);
              && (!AllRecognised(c, s, mints) ==> Fund(c, l, amount, mints, swaps).error == InvalidAccountData)
              && (AllRecognised(c, s, mints) && effective.Failure? ==>
                    Fund(c, l, amount, mints, swaps) == Failure(effective.error))
              && (AllRecognised(c, s, mints) && effective.Success? ==>
                    Pay(c, s, mints, recorded, effective.value) == Failure(Fund(c, l, amount, mints, swaps).error))
  {
    hide EffectiveAmount, Pay, AllRecognised;
    ValidatesIff(c, l, mints, swaps);
    if Admissible(c, l, mints, swaps) {
      CreationSucceedsIff(c, l, mints, 0, {});
    }
    hide Validate, Admissible, ReadTokenLedger, CreateAtas;
  }

  /** The stages of a successful route are those its checks, creation, payment, legs, settlement
      and closing lead to, in this order and on these amounts. */
  lemma RunIsStages(c: Context, l: Accounts, amount: u64, mints: u8, swaps: seq<Swap>)
    requires Run(c, l, amount, mints, swaps).Success?
    ensures Admissible(c, l, mints, swaps)
    ensures var r := Run(c, l, amount, mints, swaps).value;
            var output := swaps[|swaps| - 1].to;
            var recorded := ReadTokenLedger(c).value;
            var effective := EffectiveAmount(c, r.snapshot, recorded, amount);
            && CreateAtas(c, l, mints, 0, {}) == Success((r.snapshot, r.created))
            && AllRecognised(c, r.snapshot, mints)
            && effective.Success?
            && Pay(c, r.snapshot, mints, recorded, effective.value) == Success(r.funded)
            && Settle(c, r.traded, mints, output, At(r.snapshot, c.accounts[output].key).amount) == Success(r.settled)
            && CloseCreated(c, r.settled, mints, 0, r.created) == Success(r.final)
  {
    hide RunLegs, Settle, CloseCreated, CreateAtas, Pay, AllRecognised, EffectiveAmount;
    ValidatesIff(c, l, mints, swaps);
    hide Validate, Admissible, ReadTokenLedger;
  }

  /** A route is executed exactly when it runs and every account the snapshot found to be the
      TitanPDA's, among the first 256, holds at least its balance then. */
  lemma ExecutesIff(c: Context, l: Accounts, amount: u64, mints: u8, swaps: seq<Swap>)
    ensures Execute(c, l, amount, mints, swaps).Success? <==>
            && Run(c, l, amount, mints, swaps).Success?
            && var r := Run(c, l, amount, mints, swaps).value;
               forall i :: 0 <= i < |c.accounts| && i < 256 && OwnedBy(At(r.snapshot, c.accounts[i].key), c.titan) ==>
                             Holding(r.final, c.accounts[i].key) >= At(r.snapshot, c.accounts[i].key).amount
    ensures Execute(c, l, amount, mints, swaps).Success? ==>
              Execute(c, l, amount, mints, swaps) == Run(c, l, amount, mints, swaps)
    ensures Execute(c, l, amount, mints, swaps).Failure? ==>
              Execute(c, l, amount, mints, swaps)
              == if Run(c, l, amount, mints, swaps).Success? then Failure(ReservedBalanceViolation)
                 else Run(c, l, amount, mints, swaps)
  {
    hide Run;
    if Run(c, l, amount, mints, swaps).Success? {
      var r := Run(c, l, amount, mints, swaps).value;
      CheckIsPointwise(c, r.snapshot, r.final);
      hide ReservesHold, CompactBalances, OwnedBy;
      forall i | 0 <= i < |c.accounts|
        ensures Recognised(c, r.snapshot, i) <==> OwnedBy(At(r.snapshot, c.accounts[i].key), c.titan)
        ensures Covered(c, r.snapshot, r.final, i) <==>
                Holding(r.final, c.accounts[i].key) >= At(r.snapshot, c.accounts[i].key).amount
      {
      }
      hide Recognised, Covered;
    }
  }
}
