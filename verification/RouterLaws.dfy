/** What the route program guarantees, against any venue and against honest ones. */
module RouterLaws {
  import opened Numbers
  import opened Quoting
  import opened SwapRoute
  import opened SwapRouteLaws
  import opened Ledger
  import opened Router

  // ------------------------------------------------------------------------------------
  // Any venue
  // ------------------------------------------------------------------------------------

  /** Account i, recognised at the snapshot, ends with at least its snapshot balance. */
  ghost predicate Covered(c: Context, snapshot: Accounts, final: Accounts, i: nat)
    requires i < |c.accounts|
  {
    Holding(final, c.accounts[i].key) >= At(snapshot, c.accounts[i].key).amount
  }

  /** The check from index i on, once the running index points at the entries of the accounts
      from i on. Entries pushed for indices the bitmap drops all come later. */
  lemma {:induction false} CheckFrom(c: Context, snapshot: Accounts, final: Accounts, balances: seq<u64>,
                                     i: nat, idx: nat)
    requires i <= |c.accounts|
    requires i <= 256 ==> idx <= |balances| && balances[idx..] == CompactBalances(c, snapshot, i)
    ensures ReservesHold(c, snapshot, final, balances, i, idx) <==>
            forall j :: i <= j < |c.accounts| && Marked(c, snapshot, j) ==> Covered(c, snapshot, final, j)
    decreases |c.accounts| - i
  {
    if i < |c.accounts| {
      if Marked(c, snapshot, i) {
        assert balances[idx] == At(snapshot, c.accounts[i].key).amount;
        CheckFrom(c, snapshot, final, balances, i + 1, idx + 1);
      } else {
        CheckFrom(c, snapshot, final, balances, i + 1, idx);
      }
    }
  }

  /** The final check, which walks a bitmap and a gapless vector, holds exactly when every
      recognised account below index 256 is covered. */
  lemma CheckIsPointwise(c: Context, snapshot: Accounts, final: Accounts)
    ensures ReservesHold(c, snapshot, final, CompactBalances(c, snapshot, 0), 0, 0) <==>
            forall i :: 0 <= i < |c.accounts| && i < 256 && Recognised(c, snapshot, i) ==>
                          Covered(c, snapshot, final, i)
  {
    CheckFrom(c, snapshot, final, CompactBalances(c, snapshot, 0), 0, 0);
  }

  /** Any-venue safety: whatever the venues did, a successful route leaves every account below
      index 256 that was a TitanPDA account at the snapshot with at least its balance there. */
  lemma AnyVenueSafety(c: Context, l: Accounts, amount: u64, mints: u8, swaps: seq<Swap>, i: nat)
    requires Execute(c, l, amount, mints, swaps).Success?
    requires i < |c.accounts| && i < 256
    requires Recognised(c, Execute(c, l, amount, mints, swaps).value.snapshot, i)
    ensures Covered(c, Execute(c, l, amount, mints, swaps).value.snapshot,
                    Execute(c, l, amount, mints, swaps).value.final, i)
  {
    hide Run, Covered;
    var stages := Execute(c, l, amount, mints, swaps).value;
    CheckIsPointwise(c, stages.snapshot, stages.final);
  }

  // ------------------------------------------------------------------------------------
  // Refusals
  // ------------------------------------------------------------------------------------

  lemma RecordSlices(prefix: bytes, key: bytes, amount: bytes, rest: bytes)
    requires |prefix| == 8 && |key| == 32 && |amount| == 8
    ensures |prefix + key + amount + rest| >= 48
    ensures (prefix + key + amount + rest)[8..40] == key
    ensures (prefix + key + amount + rest)[40..48] == amount
  {
  }

  /** What the record of the input account's balance reads as: 8 bytes, the account's key, and
      the balance. */
  lemma RecordIsRead(c: Context, prefix: bytes, recorded: u64, rest: bytes)
    requires |prefix| == 8 && c.inputAccount < Base(32)
    requires c.ledgerData == Some(prefix + LittleEndian(c.inputAccount, 32) + LittleEndian(recorded, 8) + rest)
    ensures ReadTokenLedger(c) == Success(Some(recorded))
  {
    hide Base, LittleEndian, FromLittleEndian;
    RecordSlices(prefix, LittleEndian(c.inputAccount, 32), LittleEndian(recorded, 8), rest);
    NumberRoundTrip(c.inputAccount, 32);
    AmountRoundTrip(recorded);
  }

  lemma {:induction false} NumberBelowBase(b: bytes)
    ensures FromLittleEndian(b) < Base(|b|)
  {
    if b != [] {
      NumberBelowBase(b[1..]);
    }
  }

  /** And a record that is read has that form; one too short or for another account is refused. */
  lemma RecordReadIff(c: Context)
    ensures ReadTokenLedger(c).Success? <==>
            c.ledgerData.Some? ==>
              |c.ledgerData.value| >= 48 && c.ledgerData.value[8..40] == LittleEndian(c.inputAccount, 32)
              && c.inputAccount < Base(32)
    ensures ReadTokenLedger(c).Success? ==> (ReadTokenLedger(c).value.Some? <==> c.ledgerData.Some?)
    ensures ReadTokenLedger(c).Failure? ==> ReadTokenLedger(c).error == InvalidAccountData
    ensures ReadTokenLedger(c).Success? && c.ledgerData.Some? ==>
              LittleEndian(ReadTokenLedger(c).value.value, 8) == c.ledgerData.value[40..48]
  {
    if c.ledgerData.Some? && |c.ledgerData.value| >= 48 {
      var data := c.ledgerData.value;
      NumberCanonical(data[8..40]);
      NumberCanonical(data[40..48]);
      NumberBelowBase(data[8..40]);
      if c.inputAccount < Base(32) {
        NumberRoundTrip(c.inputAccount, 32);
      }
    }
  }

  /** Which routes pass the checks on the arguments: 2 to 12 mints, 1 to 12 legs, all accounts of
      the route there, the first leg from mint 0, every index a mint's, a readable record, and
      decimals in both mints at the ends. */
  predicate Admissible(c: Context, l: Accounts, mints: nat, swaps: seq<Swap>) {
    && 2 <= mints <= 12 && 1 <= |swaps| <= 12
    && |c.accounts| >= 2 * mints
    && swaps[0].from == 0
    && (forall i :: 0 <= i < |swaps| ==> swaps[i].from < mints && swaps[i].to < mints)
    && ReadTokenLedger(c).Success?
    && At(l, c.accounts[mints].key).dataLen >= 45
    && At(l, c.accounts[mints + swaps[|swaps| - 1].to].key).dataLen >= 45
  }

  /** A route passes the checks exactly when it is admissible; missing accounts are complained
      of only where the numbers of mints and legs are in order, and unreadable ones last. */
  lemma ValidatesIff(c: Context, l: Accounts, mints: u8, swaps: seq<Swap>)
    ensures Validate(c, l, mints, swaps).Success? <==> Admissible(c, l, mints, swaps)
    ensures Validate(c, l, mints, swaps).Success? ==> Validate(c, l, mints, swaps).value == ReadTokenLedger(c).value
    ensures Validate(c, l, mints, swaps) == Failure(MissingRemainingAccount) <==>
            2 <= mints <= 12 && 1 <= |swaps| <= 12 && |c.accounts| < 2 * mints
    ensures Validate(c, l, mints, swaps) == Failure(InvalidAccountData) <==>
            && 2 <= mints <= 12 && 1 <= |swaps| <= 12 && |c.accounts| >= 2 * mints && swaps[0].from == 0
            && IndicesInRange(swaps, mints) && !Admissible(c, l, mints, swaps)
    ensures Validate(c, l, mints, swaps).Failure? ==>
              Validate(c, l, mints, swaps).error in {InvalidSwapInput, MissingRemainingAccount, InvalidAccountData}
  {
    hide FromLittleEndian;
    RecordReadIff(c);
    hide ReadTokenLedger;
    if swaps != [] {
      assert swaps[|swaps| - 1] in swaps;
    }
    assert IndicesInRange(swaps, mints) <==>
           forall i :: 0 <= i < |swaps| ==> swaps[i].from < mints && swaps[i].to < mints by {
      if forall i :: 0 <= i < |swaps| ==> swaps[i].from < mints && swaps[i].to < mints {
        forall s | s in swaps
          ensures s.from < mints && s.to < mints
        {
          var i :| 0 <= i < |swaps| && swaps[i] == s;
        }
      } else {
        var i :| 0 <= i < |swaps| && !(swaps[i].from < mints && swaps[i].to < mints);
        assert swaps[i] in swaps;
      }
    }
  }

  /** The amount paid with a record is what the input account has gained since, and there must
      be a gain. */
  lemma EffectiveAmountIff(c: Context, l: Accounts, recorded: Option<u64>, amount: u64)
    ensures recorded.None? ==> EffectiveAmount(c, l, recorded, amount) == Success(amount)
    ensures recorded.Some? ==>
              (EffectiveAmount(c, l, recorded, amount).Success? <==>
                At(l, c.inputAccount).dataLen >= 72 && At(l, c.inputAccount).amount > recorded.value)
    ensures recorded.Some? && EffectiveAmount(c, l, recorded, amount).Success? ==>
              EffectiveAmount(c, l, recorded, amount).value == At(l, c.inputAccount).amount - recorded.value
    ensures EffectiveAmount(c, l, recorded, amount).Failure? ==>
              EffectiveAmount(c, l, recorded, amount).error == InvalidAccountData
  {
  }

  // ------------------------------------------------------------------------------------
  // Honest venues
  // ------------------------------------------------------------------------------------

  /** A TitanPDA account that pays its rent. */
  predicate Held(c: Context, a: Account) {
    OwnedBy(a, c.titan) && a.funded
  }

  /** Every TitanPDA account pays its rent, as the runtime enforces. */
  ghost predicate RentPaid(c: Context, l: Accounts) {
    forall k: Key :: OwnedBy(At(l, k), c.titan) ==> At(l, k).funded
  }

  /** TitanPDA accounts stay so between two ledgers and keep at least their balance, except
      that account `spender` may lose up to `spent`. */
  ghost predicate LosesAtMost(c: Context, before: Accounts, after: Accounts, spender: Key, spent: nat) {
    forall k: Key :: Held(c, At(before, k)) ==>
      && Held(c, At(after, k))
      && At(after, k).amount + (if k == spender then spent else 0) >= At(before, k).amount
  }

  /** No TitanPDA account of the snapshot is below its balance there. */
  ghost predicate KeepsReserves(c: Context, snapshot: Accounts, l: Accounts) {
    forall k: Key :: Held(c, At(snapshot, k)) ==>
      Held(c, At(l, k)) && At(l, k).amount >= At(snapshot, k).amount
  }

  /** The venue of leg k debits at most the given amount from the leg's own account and
      lowers no other TitanPDA account. */
  ghost predicate HonestVenues(c: Context, swaps: seq<Swap>) {
    forall l: Accounts, k: nat, d: Dispatch ::
      k < |swaps| && swaps[k].from < |c.accounts| && c.venue(l, k, d).Some? ==>
        LosesAtMost(c, l, c.venue(l, k, d).value, AtaKey(c, swaps[k].from), d.amount)
  }

  lemma {:induction false} CreationPaysRent(c: Context, l: Accounts, mints: nat, i: nat, created: set<nat>)
    requires i <= mints && 2 * mints <= |c.accounts| && RentPaid(c, l)
    requires CreateAtas(c, l, mints, i, created).Success?
    ensures RentPaid(c, CreateAtas(c, l, mints, i, created).value.0)
    decreases mints - i
  {
    if i < mints {
      if Exists(At(l, AtaKey(c, i))) {
        CreationPaysRent(c, l, mints, i + 1, created);
      } else {
        var mint := c.accounts[mints + i].key;
        var l' := CreateAta(l, AtaKey(c, i), c.titanAta(mint), c.titan, mint).value;
        assert forall k: Key :: At(l', k) == if k == AtaKey(c, i) then l'[k] else At(l, k);
        CreationPaysRent(c, l', mints, i + 1, created + {i});
      }
    }
  }

  /** Creation touches no existing account; what it created was missing, and is an empty
      TitanPDA account now; and afterwards all of the route's accounts exist. */
  lemma {:induction false} CreationAddsMissing(c: Context, l: Accounts, mints: nat, i: nat, created: set<nat>)
    requires i <= mints && 2 * mints <= |c.accounts|
    requires CreateAtas(c, l, mints, i, created).Success?
    ensures forall k: Key :: Exists(At(l, k)) ==> At(CreateAtas(c, l, mints, i, created).value.0, k) == At(l, k)
    ensures forall j :: i <= j < mints ==> Exists(At(CreateAtas(c, l, mints, i, created).value.0, AtaKey(c, j)))
    ensures created <= CreateAtas(c, l, mints, i, created).value.1
    ensures forall j :: j in CreateAtas(c, l, mints, i, created).value.1 - created ==>
              && i <= j < mints
              && !Exists(At(l, AtaKey(c, j)))
              && Held(c, At(CreateAtas(c, l, mints, i, created).value.0, AtaKey(c, j)))
              && At(CreateAtas(c, l, mints, i, created).value.0, AtaKey(c, j)).amount == 0
    decreases mints - i
  {
    if i < mints {
      if Exists(At(l, AtaKey(c, i))) {
        CreationAddsMissing(c, l, mints, i + 1, created);
      } else {
        var mint := c.accounts[mints + i].key;
        var l' := CreateAta(l, AtaKey(c, i), c.titanAta(mint), c.titan, mint).value;
        assert forall k: Key :: At(l', k) == if k == AtaKey(c, i) then l'[k] else At(l, k);
        CreationAddsMissing(c, l', mints, i + 1, created + {i});
        var final := CreateAtas(c, l', mints, i + 1, created + {i}).value;
        assert At(final.0, AtaKey(c, i)) == At(l', AtaKey(c, i));
        assert forall j :: j in final.1 - created ==> j == i || j in final.1 - (created + {i});
      }
    }
  }

  lemma WrappingKeepsReserves(c: Context, s: Accounts, mint: Key, amount: u64)
    requires RentPaid(c, s)
    requires SetUpWrappedInput(c, s, mint, amount).Success?
    ensures KeepsReserves(c, s, SetUpWrappedInput(c, s, mint, amount).value.0)
  {
  }

  /** The user's payment lowers no TitanPDA account. */
  lemma PaymentKeepsReserves(c: Context, s: Accounts, mints: nat, recorded: Option<u64>, amount: u64)
    requires c.user != c.titan && RentPaid(c, s) && 0 < mints < |c.accounts|
    requires Pay(c, s, mints, recorded, amount).Success?
    ensures KeepsReserves(c, s, Pay(c, s, mints, recorded, amount).value)
  {
    hide SetUpWrappedInput;
    if PaysInSol(c, mints, recorded) {
      WrappingKeepsReserves(c, s, c.accounts[mints].key, amount);
    }
  }

  /** One leg of an honest venue: it spends only what is above the reserve. */
  lemma LegKeepsReserves(c: Context, s: Accounts, l: Accounts, mints: nat, swaps: seq<Swap>,
                         k: nat, offset: nat)
    requires mints <= |c.accounts| && k < |swaps| && swaps[k].from < mints
    requires HonestVenues(c, swaps) && AllRecognised(c, s, mints) && RentPaid(c, s)
    requires KeepsReserves(c, s, l)
    requires RunLeg(c, l, Reserves(c, s, mints), k, swaps[k], offset).Success?
    ensures KeepsReserves(c, s, RunLeg(c, l, Reserves(c, s, mints), k, swaps[k], offset).value.0)
  {
    hide LegInput;
    var from := AtaKey(c, swaps[k].from);
    assert Recognised(c, s, swaps[k].from);
    assert Held(c, At(s, from));
    var balance := At(l, from).amount;
    var input := LegInput(balance, At(s, from).amount, swaps[k].weightNanos);
    if input > 0 {
      var d := DispatchOf(c, swaps[k], offset, input);
      var l' := c.venue(l, k, d).value;
      assert LosesAtMost(c, l, l', from, input);
    }
  }

  /** Any number of legs, whatever their weights, keep balance at or above reserve. */
  lemma {:induction false} LegsKeepReserves(c: Context, s: Accounts, l: Accounts, mints: nat, swaps: seq<Swap>,
                                            k: nat, offset: nat)
    requires mints <= |c.accounts| && k <= |swaps| && IndicesInRange(swaps, mints)
    requires HonestVenues(c, swaps) && AllRecognised(c, s, mints) && RentPaid(c, s)
    requires KeepsReserves(c, s, l)
    requires RunLegs(c, l, Reserves(c, s, mints), swaps, k, offset).Success?
    ensures KeepsReserves(c, s, RunLegs(c, l, Reserves(c, s, mints), swaps, k, offset).value.0)
    decreases |swaps| - k
  {
    hide KeepsReserves, RunLeg, HonestVenues, RentPaid, AllRecognised, Reserves;
    if k < |swaps| {
      assert swaps[k] in swaps;
      LegKeepsReserves(c, s, l, mints, swaps, k, offset);
      var l' := RunLeg(c, l, Reserves(c, s, mints), k, swaps[k], offset).value.0;
      LegsKeepReserves(c, s, l', mints, swaps, k + 1, offset + swaps[k].nAccounts);
    }
  }

  /** Settlement pays out the excess over the reserve and nothing else: the output account is
      left at exactly its reserve, the user's account gains exactly the excess, and every
      other account is untouched; if the two are one account, nothing moves. */
  lemma SettlementIsExact(c: Context, l: Accounts, mints: nat, output: nat, reserve: u64)
    requires output < mints && 2 * mints <= |c.accounts|
    requires Held(c, At(l, AtaKey(c, output))) && At(l, AtaKey(c, output)).amount >= reserve
    requires Settle(c, l, mints, output, reserve).Success?
    ensures var l' := Settle(c, l, mints, output, reserve).value;
            var own := AtaKey(c, output);
            var before := if Exists(At(l, c.outputAccount)) then At(l, c.outputAccount).amount else 0;
            var excess := At(l, own).amount - reserve;
            && (c.outputAccount != own ==>
                  At(l', own) == At(l, own).(amount := reserve)
                  && At(l', c.outputAccount).amount == before + excess)
            && (c.outputAccount == own ==> l' == l)
            && (At(l', own).amount == reserve <==> c.outputAccount != own || excess == 0)
    ensures forall k: Key :: k != AtaKey(c, output) && k != c.outputAccount ==>
              At(Settle(c, l, mints, output, reserve).value, k) == At(l, k)
  {
  }

  lemma SettlementKeepsReserves(c: Context, s: Accounts, l: Accounts, mints: nat, output: nat)
    requires output < mints && 2 * mints <= |c.accounts|
    requires Held(c, At(s, AtaKey(c, output))) && KeepsReserves(c, s, l)
    requires Settle(c, l, mints, output, At(s, AtaKey(c, output)).amount).Success?
    ensures KeepsReserves(c, s, Settle(c, l, mints, output, At(s, AtaKey(c, output)).amount).value)
  {
    var own := AtaKey(c, output);
    var l' := Settle(c, l, mints, output, At(s, own).amount).value;
    SettlementIsExact(c, l, mints, output, At(s, own).amount);
    forall k: Key | Held(c, At(s, k))
      ensures Held(c, At(l', k)) && At(l', k).amount >= At(s, k).amount
    {
      assert Held(c, At(l, k)) && At(l, k).amount >= At(s, k).amount;
    }
  }

  /** Closing removes empty accounts only, so holdings do not change; and each created account
      ends either closed or holding something. */
  lemma {:induction false} ClosingKeepsHoldings(c: Context, l: Accounts, mints: nat, i: nat, created: set<nat>)
    requires i <= mints <= |c.accounts|
    requires CloseCreated(c, l, mints, i, created).Success?
    ensures forall k: Key :: Holding(CloseCreated(c, l, mints, i, created).value, k) == Holding(l, k)
    ensures forall k: Key :: At(CloseCreated(c, l, mints, i, created).value, k) in {At(l, k), NO_ACCOUNT}
    ensures forall j :: i <= j < mints && j in created ==>
              At(CloseCreated(c, l, mints, i, created).value, AtaKey(c, j)) == NO_ACCOUNT
              || Holding(CloseCreated(c, l, mints, i, created).value, AtaKey(c, j)) > 0
    decreases mints - i
  {
    if i < mints {
      if i !in created || Holding(l, AtaKey(c, i)) > 0 {
        ClosingKeepsHoldings(c, l, mints, i + 1, created);
      } else {
        var l' := Close(l, AtaKey(c, i), c.titan).value;
        ClosingKeepsHoldings(c, l', mints, i + 1, created);
      }
    }
  }

  lemma HonestRunIsCovered(c: Context, r: Stages)
    requires RentPaid(c, r.snapshot) && KeepsReserves(c, r.snapshot, r.settled)
    requires forall k: Key :: Holding(r.final, k) == Holding(r.settled, k)
    ensures ReservesHold(c, r.snapshot, r.final, CompactBalances(c, r.snapshot, 0), 0, 0)
  {
    CheckIsPointwise(c, r.snapshot, r.final);
    forall i | 0 <= i < |c.accounts| && i < 256 && Recognised(c, r.snapshot, i)
      ensures Covered(c, r.snapshot, r.final, i)
    {
      assert Held(c, At(r.snapshot, c.accounts[i].key));
    }
  }

  /** No two of the accounts to be closed are the same. */
  ghost predicate DistinctKeys(c: Context, created: set<nat>, i: nat, mints: nat)
    requires mints <= |c.accounts|
  {
    forall j, k :: i <= j < k < mints && j in created && k in created ==> AtaKey(c, j) != AtaKey(c, k)
  }

  /** What is created exists at once, so nothing is created twice. */
  lemma {:induction false} CreationIsDistinct(c: Context, l: Accounts, mints: nat, i: nat, created: set<nat>)
    requires i <= mints && 2 * mints <= |c.accounts|
    requires forall j :: j in created ==> j < i
    requires CreateAtas(c, l, mints, i, created).Success?
    ensures DistinctKeys(c, CreateAtas(c, l, mints, i, created).value.1, i, mints)
    ensures forall j :: j in CreateAtas(c, l, mints, i, created).value.1 ==> j < mints
    decreases mints - i
  {
    if i < mints {
      if Exists(At(l, AtaKey(c, i))) {
        CreationIsDistinct(c, l, mints, i + 1, created);
        CreationAddsMissing(c, l, mints, i + 1, created);
      } else {
        var mint := c.accounts[mints + i].key;
        var l' := CreateAta(l, AtaKey(c, i), c.titanAta(mint), c.titan, mint).value;
        assert Exists(At(l', AtaKey(c, i)));
        hide Exists, CreateAta;
        CreationIsDistinct(c, l', mints, i + 1, created + {i});
        CreationAddsMissing(c, l', mints, i + 1, created + {i});
        assert forall j :: i < j && j in CreateAtas(c, l', mints, i + 1, created + {i}).value.1 ==>
                 !Exists(At(l', AtaKey(c, j)));
      }
    }
  }

  /** Accounts the TitanPDA still holds can all be closed. */
  lemma {:induction false} ClosingSucceeds(c: Context, l: Accounts, mints: nat, i: nat, created: set<nat>)
    requires i <= mints <= |c.accounts| && DistinctKeys(c, created, i, mints)
    requires forall j :: i <= j < mints && j in created ==> Held(c, At(l, AtaKey(c, j)))
    ensures CloseCreated(c, l, mints, i, created).Success?
    decreases mints - i
  {
    if i < mints {
      if i !in created || Holding(l, AtaKey(c, i)) > 0 {
        ClosingSucceeds(c, l, mints, i + 1, created);
      } else {
        assert Held(c, At(l, AtaKey(c, i)));
        var l' := Close(l, AtaKey(c, i), c.titan).value;
        forall j | i + 1 <= j < mints && j in created
          ensures Held(c, At(l', AtaKey(c, j)))
        {
          assert At(l', AtaKey(c, j)) == At(l, AtaKey(c, j));
        }
        ClosingSucceeds(c, l', mints, i + 1, created);
      }
    }
  }

  /** What holds once the route is funded: every TitanPDA account pays its rent and keeps its
      balance, and what was created for the route is held, each account once. */
  lemma FundedRoute(c: Context, l: Accounts, amount: u64, mints: u8, swaps: seq<Swap>)
    requires c.user != c.titan && RentPaid(c, l) && Fund(c, l, amount, mints, swaps).Success?
    ensures var f := Fund(c, l, amount, mints, swaps).value;
            && RentPaid(c, f.snapshot) && AllRecognised(c, f.snapshot, mints)
            && KeepsReserves(c, f.snapshot, f.funded)
            && DistinctKeys(c, f.created, 0, mints)
            && forall j :: j in f.created ==> j < mints && Held(c, At(f.snapshot, AtaKey(c, j)))
  {
    hide Pay, KeepsReserves, RentPaid, EffectiveAmount;
    var f := Fund(c, l, amount, mints, swaps).value;
    CreationPaysRent(c, l, mints, 0, {});
    CreationIsDistinct(c, l, mints, 0, {});
    CreationAddsMissing(c, l, mints, 0, {});
    hide CreateAtas;
    var recorded := ReadTokenLedger(c).value;
    PaymentKeepsReserves(c, f.snapshot, mints, recorded, EffectiveAmount(c, f.snapshot, recorded, amount).value);
  }

  /** Where the balances stay at or above the reserves, a leg ends in an error only for want of
      accounts or by its venue. */
  lemma {:induction false} LegsFailByVenue(c: Context, s: Accounts, l: Accounts, mints: nat, swaps: seq<Swap>,
                                           k: nat, offset: nat)
    requires mints <= |c.accounts| && k <= |swaps| && IndicesInRange(swaps, mints)
    requires HonestVenues(c, swaps) && AllRecognised(c, s, mints) && RentPaid(c, s)
    requires KeepsReserves(c, s, l)
    requires RunLegs(c, l, Reserves(c, s, mints), swaps, k, offset).Failure?
    ensures RunLegs(c, l, Reserves(c, s, mints), swaps, k, offset).error
            in {InvalidSwapInput, MissingRemainingAccount, VenueFailed}
    decreases |swaps| - k
  {
    hide HonestVenues, Reserves, LegInput, DispatchOf;
    if k < |swaps| {
      assert swaps[k] in swaps;
      assert Recognised(c, s, swaps[k].from);
      assert Held(c, At(s, AtaKey(c, swaps[k].from)));
      hide KeepsReserves, RentPaid, AllRecognised;
      var leg := RunLeg(c, l, Reserves(c, s, mints), k, swaps[k], offset);
      if leg.Success? {
        LegKeepsReserves(c, s, l, mints, swaps, k, offset);
        LegsFailByVenue(c, s, leg.value.0, mints, swaps, k + 1, offset + swaps[k].nAccounts);
      }
    }
  }

  lemma OutputIsHeld(c: Context, f: Funding, mints: nat, swaps: seq<Swap>)
    requires Routable(c, mints, swaps) && AllRecognised(c, f.snapshot, mints) && RentPaid(c, f.snapshot)
    ensures Held(c, At(f.snapshot, AtaKey(c, OutputIndex(c, mints, swaps))))
  {
    assert Recognised(c, f.snapshot, OutputIndex(c, mints, swaps));
  }

  lemma SettlementFails(c: Context, f: Funding, traded: Accounts, mints: nat, swaps: seq<Swap>)
    requires Routable(c, mints, swaps) && AllRecognised(c, f.snapshot, mints) && RentPaid(c, f.snapshot)
    requires KeepsReserves(c, f.snapshot, traded)
    ensures SettleRoute(c, f, traded, mints, swaps).Failure? ==>
              SettleRoute(c, f, traded, mints, swaps).error == TokenProgramFailed
  {
    OutputIsHeld(c, f, mints, swaps);
    hide RentPaid, AllRecognised, Transfer;
  }

  lemma SettledRouteCloses(c: Context, f: Funding, traded: Accounts, mints: nat, swaps: seq<Swap>)
    requires Routable(c, mints, swaps) && AllRecognised(c, f.snapshot, mints) && RentPaid(c, f.snapshot)
    requires KeepsReserves(c, f.snapshot, traded) && DistinctKeys(c, f.created, 0, mints)
    requires forall j :: j in f.created ==> j < mints && Held(c, At(f.snapshot, AtaKey(c, j)))
    requires SettleRoute(c, f, traded, mints, swaps).Success?
    ensures KeepsReserves(c, f.snapshot, SettleRoute(c, f, traded, mints, swaps).value)
    ensures CloseCreated(c, SettleRoute(c, f, traded, mints, swaps).value, mints, 0, f.created).Success?
  {
    OutputIsHeld(c, f, mints, swaps);
    hide RentPaid, AllRecognised, Settle;
    SettlementKeepsReserves(c, f.snapshot, traded, mints, OutputIndex(c, mints, swaps));
    ClosingSucceeds(c, SettleRoute(c, f, traded, mints, swaps).value, mints, 0, f.created);
  }

  /** How a route with honest venues ends.  Once it is funded, its legs fail only for want of
      accounts or by a venue; after them only the token program can refuse the settlement; and
      nothing after that fails. */
  lemma HonestRunEnds(c: Context, l: Accounts, amount: u64, mints: u8, swaps: seq<Swap>)
    requires c.user != c.titan && RentPaid(c, l) && HonestVenues(c, swaps)
    requires Fund(c, l, amount, mints, swaps).Success?
    ensures var f := Fund(c, l, amount, mints, swaps).value;
            var legs := Trade(c, f, mints, swaps);
            && (legs.Failure? ==> Run(c, l, amount, mints, swaps) == Failure(legs.error)
                                  && legs.error in {InvalidSwapInput, MissingRemainingAccount, VenueFailed})
            && (legs.Success? ==>
                  var settled := SettleRoute(c, f, legs.value.0, mints, swaps);
                  && (settled.Failure? ==> Run(c, l, amount, mints, swaps) == Failure(TokenProgramFailed)
                                           && settled.error == TokenProgramFailed)
                  && (settled.Success? ==> Run(c, l, amount, mints, swaps).Success?))
  {
    hide RunLegs, KeepsReserves, RentPaid, AllRecognised, Fund, CloseCreated, DistinctKeys, Settle, HonestVenues;
    FundedRoute(c, l, amount, mints, swaps);
    var f := Fund(c, l, amount, mints, swaps).value;
    var legs := Trade(c, f, mints, swaps);
    if legs.Failure? {
      LegsFailByVenue(c, f.snapshot, f.funded, mints, swaps, 0, 2 * mints);
    } else {
      LegsKeepReserves(c, f.snapshot, f.funded, mints, swaps, 0, 2 * mints);
      SettlementFails(c, f, legs.value.0, mints, swaps);
      var settled := SettleRoute(c, f, legs.value.0, mints, swaps);
      if settled.Success? {
        SettledRouteCloses(c, f, legs.value.0, mints, swaps);
      }
    }
  }

  /** Honest run: with venues that debit at most what they are given, the final reserve check
      never fails, reserves hold at every stage up to settlement, the output account settles
      at exactly its reserve and the user receives exactly the excess, unless the caller
      named the TitanPDA's own account as the destination. */
  lemma HonestRunSucceeds(c: Context, l: Accounts, amount: u64, mints: u8, swaps: seq<Swap>)
    requires c.user != c.titan && RentPaid(c, l) && HonestVenues(c, swaps)
    ensures Execute(c, l, amount, mints, swaps) == Run(c, l, amount, mints, swaps)
    ensures Run(c, l, amount, mints, swaps).Success? ==>
              var r := Run(c, l, amount, mints, swaps).value;
              var own := c.accounts[swaps[|swaps| - 1].to].key;
              var before := if Exists(At(r.traded, c.outputAccount))
                            then At(r.traded, c.outputAccount).amount else 0;
              && KeepsReserves(c, r.snapshot, r.funded)
              && KeepsReserves(c, r.snapshot, r.traded)
              && KeepsReserves(c, r.snapshot, r.settled)
              && (c.outputAccount != own ==>
                    && At(r.settled, own).amount == At(r.snapshot, own).amount
                    && At(r.settled, c.outputAccount).amount
                       == before + (At(r.traded, own).amount - At(r.snapshot, own).amount))
  {
    if Run(c, l, amount, mints, swaps).Success? {
      hide RunLegs, RentPaid, AllRecognised, Fund, CloseCreated, DistinctKeys, Settle, HonestVenues, ReservesHold;
      FundedRoute(c, l, amount, mints, swaps);
      var f := Fund(c, l, amount, mints, swaps).value;
      var r := Run(c, l, amount, mints, swaps).value;
      LegsKeepReserves(c, f.snapshot, f.funded, mints, swaps, 0, 2 * mints);
      OutputIsHeld(c, f, mints, swaps);
      var output := OutputIndex(c, mints, swaps);
      SettlementIsExact(c, r.traded, mints, output, At(r.snapshot, AtaKey(c, output)).amount);
      SettlementKeepsReserves(c, r.snapshot, r.traded, mints, output);
      ClosingKeepsHoldings(c, r.settled, mints, 0, r.created);
      HonestRunIsCovered(c, r);
    }
  }

  // ------------------------------------------------------------------------------------
  // Authority
  // ------------------------------------------------------------------------------------

  /** TitanPDA accounts stay TitanPDA accounts; their balances may change. */
  ghost predicate KeepsAuthority(c: Context, before: Accounts, after: Accounts) {
    forall k: Key :: Held(c, At(before, k)) ==> Held(c, At(after, k))
  }

  /** No venue takes a TitanPDA account over. */
  ghost predicate LoyalVenues(c: Context, swaps: seq<Swap>) {
    forall l: Accounts, k: nat, d: Dispatch ::
      k < |swaps| && c.venue(l, k, d).Some? ==> KeepsAuthority(c, l, c.venue(l, k, d).value)
  }

  lemma {:induction false} LegsKeepAuthority(c: Context, l: Accounts, reserves: seq<u64>, swaps: seq<Swap>,
                                             k: nat, offset: nat)
    requires |reserves| <= |c.accounts| && k <= |swaps| && IndicesInRange(swaps, |reserves|)
    requires LoyalVenues(c, swaps) && RunLegs(c, l, reserves, swaps, k, offset).Success?
    ensures KeepsAuthority(c, l, RunLegs(c, l, reserves, swaps, k, offset).value.0)
    decreases |swaps| - k
  {
    hide LegInput, DispatchOf;
    if k < |swaps| {
      assert swaps[k] in swaps;
      var l' := RunLeg(c, l, reserves, k, swaps[k], offset).value.0;
      assert KeepsAuthority(c, l, l');
      hide RunLeg, LoyalVenues;
      LegsKeepAuthority(c, l', reserves, swaps, k + 1, offset + swaps[k].nAccounts);
    }
  }

  lemma SettlementKeepsAuthority(c: Context, l: Accounts, mints: nat, output: nat, reserve: u64)
    requires output < mints && 2 * mints <= |c.accounts|
    requires Settle(c, l, mints, output, reserve).Success?
    ensures KeepsAuthority(c, l, Settle(c, l, mints, output, reserve).value)
  {
  }

  /** Closing touches the created accounts only. */
  lemma {:induction false} ClosingTouchesCreated(c: Context, l: Accounts, mints: nat, i: nat, created: set<nat>, k: Key)
    requires i <= mints <= |c.accounts|
    requires forall j :: i <= j < mints && j in created ==> AtaKey(c, j) != k
    requires CloseCreated(c, l, mints, i, created).Success?
    ensures At(CloseCreated(c, l, mints, i, created).value, k) == At(l, k)
    decreases mints - i
  {
    if i < mints {
      if i !in created || Holding(l, AtaKey(c, i)) > 0 {
        ClosingTouchesCreated(c, l, mints, i + 1, created, k);
      } else {
        ClosingTouchesCreated(c, Close(l, AtaKey(c, i), c.titan).value, mints, i + 1, created, k);
      }
    }
  }

  /** The route created the account, at an index from i on. */
  predicate WasCreated(c: Context, created: set<nat>, mints: nat, i: nat, k: Key)
    requires mints <= |c.accounts|
  {
    exists j: nat :: i <= j < mints && j in created && AtaKey(c, j) == k
  }

  /** The final check reads balances alone, so that an account remains the TitanPDA's takes loyal
      venues: with them, whatever else they do, every TitanPDA account of the snapshot is one at
      the end, except that an account the route created may have been closed. */
  lemma AuthorityPersists(c: Context, l: Accounts, amount: u64, mints: u8, swaps: seq<Swap>, k: Key)
    requires c.user != c.titan && RentPaid(c, l) && LoyalVenues(c, swaps)
    requires Run(c, l, amount, mints, swaps).Success?
    requires Held(c, At(Run(c, l, amount, mints, swaps).value.snapshot, k))
    ensures Held(c, At(Run(c, l, amount, mints, swaps).value.final, k))
         || (At(Run(c, l, amount, mints, swaps).value.final, k) == NO_ACCOUNT
             && WasCreated(c, Run(c, l, amount, mints, swaps).value.created, mints, 0, k))
  {
    hide RunLegs, RentPaid, AllRecognised, Fund, CloseCreated, DistinctKeys, Settle, LoyalVenues;
    FundedRoute(c, l, amount, mints, swaps);
    var f := Fund(c, l, amount, mints, swaps).value;
    var r := Run(c, l, amount, mints, swaps).value;
    LegsKeepAuthority(c, f.funded, Reserves(c, f.snapshot, mints), swaps, 0, 2 * mints);
    var output := OutputIndex(c, mints, swaps);
    SettlementKeepsAuthority(c, r.traded, mints, output, At(f.snapshot, AtaKey(c, output)).amount);
    assert Held(c, At(r.settled, k));
    ClosingKeepsHoldings(c, r.settled, mints, 0, r.created);
    if !WasCreated(c, r.created, mints, 0, k) {
      ClosingTouchesCreated(c, r.settled, mints, 0, r.created, k);
    }
  }

  const TAKEOVER_METAS: seq<Meta> :=
    [Meta(10, false, true), Meta(11, false, true), Meta(20, false, false), Meta(21, false, false),
     Meta(30, false, false)]

  /** A route of one leg whose venue pays nothing, leaves all balances, and makes account 10 its
      own. */
  const TAKEOVER: Context := Context(
    1, 2, 3, 4, None, TAKEOVER_METAS, 999, (m: Key) => 0, (m: Key) => 0,
    (l: Accounts, amount: u64) => true,
    (l: Accounts, k: nat, d: Dispatch) => Some(l[10 := At(l, 10).(authority := 99)]))

  function TokenAccount(authority: Key, mint: Key, amount: u64): Account {
    Account(true, true, 165, authority, mint, amount)
  }

  const MINT: Account := Account(true, true, 82, 0, 0, 0)

  const BEFORE_TAKEOVER: Accounts :=
    map[10 := TokenAccount(1, 20, 7), 11 := TokenAccount(1, 21, 0), 20 := MINT, 21 := MINT,
        3 := TokenAccount(2, 20, 5), 4 := TokenAccount(2, 21, 0)]

  const TAKEOVER_SWAPS: seq<Swap> := [Swap(RaydiumAmm, 0, 1, 1_000_000_000, 1)]

  lemma TakeoverIsFunded()
    ensures Fund(TAKEOVER, BEFORE_TAKEOVER, 5, 2, TAKEOVER_SWAPS)
         == Success(Funding(BEFORE_TAKEOVER, {},
                            BEFORE_TAKEOVER[3 := TokenAccount(2, 20, 0)][10 := TokenAccount(1, 20, 12)]))
  {
    var c, l := TAKEOVER, BEFORE_TAKEOVER;
    assert IndicesInRange(TAKEOVER_SWAPS, 2);
    assert CreateAtas(c, l, 2, 0, {}) == Success((l, {})) by {
      assert CreateAtas(c, l, 2, 1, {}) == CreateAtas(c, l, 2, 2, {});
    }
    assert AllRecognised(c, l, 2);
  }

  lemma TakeoverTrades(f: Funding)
    requires f == Funding(BEFORE_TAKEOVER, {},
                          BEFORE_TAKEOVER[3 := TokenAccount(2, 20, 0)][10 := TokenAccount(1, 20, 12)])
    ensures Routable(TAKEOVER, 2, TAKEOVER_SWAPS)
    ensures Trade(TAKEOVER, f, 2, TAKEOVER_SWAPS).Success?
    ensures Trade(TAKEOVER, f, 2, TAKEOVER_SWAPS).value.0 == f.funded[10 := TokenAccount(99, 20, 12)]
  {
    var c := TAKEOVER;
    var reserves := Reserves(c, f.snapshot, 2);
    assert IndicesInRange(TAKEOVER_SWAPS, 2);
    assert reserves[0] == 7;
    assert LegInput(12, 7, 1_000_000_000) == 5;
    hide LegInput, DispatchOf;
    var l' := f.funded[10 := TokenAccount(99, 20, 12)];
    assert RunLeg(c, f.funded, reserves, 0, TAKEOVER_SWAPS[0], 4).value.0 == l';
    assert RunLegs(c, l', reserves, TAKEOVER_SWAPS, 1, 5) == Success((l', []));
  }

  lemma TakeoverSettles(f: Funding, traded: Accounts)
    requires f == Funding(BEFORE_TAKEOVER, {}, f.funded)
    requires traded == BEFORE_TAKEOVER[3 := TokenAccount(2, 20, 0)][10 := TokenAccount(99, 20, 12)]
    requires Routable(TAKEOVER, 2, TAKEOVER_SWAPS)
    ensures SettleRoute(TAKEOVER, f, traded, 2, TAKEOVER_SWAPS) == Success(traded)
    ensures CloseCreated(TAKEOVER, traded, 2, 0, {}) == Success(traded)
  {
    assert CloseCreated(TAKEOVER, traded, 2, 1, {}) == CloseCreated(TAKEOVER, traded, 2, 2, {});
  }

  lemma TakeoverPassesCheck(traded: Accounts)
    requires traded == BEFORE_TAKEOVER[3 := TokenAccount(2, 20, 0)][10 := TokenAccount(99, 20, 12)]
    ensures ReservesHold(TAKEOVER, BEFORE_TAKEOVER, traded, CompactBalances(TAKEOVER, BEFORE_TAKEOVER, 0), 0, 0)
  {
    CheckIsPointwise(TAKEOVER, BEFORE_TAKEOVER, traded);
    forall i | 0 <= i < 5 && Recognised(TAKEOVER, BEFORE_TAKEOVER, i)
      ensures Covered(TAKEOVER, BEFORE_TAKEOVER, traded, i)
    {
      assert i == 0 || i == 1;
    }
  }

  /** The check does not read authorities: on this route it passes, though 12 tokens, of which
      7 were there before the route, have gone to the venue's authority. */
  lemma CheckIgnoresAuthority()
    ensures Execute(TAKEOVER, BEFORE_TAKEOVER, 5, 2, TAKEOVER_SWAPS).Success?
    ensures var r := Execute(TAKEOVER, BEFORE_TAKEOVER, 5, 2, TAKEOVER_SWAPS).value;
            && Recognised(TAKEOVER, r.snapshot, 0) && At(r.snapshot, 10).amount == 7
            && !Recognised(TAKEOVER, r.final, 0) && At(r.final, 10) == TokenAccount(99, 20, 12)
  {
    hide Fund, Trade, SettleRoute, CloseCreated, ReservesHold, CompactBalances;
    TakeoverIsFunded();
    var f := Fund(TAKEOVER, BEFORE_TAKEOVER, 5, 2, TAKEOVER_SWAPS).value;
    TakeoverTrades(f);
    var traded := Trade(TAKEOVER, f, 2, TAKEOVER_SWAPS).value.0;
    assert traded == BEFORE_TAKEOVER[3 := TokenAccount(2, 20, 0)][10 := TokenAccount(99, 20, 12)];
    TakeoverSettles(f, traded);
    TakeoverPassesCheck(traded);
  }

  /** A leg spends its share of what is above the reserve, rounded down; a weight beyond the
      whole counts as the whole, and the whole spends everything. */
  lemma LegSpendsItsShare(balance: u64, reserve: u64, weightNanos: u32)
    ensures var input := LegInput(balance, reserve, weightNanos);
            && ALL_NANOS * input <= SatSub(balance, reserve) * Min(weightNanos, ALL_NANOS) < ALL_NANOS * (input + 1)
            && (weightNanos >= ALL_NANOS ==> input == SatSub(balance, reserve))
  {
    MulDivBounds(SatSub(balance, reserve), Min(weightNanos, ALL_NANOS), ALL_NANOS);
    MulDivAtLeast(SatSub(balance, reserve), ALL_NANOS, ALL_NANOS, SatSub(balance, reserve));
  }

  /** The payment in tokens moves exactly the effective amount, with or without a record. */
  lemma TokenPaymentIsExact(c: Context, l: Accounts, mints: nat, recorded: Option<u64>, amount: u64)
    requires 0 < mints < |c.accounts| && !PaysInSol(c, mints, recorded) && c.inputAccount != AtaKey(c, 0)
    requires Pay(c, l, mints, recorded, amount).Success?
    ensures At(Pay(c, l, mints, recorded, amount).value, AtaKey(c, 0)).amount == At(l, AtaKey(c, 0)).amount + amount
    ensures At(Pay(c, l, mints, recorded, amount).value, c.inputAccount).amount
         == At(l, c.inputAccount).amount - amount
  {
  }

  /** The payment in SOL wraps exactly what the input account lacks. */
  lemma SolPaymentIsExact(c: Context, l: Accounts, mints: nat, recorded: Option<u64>, amount: u64)
    requires 0 < mints < |c.accounts| && PaysInSol(c, mints, recorded) && c.inputAccount != AtaKey(c, 0)
    requires Pay(c, l, mints, recorded, amount).Success?
    ensures At(Pay(c, l, mints, recorded, amount).value, AtaKey(c, 0)).amount == At(l, AtaKey(c, 0)).amount + amount
    ensures Exists(At(l, c.inputAccount)) ==>
              At(Pay(c, l, mints, recorded, amount).value, c.inputAccount).amount
              == SatSub(At(l, c.inputAccount).amount, amount)
    ensures !Exists(At(l, c.inputAccount)) ==>
              At(Pay(c, l, mints, recorded, amount).value, c.inputAccount) == NO_ACCOUNT
  {
  }

  lemma SolHasNoRecord(c: Context, mints: nat, recorded: Option<u64>)
    requires mints < |c.accounts| && PaysInSol(c, mints, recorded)
    ensures recorded.None?
  {
  }

  /** The first TitanPDA account gains exactly the effective amount.  With a recorded balance
      that is what the user's account had gained since, and it is left at the record; without
      one it is the requested amount, taken from the user's account, or wrapped as far as that
      account lacks it; and an account created only for wrapping is gone afterwards. */
  lemma PaymentIsExact(c: Context, l: Accounts, amount: u64, mints: u8, swaps: seq<Swap>)
    requires Run(c, l, amount, mints, swaps).Success?
    ensures mints < |c.accounts| && ReadTokenLedger(c).Success?
    ensures var r := Run(c, l, amount, mints, swaps).value;
            var to, from, recorded := AtaKey(c, 0), c.inputAccount, ReadTokenLedger(c).value;
            from != to ==>
              && At(r.funded, to).amount - At(r.snapshot, to).amount
                 == (if recorded.Some? then At(r.snapshot, from).amount - recorded.value else amount)
              && (recorded.Some? ==> At(r.funded, from).amount == recorded.value < At(r.snapshot, from).amount)
              && (recorded.None? && !PaysInSol(c, mints, recorded) ==>
                    At(r.funded, from).amount == At(r.snapshot, from).amount - amount)
              && (PaysInSol(c, mints, recorded) ==>
                    if Exists(At(r.snapshot, from))
                    then At(r.funded, from).amount == SatSub(At(r.snapshot, from).amount, amount)
                    else At(r.funded, from) == NO_ACCOUNT)
  {
    hide RunLegs, Settle, CloseCreated, CreateAtas, Pay, PaysInSol;
    var r := Run(c, l, amount, mints, swaps).value;
    var recorded := ReadTokenLedger(c).value;
    var effective := EffectiveAmount(c, r.snapshot, recorded, amount).value;
    assert Pay(c, r.snapshot, mints, recorded, effective) == Success(r.funded);
    if c.inputAccount != AtaKey(c, 0) {
      if PaysInSol(c, mints, recorded) {
        SolPaymentIsExact(c, r.snapshot, mints, recorded, effective);
        assert recorded.None? by { SolHasNoRecord(c, mints, recorded); }
      } else {
        TokenPaymentIsExact(c, r.snapshot, mints, recorded, effective);
      }
    }
  }

  // ------------------------------------------------------------------------------------
  // Dispatch
  // ------------------------------------------------------------------------------------

  /** d is leg k's call: a positive amount and the k-th slice of the accounts from `start`. */
  ghost predicate DispatchesLeg(c: Context, swaps: seq<Swap>, start: nat, k: nat, d: Dispatch) {
    && k < |swaps| && swaps[k].nAccounts > 0 && d.amount > 0
    && start + AccountsBefore(swaps, k) + swaps[k].nAccounts <= |c.accounts|
    && d == DispatchOf(c, swaps[k], start + AccountsBefore(swaps, k), d.amount)
  }

  ghost predicate InOrder(log: seq<(nat, Dispatch)>) {
    forall i, j :: 0 <= i < j < |log| ==> log[i].0 < log[j].0
  }

  /** A leg that runs makes at most one call, of a positive amount and with its own accounts. */
  lemma LegCallsOnce(c: Context, l: Accounts, reserves: seq<u64>, k: nat, swap: Swap, offset: nat)
    requires |reserves| <= |c.accounts| && swap.from < |reserves|
    requires RunLeg(c, l, reserves, k, swap, offset).Success?
    ensures |RunLeg(c, l, reserves, k, swap, offset).value.1| <= 1
    ensures forall e :: e in RunLeg(c, l, reserves, k, swap, offset).value.1 ==>
              && e.0 == k && e.1.amount > 0
              && swap.nAccounts > 0 && offset + swap.nAccounts <= |c.accounts|
              && e.1 == DispatchOf(c, swap, offset, e.1.amount)
  {
    hide LegInput, DispatchMetas;
  }

  /** The calls logged by the legs from k on: each belongs to a later leg than the one before
      it, moves a positive amount, and passes that leg's own slice of the accounts, whichever
      earlier legs were skipped. */
  lemma {:induction false} LegsDispatchTheirSlices(c: Context, l: Accounts, reserves: seq<u64>, swaps: seq<Swap>,
                                                   k: nat, start: nat)
    requires |reserves| <= |c.accounts| && k <= |swaps| && IndicesInRange(swaps, |reserves|)
    requires RunLegs(c, l, reserves, swaps, k, start + AccountsBefore(swaps, k)).Success?
    ensures forall e :: e in RunLegs(c, l, reserves, swaps, k, start + AccountsBefore(swaps, k)).value.1 ==>
              DispatchesLeg(c, swaps, start, e.0, e.1) && k <= e.0
    ensures InOrder(RunLegs(c, l, reserves, swaps, k, start + AccountsBefore(swaps, k)).value.1)
    decreases |swaps| - k
  {
    hide RunLeg, DispatchOf;
    if k < |swaps| {
      assert swaps[k] in swaps;
      var offset := start + AccountsBefore(swaps, k);
      LegCallsOnce(c, l, reserves, k, swaps[k], offset);
      var leg := RunLeg(c, l, reserves, k, swaps[k], offset).value;
      assert offset + swaps[k].nAccounts == start + AccountsBefore(swaps, k + 1);
      LegsDispatchTheirSlices(c, leg.0, reserves, swaps, k + 1, start);
    }
  }

  // ------------------------------------------------------------------------------------
  // What every leg does
  // ------------------------------------------------------------------------------------

  /** The metas are those of all accounts but the last, the TitanPDA signing besides whoever
      signed. */
  ghost predicate PassesOn(infos: seq<Meta>, titan: Key, metas: seq<Meta>) {
    && |metas| + 1 == |infos|
    && forall i :: 0 <= i < |metas| ==>
         metas[i] == Meta(infos[i].key, infos[i].isSigner || infos[i].key == titan, infos[i].isWritable)
  }

  /** Leg k takes one ledger to the next: of its input account's balance above the reserve it
      spends its weight, in billionths and no more than all, rounded down.  If that is nothing
      it makes no call and changes nothing; otherwise it makes one, with its own accounts. */
  ghost predicate LegStep(c: Context, before: Accounts, after: Accounts, reserves: seq<u64>, k: nat, swap: Swap,
                          offset: nat, calls: seq<(nat, Dispatch)>)
    requires swap.from < |reserves| <= |c.accounts|
  {
    var own := At(before, c.accounts[swap.from].key);
    var above := if own.amount > reserves[swap.from] then own.amount - reserves[swap.from] else 0;
    var share := above * (if swap.weightNanos < 1_000_000_000 then swap.weightNanos else 1_000_000_000);
    && own.dataLen >= 72 && swap.nAccounts > 0 && offset + swap.nAccounts <= |c.accounts|
    && if share < 1_000_000_000 then calls == [] && after == before
       else
         && |calls| == 1 && calls[0].0 == k
         && var d := calls[0].1;
            && 1_000_000_000 * d.amount <= share < 1_000_000_000 * (d.amount + 1)
            && d.venue == swap.venue
            && d.infos == c.accounts[offset..offset + swap.nAccounts]
            && PassesOn(d.infos, c.titan, d.metas)
            && c.venue(before, k, d) == Some(after)
  }

  lemma PassesOnIff(infos: seq<Meta>, titan: Key, metas: seq<Meta>)
    requires infos != []
    ensures PassesOn(infos, titan, metas) <==> metas == DispatchMetas(infos, titan)
  {
  }

  lemma QuotientOf(input: nat, share: nat)
    requires 1_000_000_000 * input <= share < 1_000_000_000 * (input + 1)
    ensures input == 0 <==> share < 1_000_000_000
    ensures forall other: nat :: 1_000_000_000 * other <= share < 1_000_000_000 * (other + 1) ==> other == input
  {
  }

  /** A leg succeeds with a ledger and calls exactly when they are those of its step. */
  lemma LegIsStep(c: Context, before: Accounts, after: Accounts, reserves: seq<u64>, k: nat, swap: Swap,
                  offset: nat, calls: seq<(nat, Dispatch)>)
    requires swap.from < |reserves| <= |c.accounts|
    ensures RunLeg(c, before, reserves, k, swap, offset) == Success((after, calls)) <==>
            LegStep(c, before, after, reserves, k, swap, offset, calls)
  {
    hide DispatchMetas, LegInput, PassesOn;
    var balance := At(before, c.accounts[swap.from].key).amount;
    var input := LegInput(balance, reserves[swap.from], swap.weightNanos);
    LegSpendsItsShare(balance, reserves[swap.from], swap.weightNanos);
    QuotientOf(input, SatSub(balance, reserves[swap.from]) * Min(swap.weightNanos, ALL_NANOS));
    if offset + swap.nAccounts <= |c.accounts| {
      assert c.accounts[offset..][..swap.nAccounts] == c.accounts[offset..offset + swap.nAccounts];
    }
    if |calls| == 1 {
      assert calls == [(calls[0].0, calls[0].1)];
      if calls[0].1.infos != [] {
        PassesOnIff(calls[0].1.infos, c.titan, calls[0].1.metas);
      }
    }
  }

  /** Why a leg fails. */
  lemma LegFailsIff(c: Context, l: Accounts, reserves: seq<u64>, k: nat, swap: Swap, offset: nat)
    requires swap.from < |reserves| <= |c.accounts|
    ensures var r := RunLeg(c, l, reserves, k, swap, offset);
            && (r == Failure(InvalidSwapInput) <==> swap.nAccounts == 0)
            && (r == Failure(MissingRemainingAccount) <==>
                  swap.nAccounts > 0 && offset + swap.nAccounts > |c.accounts|)
            && (r == Failure(InvalidAccountData) <==>
                  swap.nAccounts > 0 && offset + swap.nAccounts <= |c.accounts|
                  && At(l, c.accounts[swap.from].key).dataLen < 72)
            && (r.Failure? ==>
                  r.error in {InvalidSwapInput, MissingRemainingAccount, InvalidAccountData, VenueFailed})
  {
    hide LegInput, DispatchOf;
  }

  /** The calls of several legs in turn. */
  function Joined(calls: seq<seq<(nat, Dispatch)>>): seq<(nat, Dispatch)> {
    if calls == [] then [] else calls[0] + Joined(calls[1..])
  }

  ghost predicate StepAt(c: Context, reserves: seq<u64>, swaps: seq<Swap>, k: nat, start: nat,
                         before: Accounts, after: Accounts, calls: seq<(nat, Dispatch)>)
    requires |reserves| <= |c.accounts|
  {
    k < |swaps| && swaps[k].from < |reserves|
    && LegStep(c, before, after, reserves, k, swaps[k], start + AccountsBefore(swaps, k), calls)
  }

  /** The legs from index k on step from ledger to ledger, making these calls. */
  ghost predicate Steps(c: Context, reserves: seq<u64>, swaps: seq<Swap>, k: nat, start: nat,
                        ledgers: seq<Accounts>, calls: seq<seq<(nat, Dispatch)>>)
    requires |reserves| <= |c.accounts| && k <= |swaps| && IndicesInRange(swaps, |reserves|)
  {
    && |calls| == |swaps| - k && |ledgers| == |calls| + 1
    && forall j :: 0 <= j < |calls| ==> StepAt(c, reserves, swaps, k + j, start, ledgers[j], ledgers[j + 1], calls[j])
  }

  /** Legs that succeed have a ledger for each of them to start from. */
  lemma {:induction false} LegsAreSteps(c: Context, l: Accounts, reserves: seq<u64>, swaps: seq<Swap>, k: nat,
                                        start: nat)
    returns (ledgers: seq<Accounts>, calls: seq<seq<(nat, Dispatch)>>)
    requires |reserves| <= |c.accounts| && k <= |swaps| && IndicesInRange(swaps, |reserves|)
    requires RunLegs(c, l, reserves, swaps, k, start + AccountsBefore(swaps, k)).Success?
    ensures Steps(c, reserves, swaps, k, start, ledgers, calls)
    ensures ledgers[0] == l
    ensures RunLegs(c, l, reserves, swaps, k, start + AccountsBefore(swaps, k)).value
         == (ledgers[|ledgers| - 1], Joined(calls))
    decreases |swaps| - k
  {
    hide RunLeg, LegStep;
    if k == |swaps| {
      ledgers, calls := [l], [];
    } else {
      assert swaps[k] in swaps;
      var offset := start + AccountsBefore(swaps, k);
      var leg := RunLeg(c, l, reserves, k, swaps[k], offset).value;
      LegIsStep(c, l, leg.0, reserves, k, swaps[k], offset, leg.1);
      assert offset + swaps[k].nAccounts == start + AccountsBefore(swaps, k + 1);
      var restLedgers, restCalls := LegsAreSteps(c, leg.0, reserves, swaps, k + 1, start);
      ledgers, calls := [l] + restLedgers, [leg.1] + restCalls;
      assert calls[1..] == restCalls;
      forall j | 0 < j < |calls|
        ensures StepAt(c, reserves, swaps, k + j, start, ledgers[j], ledgers[j + 1], calls[j])
      {
        assert StepAt(c, reserves, swaps, k + 1 + (j - 1), start, restLedgers[j - 1], restLedgers[j], restCalls[j - 1]);
      }
    }
  }

  /** And legs that step from ledger to ledger succeed, with those calls. */
  lemma {:induction false} StepsAreLegs(c: Context, reserves: seq<u64>, swaps: seq<Swap>, k: nat, start: nat,
                                        ledgers: seq<Accounts>, calls: seq<seq<(nat, Dispatch)>>)
    requires |reserves| <= |c.accounts| && k <= |swaps| && IndicesInRange(swaps, |reserves|)
    requires Steps(c, reserves, swaps, k, start, ledgers, calls)
    ensures RunLegs(c, ledgers[0], reserves, swaps, k, start + AccountsBefore(swaps, k))
         == Success((ledgers[|ledgers| - 1], Joined(calls)))
    decreases |swaps| - k
  {
    hide RunLeg, LegStep;
    if k < |swaps| {
      var offset := start + AccountsBefore(swaps, k);
      assert StepAt(c, reserves, swaps, k + 0, start, ledgers[0], ledgers[1], calls[0]);
      assert swaps[k] in swaps;
      LegIsStep(c, ledgers[0], ledgers[1], reserves, k, swaps[k], offset, calls[0]);
      assert offset + swaps[k].nAccounts == start + AccountsBefore(swaps, k + 1);
      forall j | 0 <= j < |calls| - 1
        ensures StepAt(c, reserves, swaps, k + 1 + j, start, ledgers[1..][j], ledgers[1..][j + 1], calls[1..][j])
      {
        assert StepAt(c, reserves, swaps, k + (j + 1), start, ledgers[j + 1], ledgers[j + 2], calls[j + 1]);
      }
      StepsAreLegs(c, reserves, swaps, k + 1, start, ledgers[1..], calls[1..]);
    }
  }

  /** Every leg of a successful route spends its weight of what its input account then holds
      above the balance of the snapshot. */
  lemma RouteIsSteps(c: Context, l: Accounts, amount: u64, mints: u8, swaps: seq<Swap>)
    returns (reserves: seq<u64>, ledgers: seq<Accounts>, calls: seq<seq<(nat, Dispatch)>>)
    requires Run(c, l, amount, mints, swaps).Success?
    ensures 2 * mints <= |c.accounts| && IndicesInRange(swaps, mints) && |reserves| == mints
    ensures forall i :: 0 <= i < mints ==>
              reserves[i] == At(Run(c, l, amount, mints, swaps).value.snapshot, c.accounts[i].key).amount
    ensures Steps(c, reserves, swaps, 0, 2 * mints, ledgers, calls)
    ensures ledgers[0] == Run(c, l, amount, mints, swaps).value.funded
    ensures ledgers[|ledgers| - 1] == Run(c, l, amount, mints, swaps).value.traded
    ensures Run(c, l, amount, mints, swaps).value.log == Joined(calls)
  {
    hide RunLegs, Settle, CloseCreated, Fund;
    var r := Run(c, l, amount, mints, swaps).value;
    reserves := Reserves(c, r.snapshot, mints);
    ledgers, calls := LegsAreSteps(c, r.funded, reserves, swaps, 0, 2 * mints);
  }

  lemma LogOfRun(c: Context, l: Accounts, amount: u64, mints: u8, swaps: seq<Swap>)
    requires Run(c, l, amount, mints, swaps).Success?
    ensures forall e :: e in Run(c, l, amount, mints, swaps).value.log ==> DispatchesLeg(c, swaps, 2 * mints, e.0, e.1)
    ensures InOrder(Run(c, l, amount, mints, swaps).value.log)
  {
    hide RunLegs, DispatchesLeg, InOrder, Settle, CloseCreated;
    var r := Run(c, l, amount, mints, swaps).value;
    LegsDispatchTheirSlices(c, r.funded, Reserves(c, r.snapshot, mints), swaps, 0, 2 * mints);
  }

  /** What a leg is built from. */
  datatype Source = Source(quoter: Quoter, request: Request)

  /** The legs of a route, each built off-chain by `build_swap_leg`, with at most 255 accounts. */
  ghost predicate BuiltFrom(c: Context, swaps: seq<Swap>, sources: seq<Source>, legs: seq<seq<Meta>>) {
    && |swaps| == |sources| == |legs|
    && forall k :: 0 <= k < |swaps| ==>
         && |legs[k]| <= 255
         && BuildSwapLeg(sources[k].quoter, sources[k].request, c.titan,
                         swaps[k].from, swaps[k].to, swaps[k].weightNanos)
            == Some((swaps[k], legs[k]))
  }

  /** A leg asked for between two indices, at a weight. */
  datatype LegRequest = LegRequest(source: Source, from: u8, to: u8, weightNanos: u32)

  /** The legs of any requests their venues accept, with at most 254 accounts each, can be built,
      in order and with the indices and weights asked for. */
  lemma LegsCanBeBuilt(c: Context, asked: seq<LegRequest>)
    returns (swaps: seq<Swap>, legs: seq<seq<Meta>>)
    requires forall k :: 0 <= k < |asked| ==>
               && GenerateSwapInstruction(asked[k].source.quoter, asked[k].source.request, c.titan).Some?
               && |GenerateSwapInstruction(asked[k].source.quoter, asked[k].source.request, c.titan).value.metas| <= 254
    ensures |swaps| == |asked|
    ensures BuiltFrom(c, swaps, seq(|asked|, k requires 0 <= k < |asked| => asked[k].source), legs)
    ensures forall k :: 0 <= k < |asked| ==>
              && swaps[k].from == asked[k].from && swaps[k].to == asked[k].to
              && swaps[k].weightNanos == asked[k].weightNanos
  {
    swaps, legs := [], [];
    for i := 0 to |asked|
      invariant |swaps| == |legs| == i
      invariant forall k :: 0 <= k < i ==>
                  && swaps[k].from == asked[k].from && swaps[k].to == asked[k].to
                  && swaps[k].weightNanos == asked[k].weightNanos
                  && |legs[k]| <= 255
                  && BuildSwapLeg(asked[k].source.quoter, asked[k].source.request, c.titan,
                                  asked[k].from, asked[k].to, asked[k].weightNanos)
                     == Some((swaps[k], legs[k]))
    {
      LegCarriesItsRequest(asked[i].source.quoter, asked[i].source.request, c.titan,
                           asked[i].from, asked[i].to, asked[i].weightNanos);
      var built := BuildSwapLeg(asked[i].source.quoter, asked[i].source.request, c.titan,
                                asked[i].from, asked[i].to, asked[i].weightNanos).value;
      swaps, legs := swaps + [built.0], legs + [built.1];
    }
  }

  /** d is the venue's own instruction for the amount it moves: what the venue generates for
      that amount and the TitanPDA as its user, signed by the TitanPDA. */
  ghost predicate CallsVenue(c: Context, source: Source, d: Dispatch) {
    var ix := GenerateSwapInstruction(source.quoter, source.request.(amount := d.amount), c.titan);
    && ix.Some?
    && CpiData(d.venue, d.amount) == ix.value.data
    && d.metas == TitanSigns(ix.value.metas, c.titan)
  }

  /** What a leg built off-chain carries. */
  lemma BuiltLeg(source: Source, titan: Key, swap: Swap, leg: seq<Meta>)
    requires |leg| <= 255
    requires BuildSwapLeg(source.quoter, source.request, titan, swap.from, swap.to, swap.weightNanos)
          == Some((swap, leg))
    ensures GenerateSwapInstruction(source.quoter, source.request, titan).Some?
    ensures leg == AssembleLegAccounts(GenerateSwapInstruction(source.quoter, source.request, titan).value.metas,
                                       titan, source.quoter.programId)
    ensures swap.venue == ProtocolToVenue(source.quoter, source.request) && swap.nAccounts == |leg|
  {
    hide GenerateSwapInstruction, AssembleLegAccounts, ProtocolToVenue;
  }

  /** A call of leg k on a route built off-chain is the venue's own instruction. */
  lemma BuiltLegIsDispatched(c: Context, swaps: seq<Swap>, sources: seq<Source>, legs: seq<seq<Meta>>,
                             header: seq<Meta>, k: nat, d: Dispatch)
    requires BuiltFrom(c, swaps, sources, legs) && c.accounts == header + Concat(legs)
    requires DispatchesLeg(c, swaps, |header|, k, d)
    ensures CallsVenue(c, sources[k], d) && d.infos == legs[k]
  {
    hide Concat, AccountsBefore, DispatchMetas, TitanSigns, CpiData, BuildSwapLeg, GenerateSwapInstruction,
         AssembleLegAccounts, ProtocolToVenue;
    var q, r := sources[k].quoter, sources[k].request;
    forall i | 0 <= i < |swaps|
      ensures swaps[i].nAccounts == |legs[i]|
    {
      BuiltLeg(sources[i], c.titan, swaps[i], legs[i]);
    }
    LegIsRecovered(swaps, legs, header, k);
    BuiltLeg(sources[k], c.titan, swaps[k], legs[k]);
    CpiDataAgrees(q, r, c.titan, d.amount);
    DispatchRestoresMetas(GenerateSwapInstruction(q, r, c.titan).value.metas, c.titan, q.programId);
  }

  /** Build and dispatch: when the account list is the route's header followed by legs built
      off-chain, every call a successful route makes is the instruction the leg's own venue
      would have generated for the amount moved, in data and accounts, with the TitanPDA
      signing; no leg is called twice or out of order. */
  lemma BuiltLegsAreDispatched(c: Context, l: Accounts, amount: u64, mints: u8, swaps: seq<Swap>,
                               sources: seq<Source>, legs: seq<seq<Meta>>, header: seq<Meta>)
    requires BuiltFrom(c, swaps, sources, legs)
    requires |header| == 2 * mints && c.accounts == header + Concat(legs)
    requires Run(c, l, amount, mints, swaps).Success?
    ensures InOrder(Run(c, l, amount, mints, swaps).value.log)
    ensures forall e :: e in Run(c, l, amount, mints, swaps).value.log ==>
              && e.0 < |swaps|
              && e.1.amount > 0
              && CallsVenue(c, sources[e.0], e.1)
              && e.1.infos == legs[e.0]
  {
    LogOfRun(c, l, amount, mints, swaps);
    hide Run, CallsVenue;
    forall e | e in Run(c, l, amount, mints, swaps).value.log
      ensures e.0 < |swaps| && e.1.amount > 0 && CallsVenue(c, sources[e.0], e.1) && e.1.infos == legs[e.0]
    {
      BuiltLegIsDispatched(c, swaps, sources, legs, header, e.0, e.1);
    }
  }
}
