/** The route program as it runs: one ledger, updated in place. */
module RouterProgram {
  import opened Numbers
  import opened Quoting
  import opened SwapRoute
  import opened Ledger
  import opened Router
  import opened Bitmap

  /** Prepends the calls already made. */
  function LogAfter(log: seq<(nat, Dispatch)>, rest: Outcome<(Accounts, seq<(nat, Dispatch)>)>)
    : Outcome<(Accounts, seq<(nat, Dispatch)>)>
  {
    if rest.Failure? then rest else Success((rest.value.0, log + rest.value.1))
  }

  lemma NoCallsYet(rest: Outcome<(Accounts, seq<(nat, Dispatch)>)>)
    ensures LogAfter([], rest) == rest
  {
    if rest.Success? {
      assert [] + rest.value.1 == rest.value.1;
    }
  }

  lemma CallsAppend(log: seq<(nat, Dispatch)>, call: seq<(nat, Dispatch)>,
                    rest: Outcome<(Accounts, seq<(nat, Dispatch)>)>)
    ensures LogAfter(log, LogAfter(call, rest)) == LogAfter(log + call, rest)
  {
    if rest.Success? {
      assert log + (call + rest.value.1) == (log + call) + rest.value.1;
    }
  }

  /** The marked indices below n. */
  ghost function MarkedIndices(c: Context, l: Accounts, n: nat): set<nat>
    requires n <= |c.accounts|
  {
    set i: nat | i < n && Marked(c, l, i)
  }

  lemma MarkNext(c: Context, l: Accounts, i: nat)
    requires i < |c.accounts|
    ensures MarkedIndices(c, l, i + 1) == MarkedIndices(c, l, i) + if Marked(c, l, i) then {i} else {}
  {
  }

  lemma NothingMarked(c: Context, l: Accounts)
    ensures MarkedIndices(c, l, 0) == {}
  {
  }

  lemma CompactNext(c: Context, l: Accounts, i: nat)
    requires i < |c.accounts|
    ensures CompactBalances(c, l, i)
         == if Recognised(c, l, i) then [At(l, c.accounts[i].key).amount] + CompactBalances(c, l, i + 1)
            else CompactBalances(c, l, i + 1)
  {
  }

  lemma CompactEnd(c: Context, l: Accounts)
    ensures CompactBalances(c, l, |c.accounts|) == []
  {
  }

  lemma Appended<T>(a: seq<T>, x: T, b: seq<T>)
    ensures a + ([x] + b) == (a + [x]) + b
  {
  }

  class Program {
    const c: Context
    var ledger: Accounts

    constructor (c: Context, ledger: Accounts)
      ensures this.c == c && this.ledger == ledger
    {
      this.c := c;
      this.ledger := ledger;
    }

    /** Creates the missing TitanPDA accounts. */
    method CreateMissingAtas(mints: nat) returns (r: Outcome<set<nat>>)
      requires 2 * mints <= |c.accounts|
      modifies this
      ensures match CreateAtas(c, old(ledger), mints, 0, {})
              case Success(v) => r == Success(v.1) && ledger == v.0
              case Failure(e) => r == Failure(e)
    {
      ghost var expected := CreateAtas(c, ledger, mints, 0, {});
      var created: set<nat> := {};
      var i := 0;
      while i < mints
        invariant i <= mints
        invariant CreateAtas(c, ledger, mints, i, created) == expected
      {
        if !Exists(At(ledger, AtaKey(c, i))) {
          var mint := c.accounts[mints + i].key;
          var l := CreateAta(ledger, AtaKey(c, i), c.titanAta(mint), c.titan, mint);
          if l.None? {
            return Failure(TokenProgramFailed);
          }
          ledger := l.value;
          created := created + {i};
        }
        i := i + 1;
      }
      return Success(created);
    }

    /** Prepares the wrapped input account; tells whether it was created for that. */
    method SetUpWrapped(mint: Key, amount: u64) returns (r: Outcome<bool>)
      modifies this
      ensures match SetUpWrappedInput(c, old(ledger), mint, amount)
              case Success(v) => r == Success(v.1) && ledger == v.0
              case Failure(e) => r == Failure(e)
    {
      if Exists(At(ledger, c.inputAccount)) {
        var current := AmountOf(At(ledger, c.inputAccount));
        if current.None? {
          return Failure(InvalidAccountData);
        }
        ledger :- Wrap(c, ledger, SatSub(amount, current.value));
        return Success(false);
      }
      var created := CreateAta(ledger, c.inputAccount, c.userAta(mint), c.user, mint);
      if created.None? {
        return Failure(TokenProgramFailed);
      }
      ledger := created.value;
      ledger :- Wrap(c, ledger, amount);
      return Success(true);
    }

    /** Takes the user's payment. */
    method TakePayment(mints: nat, recorded: Option<u64>, amount: u64) returns (r: Outcome<()>)
      requires 0 < mints < |c.accounts|
      modifies this
      ensures match Pay(c, old(ledger), mints, recorded, amount)
              case Success(l) => r == Success(()) && ledger == l
              case Failure(e) => r == Failure(e)
    {
      var createdWrapped := false;
      if PaysInSol(c, mints, recorded) {
        createdWrapped :- SetUpWrapped(c.accounts[mints].key, amount);
      }
      var paid := Transfer(ledger, c.inputAccount, AtaKey(c, 0), c.user, amount);
      if paid.None? {
        return Failure(TokenProgramFailed);
      }
      ledger := paid.value;
      if createdWrapped {
        var closed := CloseWrapped(ledger, c.inputAccount, c.user);
        if closed.None? {
          return Failure(TokenProgramFailed);
        }
        ledger := closed.value;
      }
      return Success(());
    }

    /** Marks the TitanPDA's accounts and records their balances, those of the route's own
        accounts also by index. */
    method Snapshot(mints: nat, bitmap: TitanPdaBitmap, reserved: array<u64>)
      returns (r: Outcome<seq<u64>>)
      requires mints <= |c.accounts| && mints <= reserved.Length
      requires bitmap.Valid() && bitmap.Contents() == {} && bitmap.words != reserved
      modifies bitmap.words, reserved
      ensures r.Success? <==> AllRecognised(c, ledger, mints)
      ensures r.Failure? ==> r.error == InvalidAccountData
      ensures r.Success? ==> r.value == CompactBalances(c, ledger, 0)
      ensures r.Success? ==> bitmap.Contents() == MarkedIndices(c, ledger, |c.accounts|)
      ensures r.Success? ==> reserved[..mints] == Reserves(c, ledger, mints)
    {
      hide CompactBalances, MarkedIndices, OwnedBy;
      var balances: seq<u64> := [];
      var i := 0;
      NothingMarked(c, ledger);
      while i < |c.accounts|
        invariant i <= |c.accounts|
        invariant forall j :: 0 <= j < i && j < mints ==>
                    Recognised(c, ledger, j) && reserved[j] == At(ledger, AtaKey(c, j)).amount
        invariant balances + CompactBalances(c, ledger, i) == CompactBalances(c, ledger, 0)
        invariant bitmap.Contents() == MarkedIndices(c, ledger, i)
      {
        var account := At(ledger, c.accounts[i].key);
        if i < mints {
          if !OwnedBy(account, c.titan) {
            assert !Recognised(c, ledger, i);
            return Failure(InvalidAccountData);
          }
          reserved[i] := account.amount;
        }
        if OwnedBy(account, c.titan) {
          assert Recognised(c, ledger, i);
          bitmap.Set(i);
          Appended(balances, account.amount, CompactBalances(c, ledger, i + 1));
          balances := balances + [account.amount];
        }
        MarkNext(c, ledger, i);
        CompactNext(c, ledger, i);
        i := i + 1;
      }
      CompactEnd(c, ledger);
      assert balances + [] == balances;
      return Success(balances);
    }

    /** One leg: what it may spend of its balance, and the call of its venue if anything. */
    method RunOneLeg(reserved: array<u64>, mints: nat, k: nat, swap: Swap, offset: nat)
      returns (r: Outcome<seq<(nat, Dispatch)>>)
      requires mints <= reserved.Length && mints <= |c.accounts| && swap.from < mints
      modifies this
      ensures match RunLeg(c, old(ledger), reserved[..mints], k, swap, offset)
              case Success(v) => r == Success(v.1) && ledger == v.0
              case Failure(e) => r == Failure(e)
    {
      hide LegInput, DispatchMetas;
      if swap.nAccounts == 0 {
        return Failure(InvalidSwapInput);
      }
      if offset + swap.nAccounts > |c.accounts| {
        return Failure(MissingRemainingAccount);
      }
      var balance := AmountOf(At(ledger, AtaKey(c, swap.from)));
      if balance.None? {
        return Failure(InvalidAccountData);
      }
      var input := LegInput(balance.value, reserved[swap.from], swap.weightNanos);
      if input == 0 {
        return Success([]);
      }
      var d := DispatchOf(c, swap, offset, input);
      var l := c.venue(ledger, k, d);
      if l.None? {
        return Failure(VenueFailed);
      }
      ledger := l.value;
      return Success([(k, d)]);
    }

    /** Runs the legs in turn, moving past a leg's accounts whether or not it was called. */
    method RunAllLegs(reserved: array<u64>, mints: nat, swaps: seq<Swap>) returns (r: Outcome<seq<(nat, Dispatch)>>)
      requires mints <= reserved.Length && mints <= |c.accounts| && IndicesInRange(swaps, mints)
      modifies this
      ensures match RunLegs(c, old(ledger), reserved[..mints], swaps, 0, 2 * mints)
              case Success(v) => r == Success(v.1) && ledger == v.0
              case Failure(e) => r == Failure(e)
    {
      hide RunLeg;
      var reserves := reserved[..mints];
      ghost var expected := RunLegs(c, ledger, reserves, swaps, 0, 2 * mints);
      var log: seq<(nat, Dispatch)> := [];
      var offset: nat := 2 * mints;
      var k := 0;
      NoCallsYet(expected);
      while k < |swaps|
        invariant k <= |swaps| && reserved[..mints] == reserves
        invariant LogAfter(log, RunLegs(c, ledger, reserves, swaps, k, offset)) == expected
      {
        assert swaps[k] in swaps;
        var call :- RunOneLeg(reserved, mints, k, swaps[k], offset);
        CallsAppend(log, call, RunLegs(c, ledger, reserves, swaps, k + 1, offset + swaps[k].nAccounts));
        log := log + call;
        offset := offset + swaps[k].nAccounts;
        k := k + 1;
      }
      assert log + [] == log;
      return Success(log);
    }

    /** Closes the created accounts that hold nothing. */
    method CloseEmpty(mints: nat, created: set<nat>) returns (r: Outcome<()>)
      requires mints <= |c.accounts|
      modifies this
      ensures match CloseCreated(c, old(ledger), mints, 0, created)
              case Success(l) => r == Success(()) && ledger == l
              case Failure(e) => r == Failure(e)
    {
      ghost var expected := CloseCreated(c, ledger, mints, 0, created);
      var i := 0;
      while i < mints
        invariant i <= mints
        invariant CloseCreated(c, ledger, mints, i, created) == expected
      {
        if i in created && Holding(ledger, AtaKey(c, i)) == 0 {
          var l := Close(ledger, AtaKey(c, i), c.titan);
          if l.None? {
            return Failure(TokenProgramFailed);
          }
          ledger := l.value;
        }
        i := i + 1;
      }
      return Success(());
    }

    /** Compares every marked account with the next recorded balance; the index into the
        record never runs past it. */
    method CheckReserves(ghost snapshot: Accounts, bitmap: TitanPdaBitmap, balances: seq<u64>) returns (ok: bool)
      requires bitmap.Valid() && bitmap.Contents() == MarkedIndices(c, snapshot, |c.accounts|)
      requires balances == CompactBalances(c, snapshot, 0)
      ensures ok <==> ReservesHold(c, snapshot, ledger, balances, 0, 0)
    {
      var balanceIdx, i := 0, 0;
      while i < |c.accounts|
        invariant i <= |c.accounts|
        invariant i <= 256 ==> balanceIdx <= |balances| && balances[balanceIdx..] == CompactBalances(c, snapshot, i)
        invariant ReservesHold(c, snapshot, ledger, balances, i, balanceIdx)
             <==> ReservesHold(c, snapshot, ledger, balances, 0, 0)
      {
        var isSet := bitmap.IsSet(i);
        assert isSet <==> Marked(c, snapshot, i);
        if isSet {
          assert balances[balanceIdx..][0] == balances[balanceIdx];
          if Holding(ledger, c.accounts[i].key) < balances[balanceIdx] {
            return false;
          }
          balanceIdx := balanceIdx + 1;
        }
        i := i + 1;
      }
      return true;
    }

    /** `execute`: on success the ledger is the specified final one and the venue calls are
        the specified ones; otherwise the specified error is returned. */
    method Run(amount: u64, mints: u8, swaps: seq<Swap>) returns (r: Outcome<seq<(nat, Dispatch)>>)
      modifies this
      ensures match Execute(c, old(ledger), amount, mints, swaps)
              case Success(stages) => r == Success(stages.log) && ledger == stages.final
              case Failure(e) => r == Failure(e)
    {
      hide Validate, CreateAtas, AllRecognised, EffectiveAmount, Pay, RunLegs, Settle, CloseCreated, ReservesHold,
           CompactBalances, MarkedIndices, IndicesInRange;
      var recorded :- Validate(c, ledger, mints, swaps);
      var created :- CreateMissingAtas(mints);
      ghost var snapshot := ledger;

      var bitmap := new TitanPdaBitmap();
      var reserved := new u64[MAX_MINTS](_ => 0);
      var balances :- Snapshot(mints, bitmap, reserved);
      var effective :- EffectiveAmount(c, ledger, recorded, amount);
      var _ :- TakePayment(mints, recorded, effective);

      var log :- RunAllLegs(reserved, mints, swaps);
      var output := OutputIndex(c, mints, swaps);
      assert reserved[output] == reserved[..mints][output];
      ledger :- Settle(c, ledger, mints, output, reserved[output]);
      var _ :- CloseEmpty(mints, created);
      var ok := CheckReserves(snapshot, bitmap, balances);
      return if ok then Success(log) else Failure(ReservedBalanceViolation);
    }
  }
}
