/** What reading and changing accounts comes to, condition by condition. */
module LedgerLaws {
  import opened Numbers
  import opened Quoting
  import opened Ledger

  /** Which accounts exist, which can be read, and which are somebody's token accounts. */
  lemma AccountsByLength(l: Accounts, k: Key, authority: Key)
    ensures Exists(At(l, k)) <==> k in l && l[k].funded && l[k].dataLen >= 1
    ensures AmountOf(At(l, k)).Some? <==> k in l && l[k].dataLen >= 72
    ensures AmountOf(At(l, k)).Some? ==> AmountOf(At(l, k)).value == l[k].amount
    ensures Holding(l, k) == if k in l && l[k].dataLen >= 72 then l[k].amount else 0
    ensures OwnedBy(At(l, k), authority) <==>
            k in l && l[k].ownedByTokenProgram && l[k].dataLen >= 165 && l[k].authority == authority
  {
  }

  /** A transfer can be made: of nothing always; and of a positive amount from a token account of
      the authority that holds it to one of the same mint that has room for it. */
  predicate CanTransfer(l: Accounts, from: Key, to: Key, authority: Key, amount: u64) {
    amount == 0
    || (from in l && to in l
        && l[from].ownedByTokenProgram && l[from].dataLen >= 165 && l[from].authority == authority
        && l[to].ownedByTokenProgram && l[to].dataLen >= 165
        && l[from].mint == l[to].mint && l[from].amount >= amount
        && (from == to || l[to].amount + amount <= U64_MAX))
  }

  /** A transfer succeeds exactly when it can be made.  It takes the amount from one account and
      adds it to the other, changes nothing else of either, and no other account. */
  lemma TransferIff(l: Accounts, from: Key, to: Key, authority: Key, amount: u64)
    ensures Transfer(l, from, to, authority, amount).Some? <==> CanTransfer(l, from, to, authority, amount)
    ensures Transfer(l, from, to, authority, amount).Some? ==>
              var l' := Transfer(l, from, to, authority, amount).value;
              && (from != to ==>
                    && At(l', from).amount + amount == At(l, from).amount + (if amount == 0 then amount else 0)
                    && At(l', to).amount == At(l, to).amount + amount
                    && At(l', from) == At(l, from).(amount := At(l', from).amount)
                    && At(l', to) == At(l, to).(amount := At(l', to).amount))
              && (from == to ==> l' == l)
    ensures Transfer(l, from, to, authority, amount).Some? ==>
              forall k: Key :: k != from && k != to ==>
                                 At(Transfer(l, from, to, authority, amount).value, k) == At(l, k)
  {
  }

  /** Creation succeeds exactly at the derived address, with an empty account of the owner. */
  lemma CreateAtaIff(l: Accounts, ata: Key, derived: Key, owner: Key, mint: Key)
    ensures CreateAta(l, ata, derived, owner, mint).Some? <==> ata == derived
    ensures CreateAta(l, ata, derived, owner, mint).Some? ==>
              && At(CreateAta(l, ata, derived, owner, mint).value, ata) == Account(true, true, 165, owner, mint, 0)
              && forall k: Key :: k != ata ==> At(CreateAta(l, ata, derived, owner, mint).value, k) == At(l, k)
  {
  }

  /** SOL can be wrapped into token accounts of the native mint that have room for it. */
  lemma DepositSolIff(l: Accounts, k: Key, nativeMint: Key, amount: u64)
    ensures DepositSol(l, k, nativeMint, amount).Some? <==>
            amount == 0
            || (k in l && l[k].ownedByTokenProgram && l[k].dataLen >= 165 && l[k].mint == nativeMint
                && l[k].amount + amount <= U64_MAX)
    ensures DepositSol(l, k, nativeMint, amount).Some? && amount > 0 ==>
              At(DepositSol(l, k, nativeMint, amount).value, k) == l[k].(amount := l[k].amount + amount)
    ensures DepositSol(l, k, nativeMint, 0) == Some(l)
    ensures DepositSol(l, k, nativeMint, amount).Some? ==>
              forall other: Key :: other != k ==> At(DepositSol(l, k, nativeMint, amount).value, other) == At(l, other)
  {
  }

  /** An account is closed by its authority, when it is empty or wrapped, and nothing else is. */
  lemma CloseIff(l: Accounts, k: Key, authority: Key)
    ensures CloseWrapped(l, k, authority).Some? <==> OwnedBy(At(l, k), authority)
    ensures Close(l, k, authority).Some? <==> OwnedBy(At(l, k), authority) && At(l, k).amount == 0
    ensures CloseWrapped(l, k, authority).Some? ==>
              forall other: Key :: At(CloseWrapped(l, k, authority).value, other)
                                   == if other == k then NO_ACCOUNT else At(l, other)
    ensures Close(l, k, authority).Some? ==> Close(l, k, authority) == CloseWrapped(l, k, authority)
  {
  }
}
