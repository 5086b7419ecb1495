/** Accounts by key, and the token program's effect on them. */
module Ledger {
  import opened Numbers
  import opened Quoting

  /** What the router reads of an account. The token fields are meaningful from 165 bytes on;
      the amount is read from any account of at least 72 bytes. */
  datatype Account = Account(funded: bool, ownedByTokenProgram: bool, dataLen: nat,
                             authority: Key, mint: Key, amount: u64)

  const NO_ACCOUNT: Account := Account(false, false, 0, 0, 0, 0)

  type Accounts = map<Key, Account>

  function At(l: Accounts, k: Key): Account {
    if k in l then l[k] else NO_ACCOUNT
  }

  /** `account_exists` */
  predicate Exists(a: Account) {
    a.funded && a.dataLen > 0
  }

  /** `extract_token_amount` */
  function AmountOf(a: Account): Option<u64> {
    if a.dataLen < 72 then None else Some(a.amount)
  }

  /** `extract_token_amount(..).unwrap_or(0)` */
  function Holding(l: Accounts, k: Key): u64 {
    var a := AmountOf(At(l, k));
    if a.Some? then a.value else 0
  }

  predicate IsTokenAccount(a: Account) {
    a.ownedByTokenProgram && a.dataLen >= 165
  }

  /** `is_titan_pda_token_account` */
  predicate OwnedBy(a: Account, authority: Key) {
    IsTokenAccount(a) && a.authority == authority
  }

  /** A token transfer; none is requested for amount 0. */
  function Transfer(l: Accounts, from: Key, to: Key, authority: Key, amount: u64): Option<Accounts> {
    var a, b := At(l, from), At(l, to);
    if amount == 0 then Some(l)
    else if !OwnedBy(a, authority) || !IsTokenAccount(b) || a.mint != b.mint || a.amount < amount then None
    else if from == to then Some(l)
    else if b.amount + amount > U64_MAX then None
    else Some(l[from := a.(amount := a.amount - amount)][to := b.(amount := b.amount + amount)])
  }

  /** Creation of an associated token account at its derived address. */
  function CreateAta(l: Accounts, ata: Key, derived: Key, owner: Key, mint: Key): Option<Accounts> {
    if ata != derived then None
    else Some(l[ata := Account(true, true, 165, owner, mint, 0)])
  }

  /** SOL sent to a wrapped account and counted there; none is sent for amount 0. */
  function DepositSol(l: Accounts, k: Key, nativeMint: Key, amount: u64): Option<Accounts> {
    var a := At(l, k);
    if amount == 0 then Some(l)
    else if !IsTokenAccount(a) || a.mint != nativeMint || a.amount + amount > U64_MAX then None
    else Some(l[k := a.(amount := a.amount + amount)])
  }

  /** Closing a wrapped account, which returns what it still holds as SOL. */
  function CloseWrapped(l: Accounts, k: Key, authority: Key): Option<Accounts> {
    if !OwnedBy(At(l, k), authority) then None else Some(l[k := NO_ACCOUNT])
  }

  /** Closing an empty token account. */
  function Close(l: Accounts, k: Key, authority: Key): Option<Accounts> {
    if !OwnedBy(At(l, k), authority) || At(l, k).amount != 0 then None
    else Some(l[k := NO_ACCOUNT])
  }
}
