/**
 * The part of the SPL token program the ledger calls into: token accounts
 * with a mint, an owner (the transfer authority) and a balance, and an
 * all-or-nothing `transfer`.
 */
module Token {
  import opened Primitives
  import opened Errors

  datatype TokenAccount = TokenAccount(mint: Pubkey, owner: Pubkey, amount: u64)

  /** Token accounts by address. */
  type Ledger = map<Pubkey, TokenAccount>

  function Balance(t: Ledger, a: Pubkey): nat {
    if a in t then t[a].amount else 0
  }

  /**
   * `token::transfer`: moves `amount` from `from` to `to`. It fails, changing
   * nothing, when either account is missing, when `from` holds less than
   * `amount`, or when the credit would overflow `to`.
   */
  function Transfer(t: Ledger, from: Pubkey, to: Pubkey, amount: u64): (r: Result<Ledger>)
    ensures r.Ok? <==>
      && from in t && to in t
      && amount <= t[from].amount
      && (from == to || t[to].amount + amount < U64_LIMIT)
    ensures from !in t || to !in t ==> r == Err(AccountNotInitialized)
    ensures from in t && to in t && t[from].amount < amount ==> r == Err(InsufficientFunds)
    ensures from in t && to in t && amount <= t[from].amount && from != to && t[to].amount + amount >= U64_LIMIT ==>
              r == Err(TokenOverflow)
  {
    if from !in t || to !in t then Err(AccountNotInitialized)
    else if t[from].amount < amount then Err(InsufficientFunds)
    else
      var debited := t[from := t[from].(amount := t[from].amount - amount)];
      if debited[to].amount + amount >= U64_LIMIT then Err(TokenOverflow)
      else Ok(debited[to := debited[to].(amount := debited[to].amount + amount)])
  }

  /**
   * A successful transfer keeps every account, their mints and owners, and
   * changes only the two balances involved, by exactly `amount`.
   */
  lemma TransferEffect(t: Ledger, from: Pubkey, to: Pubkey, amount: u64)
    requires Transfer(t, from, to, amount).Ok?
    ensures var t' := Transfer(t, from, to, amount).value;
      && t'.Keys == t.Keys
      && (from != to ==>
            && Balance(t', from) == Balance(t, from) - amount
            && Balance(t', to) == Balance(t, to) + amount)
      && (from == to ==> t' == t)
      && (forall a | a in t && a != from && a != to :: t'[a] == t[a])
      && (forall a | a in t :: t'[a].mint == t[a].mint && t'[a].owner == t[a].owner)
  {
    var t' := Transfer(t, from, to, amount).value;
    if from == to {
      assert forall a | a in t :: t'[a] == t[a];
    }
  }

  /** The balance of one account after a successful transfer between two distinct accounts. */
  lemma TransferBalanceAt(t: Ledger, from: Pubkey, to: Pubkey, amount: u64, a: Pubkey)
    requires Transfer(t, from, to, amount).Ok? && from != to
    ensures Balance(Transfer(t, from, to, amount).value, a) ==
      if a == from then Balance(t, a) - amount
      else if a == to then Balance(t, a) + amount
      else Balance(t, a)
  {
  }

  /** Sending the same amount back restores every account exactly. */
  lemma TransferRoundTrip(t: Ledger, from: Pubkey, to: Pubkey, amount: u64)
    requires Transfer(t, from, to, amount).Ok?
    ensures Transfer(Transfer(t, from, to, amount).value, to, from, amount) == Ok(t)
  {
    var t1 := Transfer(t, from, to, amount).value;
    TransferEffect(t, from, to, amount);
    var back := Transfer(t1, to, from, amount);
    assert back.Ok?;
    if from != to {
      assert forall a | a in t :: back.value[a] == t[a] by {
        forall a | a in t ensures back.value[a] == t[a] {
          if a == from || a == to {
            assert back.value[a].amount == t[a].amount;
          }
        }
      }
    }
    assert back.value == t;
  }
}
