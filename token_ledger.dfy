/**
 * The token program as the escrow instructions use it: associated token accounts identified by
 * their (authority, mint) pair, the idempotent creation behind `init_if_needed`, and
 * `transfer_checked` as a balance move that fails when the source holds too little.
 */
module TokenLedger {
  import opened Primitives
  import opened Errors

  /** The associated token account of `authority` for `mint`. */
  datatype TokenAccount = Ata(authority: Pubkey, mint: Pubkey)

  /** The existing token accounts and the amount each holds. */
  type Balances = map<TokenAccount, nat>

  /** `init_if_needed` on an associated token account: a missing account is created empty. */
  function CreateIdempotent(b: Balances, account: TokenAccount): (r: Balances)
    ensures r.Keys == b.Keys + {account}
    ensures r[account] == if account in b then b[account] else 0
    ensures forall k | k in b && k != account :: r[k] == b[k]
  {
    if account in b then b else b[account := 0]
  }

  /**
   * `transfer_checked` of `amount` from `from` to `to`, both existing accounts: refused when `from`
   * holds less than `amount` (checked first, as the token program does) or when their mints differ;
   * a transfer to the same account moves nothing.
   */
  function Transfer(b: Balances, from: TokenAccount, to: TokenAccount, amount: nat): (r: Result<Balances>)
    requires from in b && to in b
    ensures r.Ok? <==> from.mint == to.mint && amount <= b[from]
    ensures r.Err? ==> r.error == if b[from] < amount then InsufficientFunds else MintMismatch
    ensures r.Ok? ==> r.value.Keys == b.Keys
    ensures r.Ok? ==> forall k | k in b && k != from && k != to :: r.value[k] == b[k]
    ensures r.Ok? && from != to ==> r.value[from] + amount == b[from] && r.value[to] == b[to] + amount
    ensures r.Ok? && from == to ==> r.value == b
  {
    if b[from] < amount then Err(InsufficientFunds)
    else if from.mint != to.mint then Err(MintMismatch)
    else if from == to then Ok(b)
    else Ok(b[from := b[from] - amount][to := b[to] + amount])
  }

  /** What account `k` contributes to the supply of `mint`. */
  function Held(b: Balances, k: TokenAccount, mint: Pubkey): nat
    requires k in b
  {
    if k.mint == mint then b[k] else 0
  }

  /** The amount of `mint` held by the accounts in `keys`. */
  ghost function SumOver(b: Balances, keys: set<TokenAccount>, mint: Pubkey): nat
    requires keys <= b.Keys
    decreases keys
  {
    if keys == {} then 0
    else
      var k :| k in keys;
      Held(b, k, mint) + SumOver(b, keys - {k}, mint)
  }

  /** The amount of `mint` held across all token accounts. */
  ghost function Supply(b: Balances, mint: Pubkey): nat
  {
    SumOver(b, b.Keys, mint)
  }

  /** Any account of `keys` can be taken out of the sum first. */
  lemma {:induction false} SumOverPick(b: Balances, keys: set<TokenAccount>, mint: Pubkey, k: TokenAccount)
    requires keys <= b.Keys && k in keys
    ensures SumOver(b, keys, mint) == Held(b, k, mint) + SumOver(b, keys - {k}, mint)
    decreases keys
  {
    var j :| j in keys && SumOver(b, keys, mint) == Held(b, j, mint) + SumOver(b, keys - {j}, mint);
    if j != k {
      SumOverPick(b, keys - {j}, mint, k);
      SumOverPick(b, keys - {k}, mint, j);
      assert keys - {j} - {k} == keys - {k} - {j};
    }
  }

  /** The sum over `keys` depends only on the balances of `keys`. */
  lemma {:induction false} SumOverFrame(b: Balances, b': Balances, keys: set<TokenAccount>, mint: Pubkey)
    requires keys <= b.Keys && keys <= b'.Keys
    requires forall k | k in keys :: b[k] == b'[k]
    ensures SumOver(b, keys, mint) == SumOver(b', keys, mint)
    decreases keys
  {
    if keys != {} {
      var k :| k in keys;
      SumOverPick(b, keys, mint, k);
      SumOverPick(b', keys, mint, k);
      SumOverFrame(b, b', keys - {k}, mint);
    }
  }

  /** Changing one account's balance changes the supply of its mint by the difference. */
  lemma SupplyAfterUpdate(b: Balances, k: TokenAccount, v: nat, mint: Pubkey)
    requires k in b
    ensures Supply(b[k := v], mint) + Held(b, k, mint) == Supply(b, mint) + Held(b[k := v], k, mint)
  {
    var b' := b[k := v];
    assert b'.Keys == b.Keys;
    SumOverPick(b, b.Keys, mint, k);
    SumOverPick(b', b.Keys, mint, k);
    SumOverFrame(b, b', b.Keys - {k}, mint);
  }

  /** Creating an empty account leaves every supply as it was. */
  lemma CreateIdempotentConserves(b: Balances, account: TokenAccount, mint: Pubkey)
    ensures Supply(CreateIdempotent(b, account), mint) == Supply(b, mint)
  {
    var b' := CreateIdempotent(b, account);
    if account !in b {
      SumOverPick(b', b'.Keys, mint, account);
      assert b'.Keys - {account} == b.Keys;
      SumOverFrame(b, b', b.Keys, mint);
    }
  }

  /** A transfer creates and destroys nothing: every mint's supply is unchanged. */
  lemma TransferConserves(b: Balances, from: TokenAccount, to: TokenAccount, amount: nat, mint: Pubkey)
    requires from in b && to in b
    requires Transfer(b, from, to, amount).Ok?
    ensures Supply(Transfer(b, from, to, amount).value, mint) == Supply(b, mint)
  {
    if from != to {
      var b1 := b[from := b[from] - amount];
      SupplyAfterUpdate(b, from, b[from] - amount, mint);
      SupplyAfterUpdate(b1, to, b[to] + amount, mint);
    }
  }
}
