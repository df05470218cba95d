/**
 * `join_trade` (programs/globe_swap/src/instructions/join_trade.rs): the account constraints of
 * `JoinTrade` followed by `execute_swap`, as one all-or-nothing step on the chain state.
 */
module JoinTrade {
  import opened Primitives
  import opened Errors
  import opened EscrowState
  import opened TokenLedger
  import opened Pda
  import opened Accounts

  /** A successful `join_trade`: the new state and the account the closed record's rent goes to. */
  datatype Settled = Settled(post: Chain, rentRecipient: Pubkey)

  /** `[b"escrow", maker, seed.to_le_bytes(), [bump]]`, with which the escrow signs for its vault. */
  function SignerSeeds(e: Escrow): (seeds: Seeds)
    ensures seeds == WithBump(EscrowSeeds(e.maker, e.seed), e.bump)
  {
    [ESCROW_TAG, e.maker, U64Le(e.seed), [e.bump]]
  }

  /**
   * Anchor validates the accounts of `JoinTrade` in three passes. First it loads the existing accounts
   * in declaration order: the record, the buyer's account for mint B, and the vault (the escrow's
   * account for mint A). A missing one fails. Second it creates the `init_if_needed` accounts: the
   * escrow's account for mint B and the buyer's account for mint A. Third it checks that the supplied
   * mints are the record's. Then `execute_swap` runs on the vault balance loaded in the first pass.
   * Any failure discards every effect.
   */
  function ExecuteSwap(env: Env, s: Chain, buyer: Pubkey, escrowKey: Pubkey, mintA: Pubkey, mintB: Pubkey)
    : (r: Result<Settled>)
    ensures r.Ok? ==> escrowKey in s.escrows && r.value.post.escrows == s.escrows - {escrowKey}
    ensures r.Ok? ==> r.value.post.balances.Keys == s.balances.Keys + {Ata(escrowKey, mintB), Ata(buyer, mintA)}
    ensures r.Ok? ==> r.value.rentRecipient == buyer
  {
    if escrowKey !in s.escrows then Err(AccountNotInitialized)
    else
      var e := s.escrows[escrowKey];
      var buyerAtaB := Ata(buyer, mintB);
      var vault := Ata(escrowKey, mintA);
      if buyerAtaB !in s.balances || vault !in s.balances then Err(AccountNotInitialized)
      else
        var loaded := CreateIdempotent(CreateIdempotent(s.balances, Ata(escrowKey, mintB)), Ata(buyer, mintA));
        if mintB != e.mintB || mintA != e.mintA then Err(ConstraintAddress)
        else Swap(env, s, buyer, escrowKey, loaded, s.balances[vault])
  }

  /** The four token accounts `execute_swap` moves tokens between all exist in `loaded`. */
  predicate SwapAccounts(s: Chain, buyer: Pubkey, escrowKey: Pubkey, loaded: Balances)
  {
    && escrowKey in s.escrows
    && var e := s.escrows[escrowKey];
       && Ata(buyer, e.mintB) in loaded && Ata(escrowKey, e.mintB) in loaded
       && Ata(escrowKey, e.mintA) in loaded && Ata(buyer, e.mintA) in loaded
  }

  /**
   * `execute_swap` on the validated accounts: `receive_amt` of mint B moves from the buyer to the
   * escrow's mint-B account; `vaultAmount`, the vault balance as loaded, moves from the vault to the
   * buyer, signed with the escrow's seeds; the record is closed with its rent to the buyer.
   */
  function Swap(env: Env, s: Chain, buyer: Pubkey, escrowKey: Pubkey, loaded: Balances, vaultAmount: nat)
    : (r: Result<Settled>)
    requires SwapAccounts(s, buyer, escrowKey, loaded)
    ensures r.Ok? ==> r.value.post.escrows == s.escrows - {escrowKey} && r.value.rentRecipient == buyer
    ensures r.Ok? ==> r.value.post.balances.Keys == loaded.Keys
  {
    var e := s.escrows[escrowKey];
    match Transfer(loaded, Ata(buyer, e.mintB), Ata(escrowKey, e.mintB), e.receiveAmt)
    case Err(err) => Err(err)
    case Ok(paid) =>
      if env.cpa(SignerSeeds(e)) != Some(escrowKey) then Err(MissingRequiredSignature)
      else match Transfer(paid, Ata(escrowKey, e.mintA), Ata(buyer, e.mintA), vaultAmount)
        case Err(err) => Err(err)
        case Ok(released) => Ok(Settled(Chain(released, s.escrows - {escrowKey}), buyer))
  }

  /**
   * The signer seeds are the seeds `initialize_trade` derived the escrow's address from, followed by the
   * stored bump, so for a record made by `initialize_trade` they yield its own address.
   */
  lemma SignerSeedsDeriveEscrow(env: Env, balances: Balances, key: Pubkey, e: Escrow)
    requires RecordAt(env, balances, key, e)
    ensures SignerSeeds(e) == WithBump(EscrowSeeds(e.maker, e.seed), e.bump)
    ensures env.cpa(SignerSeeds(e)) == Some(key)
  {
    assert SignerSeeds(e) == WithBump(EscrowSeeds(e.maker, e.seed), e.bump);
  }

  /**
   * On a well-formed state: a missing record, buyer account or vault gives `AccountNotInitialized`,
   * before the mints are compared; a wrong mint then gives `ConstraintAddress`; otherwise the join
   * succeeds exactly when the buyer holds at least `receive_amt` of mint B (the vault leg cannot fail).
   */
  lemma JoinOutcome(env: Env, s: Chain, buyer: Pubkey, escrowKey: Pubkey, mintA: Pubkey, mintB: Pubkey)
    requires WellFormed(env, s)
    ensures var r := ExecuteSwap(env, s, buyer, escrowKey, mintA, mintB);
            && (escrowKey !in s.escrows ==> r == Err(AccountNotInitialized))
            && (escrowKey in s.escrows ==>
                var e := s.escrows[escrowKey];
                var buyerAtaB := Ata(buyer, mintB);
                var loadable := buyerAtaB in s.balances && Ata(escrowKey, mintA) in s.balances;
                && (!loadable ==> r == Err(AccountNotInitialized))
                && (loadable && (mintA != e.mintA || mintB != e.mintB) ==> r == Err(ConstraintAddress))
                && (loadable && mintA == e.mintA && mintB == e.mintB ==>
                      (r.Ok? <==> e.receiveAmt <= s.balances[buyerAtaB])
                      && (r.Err? ==> r.error == InsufficientFunds)))
  {
    if escrowKey in s.escrows {
      var e := s.escrows[escrowKey];
      assert RecordAt(env, s.balances, escrowKey, e);
      SignerSeedsDeriveEscrow(env, s.balances, escrowKey, e);
    }
  }

  /**
   * With two different mints, a successful join moves exactly `receive_amt` of mint B from the buyer to
   * the escrow's own mint-B account (not to the maker's), empties the vault into the buyer's mint-A
   * account, and changes no other balance, the maker's included. (A signer is never a program address,
   * hence `buyer != escrowKey`.)
   */
  lemma JoinMovesFunds(env: Env, s: Chain, buyer: Pubkey, escrowKey: Pubkey, mintA: Pubkey, mintB: Pubkey)
    requires ExecuteSwap(env, s, buyer, escrowKey, mintA, mintB).Ok?
    requires mintA != mintB && buyer != escrowKey
    ensures var e := s.escrows[escrowKey];
            var b := s.balances;
            var b' := ExecuteSwap(env, s, buyer, escrowKey, mintA, mintB).value.post.balances;
            var buyerAtaB := Ata(buyer, mintB);
            var makerReceive := Ata(escrowKey, mintB);
            var vault := Ata(escrowKey, mintA);
            var buyerReceive := Ata(buyer, mintA);
            && b'.Keys == b.Keys + {makerReceive, buyerReceive}
            && buyerAtaB in b && vault in b
            && b'[buyerAtaB] + e.receiveAmt == b[buyerAtaB]
            && b'[makerReceive] == (if makerReceive in b then b[makerReceive] else 0) + e.receiveAmt
            && b'[vault] == 0
            && b'[buyerReceive] == (if buyerReceive in b then b[buyerReceive] else 0) + b[vault]
            && (forall k | k in b && k !in {buyerAtaB, makerReceive, vault, buyerReceive} :: b'[k] == b[k])
            && (e.maker != buyer && e.maker != escrowKey && Ata(e.maker, mintB) in b
                ==> b'[Ata(e.maker, mintB)] == b[Ata(e.maker, mintB)])
  {
    var e := s.escrows[escrowKey];
    var b := s.balances;
    var makerReceive := Ata(escrowKey, mintB);
    var vault := Ata(escrowKey, mintA);
    var buyerReceive := Ata(buyer, mintA);
    var loaded := CreateIdempotent(CreateIdempotent(b, makerReceive), buyerReceive);
    var paid := Transfer(loaded, Ata(buyer, mintB), makerReceive, e.receiveAmt).value;
    var released := Transfer(paid, vault, buyerReceive, b[vault]).value;
    assert ExecuteSwap(env, s, buyer, escrowKey, mintA, mintB).value.post.balances == released;
  }

  /**
   * With the same mint on both sides the vault doubles as the escrow's receiving account: the buyer
   * gets only the balance read before the payment landed, so the payment stays in the vault.
   */
  lemma JoinSameMint(env: Env, s: Chain, buyer: Pubkey, escrowKey: Pubkey, mint: Pubkey)
    requires ExecuteSwap(env, s, buyer, escrowKey, mint, mint).Ok?
    requires buyer != escrowKey
    ensures var e := s.escrows[escrowKey];
            var b := s.balances;
            var b' := ExecuteSwap(env, s, buyer, escrowKey, mint, mint).value.post.balances;
            var vault := Ata(escrowKey, mint);
            var buyerAta := Ata(buyer, mint);
            && buyerAta in b && vault in b
            && b'[vault] == e.receiveAmt
            && b'[buyerAta] + e.receiveAmt == b[buyerAta] + b[vault]
  {
    var b := s.balances;
    var vault := Ata(escrowKey, mint);
    var buyerAta := Ata(buyer, mint);
    var loaded := CreateIdempotent(CreateIdempotent(b, vault), buyerAta);
    assert loaded == b;
    var paid := Transfer(loaded, buyerAta, vault, s.escrows[escrowKey].receiveAmt).value;
    assert paid[vault] == b[vault] + s.escrows[escrowKey].receiveAmt;
  }

  /** A successful join closes the record, refunding its rent to the buyer, and touches no other record. */
  lemma JoinClosesRecord(env: Env, s: Chain, buyer: Pubkey, escrowKey: Pubkey, mintA: Pubkey, mintB: Pubkey)
    requires ExecuteSwap(env, s, buyer, escrowKey, mintA, mintB).Ok?
    ensures var settled := ExecuteSwap(env, s, buyer, escrowKey, mintA, mintB).value;
            && escrowKey in s.escrows
            && escrowKey !in settled.post.escrows
            && settled.post.escrows.Keys == s.escrows.Keys - {escrowKey}
            && (forall k | k in settled.post.escrows :: settled.post.escrows[k] == s.escrows[k])
            && settled.rentRecipient == buyer
  {
  }

  /** Once a join has succeeded, every further join on the same record fails: one settlement per record. */
  lemma JoinAtMostOnce(env: Env, s: Chain, buyer: Pubkey, escrowKey: Pubkey, mintA: Pubkey, mintB: Pubkey,
                       buyer': Pubkey, mintA': Pubkey, mintB': Pubkey)
    requires ExecuteSwap(env, s, buyer, escrowKey, mintA, mintB).Ok?
    ensures var post := ExecuteSwap(env, s, buyer, escrowKey, mintA, mintB).value.post;
            ExecuteSwap(env, post, buyer', escrowKey, mintA', mintB') == Err(AccountNotInitialized)
  {
  }

  /** The join only moves tokens: the supply of every mint is unchanged. */
  lemma JoinConserves(env: Env, s: Chain, buyer: Pubkey, escrowKey: Pubkey, mintA: Pubkey, mintB: Pubkey,
                      mint: Pubkey)
    requires ExecuteSwap(env, s, buyer, escrowKey, mintA, mintB).Ok?
    ensures Supply(ExecuteSwap(env, s, buyer, escrowKey, mintA, mintB).value.post.balances, mint)
            == Supply(s.balances, mint)
  {
    var e := s.escrows[escrowKey];
    var makerReceive := Ata(escrowKey, mintB);
    var vault := Ata(escrowKey, mintA);
    var buyerReceive := Ata(buyer, mintA);
    var withReceive := CreateIdempotent(s.balances, makerReceive);
    var loaded := CreateIdempotent(withReceive, buyerReceive);
    CreateIdempotentConserves(s.balances, makerReceive, mint);
    CreateIdempotentConserves(withReceive, buyerReceive, mint);
    TransferConserves(loaded, Ata(buyer, mintB), makerReceive, e.receiveAmt, mint);
    var paid := Transfer(loaded, Ata(buyer, mintB), makerReceive, e.receiveAmt).value;
    TransferConserves(paid, vault, buyerReceive, s.balances[vault], mint);
  }

  /** Closing a record after moving tokens between existing accounts keeps every other record well formed. */
  lemma SwapPreservesWellFormed(env: Env, s: Chain, buyer: Pubkey, escrowKey: Pubkey, loaded: Balances,
                                vaultAmount: nat)
    requires WellFormed(env, s)
    requires s.balances.Keys <= loaded.Keys
    requires SwapAccounts(s, buyer, escrowKey, loaded)
    requires Swap(env, s, buyer, escrowKey, loaded, vaultAmount).Ok?
    ensures WellFormed(env, Swap(env, s, buyer, escrowKey, loaded, vaultAmount).value.post)
  {
    var post := Swap(env, s, buyer, escrowKey, loaded, vaultAmount).value.post;
    WellFormedAfterBalances(env, s, post.balances);
    assert WellFormed(env, Chain(post.balances, s.escrows));
  }

  /** A well-formed state stays well formed: the closed record is gone and no token account is removed. */
  lemma JoinPreservesWellFormed(env: Env, s: Chain, buyer: Pubkey, escrowKey: Pubkey, mintA: Pubkey, mintB: Pubkey)
    requires WellFormed(env, s)
    requires ExecuteSwap(env, s, buyer, escrowKey, mintA, mintB).Ok?
    ensures WellFormed(env, ExecuteSwap(env, s, buyer, escrowKey, mintA, mintB).value.post)
  {
    var loaded := CreateIdempotent(CreateIdempotent(s.balances, Ata(escrowKey, mintB)), Ata(buyer, mintA));
    SwapPreservesWellFormed(env, s, buyer, escrowKey, loaded, s.balances[Ata(escrowKey, mintA)]);
  }
}
