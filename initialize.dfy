/**
 * `initialize_trade` (programs/globe_swap/src/instructions/initialize.rs): the account constraints
 * of `Initialize` followed by `create_escrow`, as one all-or-nothing step on the chain state.
 */
module Initialize {
  import opened Primitives
  import opened Errors
  import opened EscrowState
  import opened TokenLedger
  import opened Pda
  import opened Accounts

  /** The amount of the seller's mint moved into the vault, fixed in the source. */
  const DEPOSIT: nat := 100

  /** A successful `initialize_trade`: the new state and the escrow's address. */
  datatype Created = Created(post: Chain, escrow: Pubkey)

  /** The record `create_escrow` writes with `set_inner`. */
  function NewRecord(env: Env, key: Pubkey, bump: u8, seller: Pubkey, mintSeller: Pubkey, mintBuyer: Pubkey,
                     seed: u64, receiveAmt: u64): (e: Escrow)
    ensures |Encode(e)| == INIT_SPACE
  {
    Escrow(seed, seller, None, mintSeller, mintBuyer, env.ata(key, mintSeller), DEFAULT_PUBKEY, receiveAmt, bump)
  }

  /**
   * The seller's token account for `mint_seller` must exist; the escrow is created at the address
   * derived from ("escrow", seller, seed), which must be free; the vault (the escrow's associated
   * account for `mint_seller`) is created if missing; the record is written; 100 units move from
   * the seller's account to the vault. Any failure discards every effect.
   */
  function InitializeTrade(env: Env, s: Chain, seller: Pubkey, mintSeller: Pubkey, mintBuyer: Pubkey,
                           seed: u64, receiveAmt: u64): (r: Result<Created>)
    ensures r.Ok? ==> EscrowAddress(env, seller, seed).Some? && EscrowAddress(env, seller, seed).value.0 == r.value.escrow
    ensures r.Ok? ==> r.value.escrow !in s.escrows && r.value.post.escrows.Keys == s.escrows.Keys + {r.value.escrow}
    ensures r.Ok? ==> r.value.post.balances.Keys == s.balances.Keys + {Ata(r.value.escrow, mintSeller)}
  {
    var sellerAta := Ata(seller, mintSeller);
    if sellerAta !in s.balances then Err(AccountNotInitialized)
    else match EscrowAddress(env, seller, seed)
      case None => Err(NoViableBump)
      case Some((key, bump)) =>
        if key in s.escrows then Err(AccountAlreadyInUse)
        else
          var vault := Ata(key, mintSeller);
          var staged := CreateIdempotent(s.balances, vault);
          var record := NewRecord(env, key, bump, seller, mintSeller, mintBuyer, seed, receiveAmt);
          match Transfer(staged, sellerAta, vault, DEPOSIT)
          case Err(err) => Err(err)
          case Ok(moved) => Ok(Created(Chain(moved, s.escrows[key := record]), key))
  }

  /** When the instruction fails, and with which error; it succeeds in every other case. */
  lemma InitializeOutcome(env: Env, s: Chain, seller: Pubkey, mintSeller: Pubkey, mintBuyer: Pubkey,
                          seed: u64, receiveAmt: u64)
    ensures var r := InitializeTrade(env, s, seller, mintSeller, mintBuyer, seed, receiveAmt);
            var sellerAta := Ata(seller, mintSeller);
            var derived := EscrowAddress(env, seller, seed);
            && (sellerAta !in s.balances ==> r == Err(AccountNotInitialized))
            && (sellerAta in s.balances && derived.None? ==> r == Err(NoViableBump))
            && (sellerAta in s.balances && derived.Some? && derived.value.0 in s.escrows
                ==> r == Err(AccountAlreadyInUse))
            && (sellerAta in s.balances && derived.Some? && derived.value.0 !in s.escrows
                ==> (r.Ok? <==> s.balances[sellerAta] >= DEPOSIT) && (r.Err? ==> r.error == InsufficientFunds))
  {
  }

  /** On success the record at the derived address holds the seller, the two mints and the terms. */
  lemma InitializeWritesRecord(env: Env, s: Chain, seller: Pubkey, mintSeller: Pubkey, mintBuyer: Pubkey,
                               seed: u64, receiveAmt: u64)
    requires InitializeTrade(env, s, seller, mintSeller, mintBuyer, seed, receiveAmt).Ok?
    ensures var created := InitializeTrade(env, s, seller, mintSeller, mintBuyer, seed, receiveAmt).value;
            var key := created.escrow;
            && EscrowAddress(env, seller, seed).Some?
            && EscrowAddress(env, seller, seed).value.0 == key
            && key !in s.escrows
            && created.post.escrows.Keys == s.escrows.Keys + {key}
            && (forall k | k in s.escrows :: created.post.escrows[k] == s.escrows[k])
            && var e := created.post.escrows[key];
               && e.seed == seed && e.maker == seller && e.taker == None
               && e.mintA == mintSeller && e.mintB == mintBuyer
               && e.vaultA == env.ata(key, mintSeller) && e.vaultB == DEFAULT_PUBKEY
               && e.receiveAmt == receiveAmt && e.bump == EscrowAddress(env, seller, seed).value.1
  {
  }

  /**
   * Exactly 100 units leave the seller's account and land in the vault, on top of what the vault
   * already held; no other balance changes. (A signer is never a program address, hence `seller != key`.)
   */
  lemma InitializeMovesDeposit(env: Env, s: Chain, seller: Pubkey, mintSeller: Pubkey, mintBuyer: Pubkey,
                               seed: u64, receiveAmt: u64)
    requires InitializeTrade(env, s, seller, mintSeller, mintBuyer, seed, receiveAmt).Ok?
    requires seller != InitializeTrade(env, s, seller, mintSeller, mintBuyer, seed, receiveAmt).value.escrow
    ensures var created := InitializeTrade(env, s, seller, mintSeller, mintBuyer, seed, receiveAmt).value;
            var b := s.balances;
            var b' := created.post.balances;
            var sellerAta := Ata(seller, mintSeller);
            var vault := Ata(created.escrow, mintSeller);
            && b'.Keys == b.Keys + {vault}
            && sellerAta in b && b'[sellerAta] + DEPOSIT == b[sellerAta]
            && b'[vault] == (if vault in b then b[vault] else 0) + DEPOSIT
            && (forall k | k in b && k != sellerAta && k != vault :: b'[k] == b[k])
  {
  }

  /**
   * `receive_amt` and `mint_buyer` are only stored: neither is checked (a zero amount or the same mint
   * on both sides is accepted) and neither changes whether the instruction succeeds or what it moves.
   */
  lemma InitializeIgnoresTerms(env: Env, s: Chain, seller: Pubkey, mintSeller: Pubkey,
                               mintBuyer: Pubkey, receiveAmt: u64, mintBuyer': Pubkey, receiveAmt': u64, seed: u64)
    ensures var r := InitializeTrade(env, s, seller, mintSeller, mintBuyer, seed, receiveAmt);
            var r' := InitializeTrade(env, s, seller, mintSeller, mintBuyer', seed, receiveAmt');
            && r.Ok? == r'.Ok?
            && (r.Err? ==> r.error == r'.error)
            && (r.Ok? ==> r.value.escrow == r'.value.escrow && r.value.post.balances == r'.value.post.balances)
  {
  }

  /** The instruction only moves tokens: the supply of every mint is unchanged. */
  lemma InitializeConserves(env: Env, s: Chain, seller: Pubkey, mintSeller: Pubkey, mintBuyer: Pubkey,
                            seed: u64, receiveAmt: u64, mint: Pubkey)
    requires InitializeTrade(env, s, seller, mintSeller, mintBuyer, seed, receiveAmt).Ok?
    ensures Supply(InitializeTrade(env, s, seller, mintSeller, mintBuyer, seed, receiveAmt).value.post.balances, mint)
            == Supply(s.balances, mint)
  {
    var key := EscrowAddress(env, seller, seed).value.0;
    var vault := Ata(key, mintSeller);
    var staged := CreateIdempotent(s.balances, vault);
    CreateIdempotentConserves(s.balances, vault, mint);
    TransferConserves(staged, Ata(seller, mintSeller), vault, DEPOSIT, mint);
  }

  /** A well-formed state stays well formed: the new record sits at its derived address beside its vault. */
  lemma InitializePreservesWellFormed(env: Env, s: Chain, seller: Pubkey, mintSeller: Pubkey, mintBuyer: Pubkey,
                                      seed: u64, receiveAmt: u64)
    requires WellFormed(env, s)
    requires InitializeTrade(env, s, seller, mintSeller, mintBuyer, seed, receiveAmt).Ok?
    ensures WellFormed(env, InitializeTrade(env, s, seller, mintSeller, mintBuyer, seed, receiveAmt).value.post)
  {
    var post := InitializeTrade(env, s, seller, mintSeller, mintBuyer, seed, receiveAmt).value.post;
    WellFormedAfterBalances(env, s, post.balances);
  }

  /**
   * While a record for (seller, seed) is live, opening another one fails: there is at most one live
   * escrow per (maker, seed).
   */
  lemma InitializeRejectsDuplicate(env: Env, s: Chain, seller: Pubkey, mintSeller: Pubkey, mintBuyer: Pubkey,
                                   seed: u64, receiveAmt: u64, live: Pubkey)
    requires WellFormed(env, s)
    requires live in s.escrows && s.escrows[live].maker == seller && s.escrows[live].seed == seed
    ensures InitializeTrade(env, s, seller, mintSeller, mintBuyer, seed, receiveAmt).Err?
    ensures Ata(seller, mintSeller) in s.balances
            ==> InitializeTrade(env, s, seller, mintSeller, mintBuyer, seed, receiveAmt) == Err(AccountAlreadyInUse)
  {
    assert RecordAt(env, s.balances, live, s.escrows[live]);
  }

  /** Calling the instruction twice with the same seller and seed: the second call fails. */
  lemma InitializeTwiceFails(env: Env, s: Chain, seller: Pubkey, mintSeller: Pubkey, mintBuyer: Pubkey,
                             seed: u64, receiveAmt: u64, mintSeller': Pubkey, mintBuyer': Pubkey, receiveAmt': u64)
    requires InitializeTrade(env, s, seller, mintSeller, mintBuyer, seed, receiveAmt).Ok?
    ensures var post := InitializeTrade(env, s, seller, mintSeller, mintBuyer, seed, receiveAmt).value.post;
            InitializeTrade(env, post, seller, mintSeller', mintBuyer', seed, receiveAmt').Err?
  {
  }

  /**
   * The record written has no taker, so it fits the `8 + INIT_SPACE` bytes `init` allocates and
   * loads back unchanged.
   */
  lemma InitializedRecordFits(env: Env, s: Chain, seller: Pubkey, mintSeller: Pubkey, mintBuyer: Pubkey,
                              seed: u64, receiveAmt: u64, disc: seq<byte>)
    requires |disc| == DISCRIMINATOR_LEN
    requires InitializeTrade(env, s, seller, mintSeller, mintBuyer, seed, receiveAmt).Ok?
    ensures var created := InitializeTrade(env, s, seller, mintSeller, mintBuyer, seed, receiveAmt).value;
            var e := created.post.escrows[created.escrow];
            && |Encode(e)| == INIT_SPACE
            && Store(disc, e).Some?
            && Load(disc, Store(disc, e).value) == Some(e)
  {
    var created := InitializeTrade(env, s, seller, mintSeller, mintBuyer, seed, receiveAmt).value;
    LoadStore(disc, created.post.escrows[created.escrow]);
  }
}
