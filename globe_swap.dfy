/**
 * The program's two instructions (programs/globe_swap/src/lib.rs) executed against a mutable chain
 * state. Each method checks the accounts, stages every write in locals, and commits them only
 * after the last step has succeeded, so a failing instruction leaves the world as it was.
 */
module GlobeSwap {
  import opened Primitives
  import opened Errors
  import opened EscrowState
  import opened TokenLedger
  import opened Pda
  import opened Accounts
  import Init = Initialize
  import Join = JoinTrade

  class World {
    /** `create_program_address` for the escrow program. */
    const cpa: CreateProgramAddress
    /** The address of the associated token account of (authority, mint). */
    const ata: (Pubkey, Pubkey) -> Pubkey
    /** Every existing token account and its balance. */
    var balances: Balances
    /** The live escrow records, by address. */
    var escrows: map<Pubkey, Escrow>

    function Derivations(): Env
    {
      Env(cpa, ata)
    }

    ghost function State(): Chain
      reads this
    {
      Chain(balances, escrows)
    }

    ghost predicate Valid()
      reads this
    {
      WellFormed(Derivations(), State())
    }

    /** A chain with the given token accounts and no escrow. */
    constructor (cpa: CreateProgramAddress, ata: (Pubkey, Pubkey) -> Pubkey, balances: Balances)
      ensures Valid()
      ensures Derivations() == Env(cpa, ata)
      ensures State() == Chain(balances, map[])
    {
      this.cpa := cpa;
      this.ata := ata;
      this.balances := balances;
      this.escrows := map[];
    }

    /** `initialize_trade(seed, receive_amt)` signed by `seller`. */
    method InitializeTrade(seller: Pubkey, mintSeller: Pubkey, mintBuyer: Pubkey, seed: u64, receiveAmt: u64)
      returns (r: Result<Pubkey>)
      requires Valid()
      modifies this
      ensures Valid()
      ensures var spec := Init.InitializeTrade(Derivations(), old(State()), seller, mintSeller, mintBuyer, seed, receiveAmt);
              && (spec.Ok? ==> r == Ok(spec.value.escrow) && State() == spec.value.post)
              && (spec.Err? ==> r == Err(spec.error) && State() == old(State()))
    {
      // Account constraints of `Initialize`.
      var sellerAta := Ata(seller, mintSeller);
      if sellerAta !in balances {
        return Err(AccountNotInitialized);
      }
      var derived := FindProgramAddress(cpa, EscrowSeeds(seller, seed));
      if derived.None? {
        return Err(NoViableBump);
      }
      var (key, bump) := derived.value;
      if key in escrows {
        return Err(AccountAlreadyInUse);
      }
      var vault := Ata(key, mintSeller);
      var stagedBalances := CreateIdempotent(balances, vault);
      // `create_escrow`: write the record, then deposit.
      var stagedEscrows := escrows[key := Init.NewRecord(Derivations(), key, bump, seller, mintSeller, mintBuyer, seed, receiveAmt)];
      var deposited := Transfer(stagedBalances, sellerAta, vault, Init.DEPOSIT);
      if deposited.Err? {
        return Err(deposited.error);
      }
      ghost var before := State();
      balances, escrows := deposited.value, stagedEscrows;
      Init.InitializePreservesWellFormed(Derivations(), before, seller, mintSeller, mintBuyer, seed, receiveAmt);
      r := Ok(key);
    }

    /** `join_trade()` signed by `buyer`, naming the record at `escrowKey` and the two mint accounts. */
    method JoinTrade(buyer: Pubkey, escrowKey: Pubkey, mintA: Pubkey, mintB: Pubkey) returns (r: Result<Pubkey>)
      requires Valid()
      modifies this
      ensures Valid()
      ensures var spec := Join.ExecuteSwap(Derivations(), old(State()), buyer, escrowKey, mintA, mintB);
              && (spec.Ok? ==> r == Ok(spec.value.rentRecipient) && State() == spec.value.post)
              && (spec.Err? ==> r == Err(spec.error) && State() == old(State()))
    {
      // First pass of Anchor's validation: load the existing accounts in declaration order.
      if escrowKey !in escrows {
        return Err(AccountNotInitialized);
      }
      var e := escrows[escrowKey];
      var buyerAtaB := Ata(buyer, mintB);
      if buyerAtaB !in balances {
        return Err(AccountNotInitialized);
      }
      var vault := Ata(escrowKey, mintA);
      if vault !in balances {
        return Err(AccountNotInitialized);
      }
      // `self.vault_a.amount`, as loaded before anything moves.
      var vaultAmount := balances[vault];
      // Second pass: create the `init_if_needed` accounts.
      var staged := CreateIdempotent(balances, Ata(escrowKey, mintB));
      staged := CreateIdempotent(staged, Ata(buyer, mintA));
      // Third pass: the `address` constraints on the two mints.
      if mintB != e.mintB || mintA != e.mintA {
        return Err(ConstraintAddress);
      }
      r := ExecuteSwap(buyer, escrowKey, staged, vaultAmount);
    }

    /**
     * `execute_swap` on the validated accounts in `loaded`: the payment, the signed release of
     * `vaultAmount` from the vault, and the closing of the record, committed together or not at all.
     */
    method ExecuteSwap(buyer: Pubkey, escrowKey: Pubkey, loaded: Balances, vaultAmount: nat) returns (r: Result<Pubkey>)
      requires Valid()
      requires balances.Keys <= loaded.Keys
      requires Join.SwapAccounts(State(), buyer, escrowKey, loaded)
      modifies this
      ensures Valid()
      ensures var spec := Join.Swap(Derivations(), old(State()), buyer, escrowKey, loaded, vaultAmount);
              && (spec.Ok? ==> r == Ok(spec.value.rentRecipient) && State() == spec.value.post)
              && (spec.Err? ==> r == Err(spec.error) && State() == old(State()))
    {
      var e := escrows[escrowKey];
      var vault := Ata(escrowKey, e.mintA);
      // 1. The buyer pays `receive_amt` of mint B.
      var paid := Transfer(loaded, Ata(buyer, e.mintB), Ata(escrowKey, e.mintB), e.receiveAmt);
      if paid.Err? {
        return Err(paid.error);
      }
      // 2. The escrow signs with its seeds and releases the vault to the buyer.
      if cpa(Join.SignerSeeds(e)) != Some(escrowKey) {
        return Err(MissingRequiredSignature);
      }
      var released := Transfer(paid.value, vault, Ata(buyer, e.mintA), vaultAmount);
      if released.Err? {
        return Err(released.error);
      }
      // 3. Close the record (its rent goes to the buyer) and commit.
      ghost var before := State();
      balances, escrows := released.value, escrows - {escrowKey};
      Join.SwapPreservesWellFormed(Derivations(), before, buyer, escrowKey, loaded, vaultAmount);
      r := Ok(buyer);
    }
  }
}
