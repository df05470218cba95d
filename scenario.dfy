/**
 * The end-to-end run of tests/globe_swap.ts: both parties start with 100 units of their mint, the
 * seller opens an escrow asking `price` units of mint B (the test uses seed 777 and 50), and the
 * buyer joins.
 */
module Scenario {
  import opened Primitives
  import opened Errors
  import opened TokenLedger
  import opened Accounts
  import opened Initialize
  import opened JoinTrade

  /** The balances the test mints before the two instructions. */
  function Minted(seller: Pubkey, buyer: Pubkey, mintA: Pubkey, mintB: Pubkey): (s: Chain)
  {
    Chain(map[Ata(seller, mintA) := 100, Ata(buyer, mintB) := 100], map[])
  }

  /** After `initialize_trade(seed, price)`: the deposit sits in the vault and the record is live. */
  ghost predicate Opened(env: Env, s: Chain, seller: Pubkey, buyer: Pubkey, mintA: Pubkey, mintB: Pubkey,
                         key: Pubkey, bump: u8, seed: u64, price: u64)
  {
    && s.escrows == map[key := NewRecord(env, key, bump, seller, mintA, mintB, seed, price)]
    && s.balances.Keys == {Ata(seller, mintA), Ata(buyer, mintB), Ata(key, mintA)}
    && s.balances[Ata(seller, mintA)] == 0
    && s.balances[Ata(buyer, mintB)] == 100
    && s.balances[Ata(key, mintA)] == 100
  }

  /** The test's `initializeTrade(seed, receiveAmt)` step. */
  lemma TestInitialize(env: Env, seller: Pubkey, buyer: Pubkey, mintA: Pubkey, mintB: Pubkey,
                       key: Pubkey, bump: u8, seed: u64, price: u64)
    requires mintA != mintB && seller != buyer && price <= 100
    requires EscrowAddress(env, seller, seed) == Some((key, bump))
    requires key != seller && key != buyer
    ensures var r := InitializeTrade(env, Minted(seller, buyer, mintA, mintB), seller, mintA, mintB, seed, price);
            && r.Ok? && r.value.escrow == key
            && Opened(env, r.value.post, seller, buyer, mintA, mintB, key, bump, seed, price)
            && WellFormed(env, r.value.post)
  {
    var s0 := Minted(seller, buyer, mintA, mintB);
    var vault := Ata(key, mintA);
    var staged := CreateIdempotent(s0.balances, vault);
    var moved := Transfer(staged, Ata(seller, mintA), vault, DEPOSIT);
    assert moved.Ok?;
    var record := NewRecord(env, key, bump, seller, mintA, mintB, seed, price);
    assert InitializeTrade(env, s0, seller, mintA, mintB, seed, price)
        == Ok(Created(Chain(moved.value, map[key := record]), key));
    InitializePreservesWellFormed(env, s0, seller, mintA, mintB, seed, price);
  }

  /** The test's `joinTrade()` step succeeds: the buyer holds the price and the record is intact. */
  lemma TestJoinSucceeds(env: Env, s: Chain, seller: Pubkey, buyer: Pubkey, mintA: Pubkey, mintB: Pubkey,
                         key: Pubkey, bump: u8, seed: u64, price: u64)
    requires price <= 100
    requires Opened(env, s, seller, buyer, mintA, mintB, key, bump, seed, price) && WellFormed(env, s)
    ensures ExecuteSwap(env, s, buyer, key, mintA, mintB).Ok?
  {
    JoinOutcome(env, s, buyer, key, mintA, mintB);
  }

  /** The balances `JoinMovesFunds` gives for the opened trade, worked out account by account. */
  lemma SettledBalances(b: Balances, b': Balances, seller: Pubkey, buyer: Pubkey, mintA: Pubkey, mintB: Pubkey,
                        key: Pubkey, price: nat)
    requires mintA != mintB && seller != buyer && key != seller && key != buyer
    requires b.Keys == {Ata(seller, mintA), Ata(buyer, mintB), Ata(key, mintA)}
    requires b[Ata(seller, mintA)] == 0 && b[Ata(buyer, mintB)] == 100 && b[Ata(key, mintA)] == 100
    requires b'.Keys == b.Keys + {Ata(key, mintB), Ata(buyer, mintA)}
    requires b'[Ata(buyer, mintB)] + price == b[Ata(buyer, mintB)]
    requires b'[Ata(key, mintB)] == (if Ata(key, mintB) in b then b[Ata(key, mintB)] else 0) + price
    requires b'[Ata(key, mintA)] == 0
    requires b'[Ata(buyer, mintA)] == (if Ata(buyer, mintA) in b then b[Ata(buyer, mintA)] else 0) + b[Ata(key, mintA)]
    requires forall k | k in b && k !in {Ata(buyer, mintB), Ata(key, mintB), Ata(key, mintA), Ata(buyer, mintA)}
               :: b'[k] == b[k]
    ensures b'[Ata(buyer, mintA)] == 100 && b'[Ata(buyer, mintB)] + price == 100 && b'[Ata(key, mintB)] == price
    ensures b'[Ata(seller, mintA)] == 0 && b'[Ata(key, mintA)] == 0
    ensures Ata(seller, mintB) !in b'
  {
    assert Ata(buyer, mintA) !in b && Ata(key, mintB) !in b;
  }

  /** The test's `joinTrade()` step. */
  lemma TestJoin(env: Env, s: Chain, seller: Pubkey, buyer: Pubkey, mintA: Pubkey, mintB: Pubkey,
                 key: Pubkey, bump: u8, seed: u64, price: u64)
    requires mintA != mintB && seller != buyer && price <= 100
    requires key != seller && key != buyer
    requires Opened(env, s, seller, buyer, mintA, mintB, key, bump, seed, price) && WellFormed(env, s)
    ensures var r := ExecuteSwap(env, s, buyer, key, mintA, mintB);
            && r.Ok?
            && var b := r.value.post.balances;
               && b[Ata(buyer, mintA)] == 100
               && b[Ata(buyer, mintB)] + price == 100
               && b[Ata(key, mintB)] == price
               && b[Ata(seller, mintA)] == 0
               && b[Ata(key, mintA)] == 0
               && Ata(seller, mintB) !in b
               && r.value.post.escrows == map[]
               && r.value.rentRecipient == buyer
  {
    TestJoinSucceeds(env, s, seller, buyer, mintA, mintB, key, bump, seed, price);
    JoinMovesFunds(env, s, buyer, key, mintA, mintB);
    var r := ExecuteSwap(env, s, buyer, key, mintA, mintB);
    SettledBalances(s.balances, r.value.post.balances, seller, buyer, mintA, mintB, key, price);
    assert r.value.post.escrows == s.escrows - {key};
  }

  /**
   * Both instructions succeed and the buyer ends with 100 units of mint A, as the test asserts; the
   * `price` units of mint B end in the escrow's own account, and the seller's mint-B account is never
   * created or credited, where the test expects it to hold the price.
   */
  lemma TestRun(env: Env, seller: Pubkey, buyer: Pubkey, mintA: Pubkey, mintB: Pubkey,
                key: Pubkey, bump: u8, seed: u64, price: u64)
    requires mintA != mintB && seller != buyer && price <= 100
    requires EscrowAddress(env, seller, seed) == Some((key, bump))
    requires key != seller && key != buyer
    ensures var created := InitializeTrade(env, Minted(seller, buyer, mintA, mintB), seller, mintA, mintB, seed, price);
            && created.Ok? && created.value.escrow == key
            && var settled := ExecuteSwap(env, created.value.post, buyer, key, mintA, mintB);
               && settled.Ok?
               && var b := settled.value.post.balances;
                  && b[Ata(buyer, mintA)] == 100
                  && b[Ata(buyer, mintB)] + price == 100
                  && b[Ata(key, mintB)] == price
                  && Ata(seller, mintB) !in b
                  && settled.value.post.escrows == map[]
                  && settled.value.rentRecipient == buyer
  {
    TestInitialize(env, seller, buyer, mintA, mintB, key, bump, seed, price);
    var created := InitializeTrade(env, Minted(seller, buyer, mintA, mintB), seller, mintA, mintB, seed, price);
    TestJoin(env, created.value.post, seller, buyer, mintA, mintB, key, bump, seed, price);
  }

  /**
   * Reopening a closed trade with the mints swapped: the seller opens (seller, seed) again offering
   * mint B. `init_if_needed` then takes the escrow's mint-B account, where an earlier payment was left,
   * as the new vault. The record is at the same address, because the address depends only on the seller
   * and the seed. Returns the chain state after the reopening.
   */
  lemma ReopenOpens(env: Env, s: Chain, seller: Pubkey, buyer2: Pubkey, mintA: Pubkey, mintB: Pubkey,
                    seed: u64, key: Pubkey, bump: u8)
    returns (post: Chain)
    requires WellFormed(env, s)
    requires EscrowAddress(env, seller, seed) == Some((key, bump)) && key !in s.escrows
    requires mintA != mintB && seller != buyer2 && seller != key && buyer2 != key
    requires Ata(seller, mintB) in s.balances && s.balances[Ata(seller, mintB)] >= DEPOSIT
    requires Ata(buyer2, mintA) in s.balances && Ata(key, mintB) in s.balances
    ensures var created := InitializeTrade(env, s, seller, mintB, mintA, seed, 0);
            && created.Ok? && created.value.escrow == key && created.value.post == post
    ensures WellFormed(env, post)
    ensures key in post.escrows && post.escrows[key].mintA == mintB && post.escrows[key].mintB == mintA
    ensures post.escrows[key].receiveAmt == 0
    ensures Ata(key, mintB) in post.balances && post.balances[Ata(key, mintB)] == s.balances[Ata(key, mintB)] + DEPOSIT
    ensures Ata(buyer2, mintA) in post.balances
    ensures Ata(buyer2, mintB) in post.balances <==> Ata(buyer2, mintB) in s.balances
    ensures Ata(buyer2, mintB) in s.balances ==> post.balances[Ata(buyer2, mintB)] == s.balances[Ata(buyer2, mintB)]
  {
    InitializeOutcome(env, s, seller, mintB, mintA, seed, 0);
    InitializeMovesDeposit(env, s, seller, mintB, mintA, seed, 0);
    InitializeWritesRecord(env, s, seller, mintB, mintA, seed, 0);
    InitializePreservesWellFormed(env, s, seller, mintB, mintA, seed, 0);
    post := InitializeTrade(env, s, seller, mintB, mintA, seed, 0).value.post;
  }

  /**
   * A payment left in the escrow's mint-B account by a settled trade is not stranded for good. Once the
   * record is closed, the seller can reopen (seller, seed) offering mint B for a price of 0, and the
   * next buyer receives the old payment plus the new deposit, leaving that account empty.
   */
  lemma ReopenReleasesPayment(env: Env, s: Chain, seller: Pubkey, buyer2: Pubkey, mintA: Pubkey, mintB: Pubkey,
                              seed: u64, key: Pubkey, bump: u8)
    requires WellFormed(env, s)
    requires EscrowAddress(env, seller, seed) == Some((key, bump)) && key !in s.escrows
    requires mintA != mintB && seller != buyer2 && seller != key && buyer2 != key
    requires Ata(seller, mintB) in s.balances && s.balances[Ata(seller, mintB)] >= DEPOSIT
    requires Ata(buyer2, mintA) in s.balances && Ata(key, mintB) in s.balances
    ensures var created := InitializeTrade(env, s, seller, mintB, mintA, seed, 0);
            && created.Ok? && created.value.escrow == key
            && var settled := ExecuteSwap(env, created.value.post, buyer2, key, mintB, mintA);
               && settled.Ok?
               && settled.value.post.balances[Ata(key, mintB)] == 0
               && settled.value.post.balances[Ata(buyer2, mintB)]
                  == (if Ata(buyer2, mintB) in s.balances then s.balances[Ata(buyer2, mintB)] else 0)
                     + s.balances[Ata(key, mintB)] + DEPOSIT
  {
    var post := ReopenOpens(env, s, seller, buyer2, mintA, mintB, seed, key, bump);
    JoinOutcome(env, post, buyer2, key, mintB, mintA);
    JoinMovesFunds(env, post, buyer2, key, mintB, mintA);
  }
}
