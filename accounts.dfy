/**
 * The on-chain state the two instructions read and write: token balances, the live escrow records by
 * address, and what a well-formed state looks like.
 */
module Accounts {
  import opened Primitives
  import opened Pda
  import opened EscrowState
  import opened TokenLedger

  /** The address derivations the runtime supplies; neither hash is modelled. */
  datatype Env = Env(
    cpa: CreateProgramAddress,          // create_program_address for the escrow program
    ata: (Pubkey, Pubkey) -> Pubkey)    // address of the associated token account of (authority, mint)

  /** Token balances and the escrow records, keyed by the record's address. */
  datatype Chain = Chain(balances: Balances, escrows: map<Pubkey, Escrow>)

  /** The bytes of `b"escrow"`. */
  const ESCROW_TAG: seq<byte> := [101, 115, 99, 114, 111, 119]

  /** `[b"escrow", maker, seed.to_le_bytes()]`, the seeds of an escrow's address. */
  function EscrowSeeds(maker: Pubkey, seed: u64): (seeds: Seeds)
    ensures |seeds| == 3 && seeds[0] == ESCROW_TAG && seeds[1] == maker
    ensures |seeds[2]| == 8 && U64FromLe(seeds[2]) == seed
  {
    [ESCROW_TAG, maker, U64Le(seed)]
  }

  /** The escrow address and canonical bump for (maker, seed). */
  function EscrowAddress(env: Env, maker: Pubkey, seed: u64): (r: Option<(Pubkey, u8)>)
    ensures r.Some? ==> env.cpa(WithBump(EscrowSeeds(maker, seed), r.value.1)) == Some(r.value.0)
    ensures r.Some? ==> forall b: u8 | r.value.1 < b :: env.cpa(WithBump(EscrowSeeds(maker, seed), b)).None?
    ensures r.None? ==> forall b: u8 | 1 <= b :: env.cpa(WithBump(EscrowSeeds(maker, seed), b)).None?
  {
    FindProgramAddress(env.cpa, EscrowSeeds(maker, seed))
  }

  /**
   * A record as `initialize_trade` leaves it at `key`: `key` and `bump` derive from its maker and
   * seed, no taker, `vault_a` the escrow's associated account for `mint_a`, `vault_b` the default
   * key, and that vault exists.
   */
  ghost predicate RecordAt(env: Env, balances: Balances, key: Pubkey, e: Escrow)
  {
    && EscrowAddress(env, e.maker, e.seed) == Some((key, e.bump))
    && e.taker.None?
    && e.vaultA == env.ata(key, e.mintA)
    && e.vaultB == DEFAULT_PUBKEY
    && Ata(key, e.mintA) in balances
  }

  ghost predicate WellFormed(env: Env, s: Chain)
  {
    forall key | key in s.escrows :: RecordAt(env, s.balances, key, s.escrows[key])
  }

  /** Distinct (maker, seed) pairs give distinct seeds. */
  lemma EscrowSeedsInjective(maker: Pubkey, seed: u64, maker': Pubkey, seed': u64)
    requires EscrowSeeds(maker, seed) == EscrowSeeds(maker', seed')
    ensures maker == maker' && seed == seed'
  {
    assert EscrowSeeds(maker, seed)[2] == EscrowSeeds(maker', seed')[2];
  }

  /** In a well-formed state no two live records share a (maker, seed) pair. */
  lemma OneRecordPerMakerSeed(env: Env, s: Chain, k1: Pubkey, k2: Pubkey)
    requires WellFormed(env, s)
    requires k1 in s.escrows && k2 in s.escrows
    requires s.escrows[k1].maker == s.escrows[k2].maker && s.escrows[k1].seed == s.escrows[k2].seed
    ensures k1 == k2 && s.escrows[k1] == s.escrows[k2]
  {
    assert RecordAt(env, s.balances, k1, s.escrows[k1]);
    assert RecordAt(env, s.balances, k2, s.escrows[k2]);
  }

  /** Adding token accounts or changing balances keeps every record well formed. */
  lemma WellFormedAfterBalances(env: Env, s: Chain, balances: Balances)
    requires WellFormed(env, s)
    requires s.balances.Keys <= balances.Keys
    ensures WellFormed(env, Chain(balances, s.escrows))
  {
    forall key | key in s.escrows
      ensures RecordAt(env, balances, key, s.escrows[key])
    {
      assert RecordAt(env, s.balances, key, s.escrows[key]);
    }
  }
}
