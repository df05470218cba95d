/**
 * Program-derived addresses. The hash behind `create_program_address` is not modelled: it is a
 * function value that maps seeds to an address, or to `None` when the hash lands on the curve.
 * `find_program_address` tries the bump seeds 255, 254, ..., 1 in turn and keeps the first that works.
 */
module Pda {
  import opened Primitives

  type Seeds = seq<seq<byte>>

  /** `create_program_address` for the escrow program. */
  type CreateProgramAddress = Seeds -> Option<Pubkey>

  /** The seeds followed by the one-byte bump seed. */
  function WithBump(seeds: Seeds, bump: u8): (r: Seeds)
  {
    seeds + [[bump]]
  }

  /** The first bump among `bump`, `bump` - 1, ..., 1 that yields a program address. */
  function TryBumps(cpa: CreateProgramAddress, seeds: Seeds, bump: u8): (r: Option<(Pubkey, u8)>)
    ensures r.Some? ==> 1 <= r.value.1 <= bump && cpa(WithBump(seeds, r.value.1)) == Some(r.value.0)
    ensures r.Some? ==> forall b: u8 | r.value.1 < b <= bump :: cpa(WithBump(seeds, b)).None?
    ensures r.None? ==> forall b: u8 | 1 <= b <= bump :: cpa(WithBump(seeds, b)).None?
    decreases bump
  {
    if bump == 0 then None
    else match cpa(WithBump(seeds, bump))
      case Some(address) => Some((address, bump))
      case None => TryBumps(cpa, seeds, bump - 1)
  }

  /**
   * `find_program_address`: the address and its canonical bump, the largest bump that yields an
   * address; `None` when no bump does.
   */
  function FindProgramAddress(cpa: CreateProgramAddress, seeds: Seeds): (r: Option<(Pubkey, u8)>)
    ensures r.Some? ==> cpa(WithBump(seeds, r.value.1)) == Some(r.value.0)
    ensures r.Some? ==> forall b: u8 | r.value.1 < b :: cpa(WithBump(seeds, b)).None?
    ensures r.None? ==> forall b: u8 | 1 <= b :: cpa(WithBump(seeds, b)).None?
  {
    TryBumps(cpa, seeds, 255)
  }
}
