# GlobeSwap escrow, modelled in Dafny

GlobeSwap is a two-instruction Solana program written with Anchor. `initialize_trade(seed, receive_amt)` lets
a seller open an escrow record at a program-derived address. The address is derived from
("escrow", seller, seed as 8 little-endian bytes). The instruction then deposits a fixed 100 units of the
seller's mint into a vault token account that the escrow owns. `join_trade()` lets a buyer settle the trade:

1. The buyer pays `receive_amt` of the second mint.
2. The buyer receives the vault's balance.
3. The record is closed.

This project models those two instructions, the `Escrow` record and its byte layout, and proves properties of them.

Modules, one per file:

- `Primitives` (primitives.dfy): bytes, `u64`, 32-byte public keys, `Option`, and little-endian encoding with its inverse.
- `Errors` (errors.dfy): the failures the instructions can end with, and `Result`.
- `EscrowState` (escrow.dfy): the nine-field `Escrow` record and its Borsh serialisation, including decoding.
  It also holds `INIT_SPACE` and the account image Anchor stores: discriminator, record, zero padding.
- `TokenLedger` (token_ledger.dfy): the token program as a map from associated token accounts to balances.
  - An associated token account is identified by its (authority, mint) pair.
  - `init_if_needed` is idempotent creation.
  - `transfer_checked` moves a balance.
  - The per-mint supply is a ghost sum.
- `Pda` (pda.dfy): `find_program_address` over an abstract `create_program_address`. It tries bump seeds from 255 down to 1.
- `Accounts` (accounts.dfy): the derivations the runtime supplies, the chain state, and the invariant a well-formed state keeps.
  - The chain state is the token balances plus the live escrow records by address.
  - The invariant: each record sits at the address derived from its maker and seed, with its own bump and its vault.
- `Initialize` (initialize.dfy) and `JoinTrade` (join_trade.dfy): each instruction as a pure function from a
  chain state to a new state or an error, with the lemmas about it.
- `GlobeSwap` (globe_swap.dfy): the class `World`, whose mutable `balances` and `escrows` fields the two
  instruction methods update.
  - `JoinTrade` checks the accounts in the order of Anchor's generated validation, which runs in three passes.
    First it loads the existing accounts in declaration order. Then it creates the `init_if_needed` accounts.
    Only after that does it check the `address` constraints on the mints. `InitializeTrade` checks the
    seller's account, then creates the record and the vault.
  - `JoinTrade` hands the validated accounts to `ExecuteSwap`, which models `execute_swap` itself.
  - It stages every write in locals and commits only when the last step has succeeded. A failing instruction
    leaves the world exactly as it was, as the runtime's transaction atomicity guarantees.
  - Each method is proved against the pure function of its instruction module, and it keeps the well-formedness invariant.
- `Scenario` (scenario.dfy): the end-to-end run of `tests/globe_swap.ts`.

Behaviour of the code as written that the model keeps and the lemmas make explicit:

- The deposit is always 100 units, whatever `receive_amt` is. Neither `receive_amt > 0` nor
  `mint_seller != mint_buyer` is checked.
- The buyer's payment goes to the associated token account of (escrow, mint B), not to the maker. The
  account is created on demand, and the join never touches the maker's own accounts. The payment
  leaves that account only by a detour (`Scenario.ReopenReleasesPayment`):
  1. Once the record is closed, the seller opens (seller, seed) again, offering mint B.
  2. `init_if_needed` takes the escrow's mint-B account as the new vault, because the address depends
     only on the seller and the seed.
  3. The next buyer receives the old payment plus the new deposit.

  The payment that stays in the vault when both mints are the same can leave the same way.
- The rent of the closed record is refunded to the buyer, although the comment beside that line speaks of the maker.
- The amount released from the vault is its balance as loaded, read before either transfer.
  - With two different mints, the vault ends empty.
  - With the same mint on both sides, the payment lands in the vault after the read, so it stays there.
- `INIT_SPACE` (178 bytes) holds a record only while `taker` is `None`. A record with a taker needs 210 bytes.
- The test expects the seller's own mint-B account to hold the 50 units paid. In the model that account is
  never created, and the 50 units sit in the escrow's mint-B account (`Scenario.TestRun`).

## Model

| member | source | states |
|---|---|---|
| Primitives.U64Le | programs/globe_swap/src/instructions/initialize.rs:37 | `seed.to_le_bytes()` is 8 bytes whose little-endian value is the seed |
| Primitives.U64FromLe | programs/globe_swap/src/state/escrow.rs:5 | reading 8 little-endian bytes gives the `u64` whose encoding they are |
| Primitives.LeValueOfLeBytes | programs/globe_swap/src/instructions/initialize.rs:37 | decoding the little-endian bytes of a value gives the value back |
| Primitives.LeBytesOfLeValue | programs/globe_swap/src/state/escrow.rs:12 | encoding the value of any byte string at its own length gives the string back |
| EscrowState.InitSpaceValues | programs/globe_swap/src/state/escrow.rs:17 | `INIT_SPACE` is 178, and the `init` allocation of 8 + `INIT_SPACE` is 186 bytes |
| EscrowState.EncodeTaker | programs/globe_swap/src/state/escrow.rs:7 | `Option<Pubkey>` takes 1 byte when `None` and 33 bytes when `Some` |
| EscrowState.Encode | programs/globe_swap/src/state/escrow.rs:4-14 | the nine fields serialise to exactly `INIT_SPACE` bytes without a taker and 32 more with one |
| EscrowState.DecodeEncode | programs/globe_swap/src/state/escrow.rs:4-14 | decoding the serialisation, followed by any trailing bytes, gives the record back |
| EscrowState.EncodeDecode | programs/globe_swap/src/state/escrow.rs:4-14 | whatever decodes to a record starts with that record's serialisation |
| EscrowState.EncodeInjective | programs/globe_swap/src/state/escrow.rs:3-14 | distinct records never serialise to the same bytes |
| EscrowState.StoreFitsIffNoTaker | programs/globe_swap/src/state/escrow.rs:7-17 | the record fits the allocated account exactly when it has no taker: 178 bytes against 210 |
| EscrowState.Decode | programs/globe_swap/src/state/escrow.rs:3-14 | a record decoded from bytes never needs more bytes than are present: at least its own serialisation's length |
| EscrowState.Store | programs/globe_swap/src/instructions/initialize.rs:33-40 | the record can be stored exactly when it has no taker; the stored data is the 186 allocated bytes, starting with the discriminator |
| EscrowState.Load | programs/globe_swap/src/instructions/join_trade.rs:85-86 | loading succeeds only on data that starts with the discriminator and is long enough for a record |
| EscrowState.LoadStore | programs/globe_swap/src/state/escrow.rs:3-17 | a record without a taker, stored after its discriminator in the 186-byte account, loads back unchanged |
| Pda.TryBumps | programs/globe_swap/src/instructions/initialize.rs:37-38 | the bump found derives the address, no larger bump in the range derives one, and `None` means no bump in the range does |
| Pda.FindProgramAddress | programs/globe_swap/src/instructions/initialize.rs:37-38 | the canonical bump is the largest one that yields an address; `None` when none does |
| TokenLedger.CreateIdempotent | programs/globe_swap/src/instructions/initialize.rs:42-49 | `init_if_needed` adds the account with balance 0 when missing and changes no balance |
| TokenLedger.Transfer | programs/globe_swap/src/instructions/initialize.rs:72-81 | succeeds exactly when the source holds the amount and the mints agree; otherwise `InsufficientFunds`, checked first, or `MintMismatch`; moves exactly the amount; no other account changes |
| TokenLedger.CreateIdempotentConserves | programs/globe_swap/src/instructions/join_trade.rs:108-115 | creating an account leaves the supply of every mint unchanged |
| TokenLedger.TransferConserves | programs/globe_swap/src/instructions/join_trade.rs:153-157 | a transfer leaves the supply of every mint unchanged |
| Accounts.OneRecordPerMakerSeed | programs/globe_swap/src/instructions/initialize.rs:33-40 | in a well-formed state two live records with the same maker and seed are the same record |
| Accounts.EscrowSeeds | programs/globe_swap/src/instructions/initialize.rs:37 | the seeds are the tag `escrow`, the maker's key and 8 bytes from which the seed reads back |
| Accounts.EscrowSeedsInjective | programs/globe_swap/src/instructions/initialize.rs:37 | distinct (maker, seed) pairs give distinct seeds |
| Accounts.EscrowAddress | programs/globe_swap/src/instructions/initialize.rs:37-38 | the escrow's address derives from its seeds with the canonical bump: no larger bump yields an address, and `None` means no bump does |
| Initialize.NewRecord | programs/globe_swap/src/instructions/initialize.rs:59-69 | the record `set_inner` writes has no taker, so it serialises to exactly `INIT_SPACE` bytes |
| Initialize.InitializeTrade | programs/globe_swap/src/instructions/initialize.rs:9-84 | on success the record is new and sits at the derived address, and the only token account added is the vault; the lemmas `InitializeOutcome`, `InitializeWritesRecord` and `InitializeMovesDeposit` specify the rest |
| Initialize.InitializeOutcome | programs/globe_swap/src/instructions/initialize.rs:9-84 | which error each failed constraint gives, in order: a missing seller account, no viable bump, a taken address; otherwise success exactly when the seller holds at least 100 |
| Initialize.InitializeWritesRecord | programs/globe_swap/src/instructions/initialize.rs:59-69 | on success the record at the derived address holds seed, maker = seller, no taker, both mints, vault A, default vault B, `receive_amt` and the canonical bump; other records are unchanged |
| Initialize.InitializeMovesDeposit | programs/globe_swap/src/instructions/initialize.rs:81 | exactly 100 units leave the seller's account and land in the vault on top of its prior balance; no other balance changes |
| Initialize.InitializeIgnoresTerms | programs/globe_swap/src/instructions/initialize.rs:57-84 | `receive_amt` and `mint_buyer` change neither whether the instruction succeeds nor the balances it leaves |
| Initialize.InitializeConserves | programs/globe_swap/src/instructions/initialize.rs:72-81 | the supply of every mint is unchanged |
| Initialize.InitializePreservesWellFormed | programs/globe_swap/src/instructions/initialize.rs:33-49 | a well-formed state stays well formed |
| Initialize.InitializeRejectsDuplicate | programs/globe_swap/src/instructions/initialize.rs:33-40 | while a record for (seller, seed) is live, the instruction fails with `AccountAlreadyInUse` |
| Initialize.InitializeTwiceFails | programs/globe_swap/src/instructions/initialize.rs:33-40 | a second call with the same seller and seed fails |
| Initialize.InitializedRecordFits | programs/globe_swap/src/instructions/initialize.rs:36 | the record written takes exactly `INIT_SPACE` bytes, fits the allocated account and loads back unchanged |
| JoinTrade.SignerSeeds | programs/globe_swap/src/instructions/join_trade.rs:160-167 | the signer seeds are the address seeds of `initialize_trade` followed by the stored bump |
| JoinTrade.ExecuteSwap | programs/globe_swap/src/instructions/join_trade.rs:80-190 | on success the record is removed, the rent goes to the buyer, and the only token accounts added are the escrow's mint-B account and the buyer's mint-A account; the lemmas `JoinOutcome`, `JoinMovesFunds` and `JoinClosesRecord` specify the rest |
| JoinTrade.Swap | programs/globe_swap/src/instructions/join_trade.rs:140-190 | on success the record is removed, the rent goes to the buyer, and no token account is added or removed |
| JoinTrade.SwapPreservesWellFormed | programs/globe_swap/src/instructions/join_trade.rs:185-187 | closing the record after the two transfers keeps every other record well formed |
| JoinTrade.SignerSeedsDeriveEscrow | programs/globe_swap/src/instructions/join_trade.rs:160-167 | the signer seeds are the derivation seeds plus the stored bump, and they yield the record's own address |
| JoinTrade.JoinOutcome | programs/globe_swap/src/instructions/join_trade.rs:80-183 | a missing record, buyer mint-B account or vault gives `AccountNotInitialized` before the mints are compared; then a wrong mint gives `ConstraintAddress`; otherwise success exactly when the buyer holds `receive_amt`, else `InsufficientFunds` |
| JoinTrade.JoinMovesFunds | programs/globe_swap/src/instructions/join_trade.rs:108-183 | `receive_amt` moves from the buyer to the escrow's mint-B account; the vault's loaded balance moves to the buyer; the vault ends at 0; no other balance changes, the maker's included |
| JoinTrade.JoinSameMint | programs/globe_swap/src/instructions/join_trade.rs:179-183 | with one mint on both sides the vault keeps the payment, and the buyer gets only the vault balance loaded before the payment |
| JoinTrade.JoinClosesRecord | programs/globe_swap/src/instructions/join_trade.rs:185-187 | on success the record is removed, other records are untouched, and the rent goes to the buyer |
| JoinTrade.JoinAtMostOnce | programs/globe_swap/src/instructions/join_trade.rs:85-86 | after a successful join, every further join on that record fails with `AccountNotInitialized` |
| JoinTrade.JoinConserves | programs/globe_swap/src/instructions/join_trade.rs:143-183 | the supply of every mint is unchanged |
| JoinTrade.JoinPreservesWellFormed | programs/globe_swap/src/instructions/join_trade.rs:140-190 | a well-formed state stays well formed |
| GlobeSwap.World.InitializeTrade | programs/globe_swap/src/instructions/initialize.rs:9-84 | the method keeps the invariant; on success its state and result are those of `Initialize.InitializeTrade`; on failure it returns that error and changes nothing |
| GlobeSwap.World.ExecuteSwap | programs/globe_swap/src/instructions/join_trade.rs:140-190 | the method keeps the invariant; on success its state and result are those of `JoinTrade.Swap`; on failure it returns that error and changes nothing |
| GlobeSwap.World.JoinTrade | programs/globe_swap/src/instructions/join_trade.rs:80-190 | the method keeps the invariant; on success its state and result are those of `JoinTrade.ExecuteSwap`; on failure it returns that error and changes nothing |
| Scenario.TestInitialize | tests/globe_swap.ts:98-110 | from the minted balances, opening the trade succeeds at the derived address and moves 100 units into the vault |
| Scenario.TestJoinSucceeds | tests/globe_swap.ts:112-126 | after the opening, the join succeeds |
| Scenario.TestJoin | tests/globe_swap.ts:112-126 | joining then succeeds: the buyer gets 100 units of mint A and pays the price into the escrow's mint-B account; the record is closed |
| Scenario.TestRun | tests/globe_swap.ts:128-134 | the buyer's mint-A account holds 100, as the test asserts; the seller's mint-B account does not exist, where the test expects it to hold the price |
| Scenario.ReopenOpens | programs/globe_swap/src/instructions/initialize.rs:33-49 | reopening a closed (seller, seed) with the mints swapped succeeds at the same address, and takes the escrow's mint-B account, with its balance, as the vault |
| Scenario.ReopenReleasesPayment | programs/globe_swap/src/instructions/join_trade.rs:179-183 | after the reopening, the next join empties the escrow's mint-B account into the buyer's: the old payment plus the 100-unit deposit |

## Left out

- Hashing: `create_program_address` (SHA-256 plus the off-curve test) and the associated-token-account address are function values supplied by the caller, not computed.
- The limits of `create_program_address` on the number and length of seeds are not modelled; the escrow's seeds are within them.
- `transfer_checked` is a plain balance move. The model leaves out the decimals check, transfer-fee extensions, frozen accounts, and overflow of the destination's `u64` balance (balances are unbounded naturals).
- Lamports are not modelled: neither rent amounts nor the seller's and buyer's payments for created accounts. For a closed record, only who receives its rent is recorded.
- Anchor's account checks that only verify program ownership are not modelled: that a mint account exists, the `mint::token_program` constraints, and the choice of token program.
- Signer checks: the seller and buyer are assumed to sign. The escrow's own signature is modelled as the check that its signer seeds derive its address.
- Records are kept as values in `Chain.escrows`, not as account bytes. The byte image is modelled separately (`EscrowState.Store`, `EscrowState.Load`). The discriminator is a parameter, because its hash is not computed.
- The program entry points in programs/globe_swap/src/lib.rs only forward to the two instruction handlers. They are not modelled separately.
- The commented-out code in initialize.rs and join_trade.rs is not live, and is not modelled. This includes the taker-setting join and the `AlreadyJoined` error.
- Transaction scheduling and concurrency: each instruction is one atomic step.
- Scenario.TestInitialize: states the test's run for any seed and price up to 100 rather than for seed 777 and price 50. The derivation is abstract, so a concrete seed adds nothing.
- Account addresses are derived in the model, not supplied by the caller. A wrongly supplied account therefore has no failure case: neither a mismatched escrow address (`ConstraintSeeds`, initialize.rs:37-38) nor a token account that is not the required associated account (the `associated_token::` constraints).
- `Scenario`: uses the associated token accounts the instructions require. tests/globe_swap.ts:79-95 instead derives the vault and the two receiving accounts with `findProgramAddressSync` under the escrow program's id, so the accounts it passes are not the associated accounts, and Anchor's `associated_token::` checks would refuse them. The scenario models the run the test intends.
