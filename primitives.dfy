/** Fixed-width values of the Solana runtime and Rust's little-endian integer bytes. */
module Primitives {

  /** An unsigned byte; Rust's `u8`. */
  type byte = x: nat | x < 256
  type u8 = byte

  const U64_LIMIT: nat := 0x1_0000_0000_0000_0000

  /** Rust's `u64`. */
  type u64 = x: nat | x < 0x1_0000_0000_0000_0000

  const PUBKEY_LEN: nat := 32

  /** A Solana account address: 32 bytes. */
  type Pubkey = k: seq<byte> | |k| == 32 witness seq(32, i => 0)

  /** `Pubkey::default()`: all 32 bytes zero. */
  const DEFAULT_PUBKEY: Pubkey := seq(32, i => 0)

  datatype Option<+T> = None | Some(value: T) {
    predicate IsFailure() { None? }
    function PropagateFailure<U>(): Option<U> requires None? { None }
    function Extract(): T requires Some? { value }
  }

  function Pow256(n: nat): (p: nat)
    ensures p >= 1
  {
    if n == 0 then 1 else 256 * Pow256(n - 1)
  }

  /** The `n` little-endian bytes of `x`, as Rust's `to_le_bytes` gives them for an `n`-byte unsigned integer. */
  function LeBytes(x: nat, n: nat): (bs: seq<byte>)
    requires x < Pow256(n)
    ensures |bs| == n
    decreases n
  {
    if n == 0 then [] else [x % 256] + LeBytes(x / 256, n - 1)
  }

  /** The unsigned integer whose little-endian bytes are `bs` (`from_le_bytes`). */
  function LeValue(bs: seq<byte>): (x: nat)
    ensures x < Pow256(|bs|)
  {
    if bs == [] then 0 else bs[0] + 256 * LeValue(bs[1..])
  }

  lemma {:induction false} LeValueOfLeBytes(x: nat, n: nat)
    requires x < Pow256(n)
    ensures LeValue(LeBytes(x, n)) == x
    decreases n
  {
    if n > 0 {
      var bs := LeBytes(x, n);
      assert bs[1..] == LeBytes(x / 256, n - 1);
      LeValueOfLeBytes(x / 256, n - 1);
    }
  }

  lemma {:induction false} LeBytesOfLeValue(bs: seq<byte>)
    ensures LeBytes(LeValue(bs), |bs|) == bs
  {
    if bs != [] {
      var x := LeValue(bs);
      assert x % 256 == bs[0] && x / 256 == LeValue(bs[1..]);
      LeBytesOfLeValue(bs[1..]);
    }
  }

  lemma U64LimitIsPow256()
    ensures Pow256(8) == U64_LIMIT
  {
  }

  /** `x.to_le_bytes()` for a `u64`. */
  function U64Le(x: u64): (bs: seq<byte>)
    ensures |bs| == 8 && LeValue(bs) == x
  {
    U64LimitIsPow256();
    LeValueOfLeBytes(x, 8);
    LeBytes(x, 8)
  }

  /** `u64::from_le_bytes`. */
  function U64FromLe(bs: seq<byte>): (x: u64)
    requires |bs| == 8
    ensures U64Le(x) == bs
  {
    U64LimitIsPow256();
    LeBytesOfLeValue(bs);
    LeValue(bs)
  }
}
