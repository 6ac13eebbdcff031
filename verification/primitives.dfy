/**
 The machine types the ledger is built from: Rust's `u8` and `u64`, and the
 Some/None wrapper the decoders return.
 */
module Primitives {

  /** Exclusive upper bound of Rust's `u64`. */
  const U64_LIMIT: int := 0x1_0000_0000_0000_0000

  /** An unsigned 8-bit value, the element type of `Vec<u8>` and `&[u8]`. */
  type byte = x: int | 0 <= x < 0x100

  /** An unsigned 64-bit value, the type of the block timestamp. */
  type u64 = x: int | 0 <= x < U64_LIMIT

  datatype Option<+T> = None | Some(value: T)

  /** 10 to the power `k`. */
  function Pow10(k: nat): (p: nat)
    ensures p >= 1
  {
    if k == 0 then 1 else 10 * Pow10(k - 1)
  }
}
