/** Failure-carrying values shared by the other modules. */
module Basics {
  datatype Option<+T> = None | Some(value: T)

  datatype Result<+T, +E> = Ok(value: T) | Err(error: E)

  /** A byte of physical or user memory. */
  type byte = x: int | 0 <= x < 256

  const PAGE_SIZE: nat := 4096

  /** Machine words have 64 bits. */
  const WORD: nat := 0x1_0000_0000_0000_0000

  function Min(a: nat, b: nat): nat {
    if a < b then a else b
  }
}
