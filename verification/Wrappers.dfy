/** Options and results, and the largest number of Rust's `u64`. */
module Wrappers {
  datatype Option<+T> = None | Some(value: T)

  datatype Result<+T, +E> = Success(value: T) | Failure(error: E)

  const U64_MAX: nat := 0xFFFF_FFFF_FFFF_FFFF
}
