/** Stock result types and the 64-bit key type shared by the other modules. */
module Wrappers {
  datatype Option<+T> = None | Some(value: T)

  datatype Result<+T, +E> = Success(value: T) | Failure(error: E)

  /** The number of values of an unsigned 64-bit integer. */
  const U64_SPACE: nat := 0x1_0000_0000_0000_0000

  type U64 = x: nat | x < U64_SPACE

  function Wrap(x: nat): U64 { if x < U64_SPACE then x else x % U64_SPACE }
}
