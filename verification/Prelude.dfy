/** Shared value types. */
module Prelude {

  datatype Option<+T> = None | Some(value: T)

  /** A byte string. */
  type Byte = x: nat | x < 256
  type Bytes = seq<Byte>

  function Pow2(k: nat): (r: nat)
    ensures r >= 1
  {
    if k == 0 then 1 else 2 * Pow2(k - 1)
  }
}
