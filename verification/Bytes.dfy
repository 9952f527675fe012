/** Byte strings and the option type shared by every component. */
module Bytes {

  type Byte = b: int | 0 <= b < 256

  type Key = seq<Byte>

  datatype Option<+T> = None | Some(value: T)

  function Zeros(n: nat): (z: seq<Byte>)
    ensures |z| == n
  {
    seq(n, _ => 0)
  }

  function Max(a: int, b: int): int {
    if a < b then b else a
  }

  function Min(a: int, b: int): int {
    if a < b then a else b
  }
}
