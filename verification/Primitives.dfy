/** Byte strings, machine-width integers and hashes shared by every module. */
module Primitives {

  newtype byte = i: int | 0 <= i < 256

  type Bytes = seq<byte>

  const TWO_TO_THE_32: int := 0x1_0000_0000
  const TWO_TO_THE_64: int := 0x1_0000_0000_0000_0000

  type U32 = x: int | 0 <= x < TWO_TO_THE_32
  type U64 = x: int | 0 <= x < TWO_TO_THE_64

  const ZERO_20: Bytes := [0, 0, 0, 0, 0, 0, 0, 0, 0, 0, 0, 0, 0, 0, 0, 0, 0, 0, 0, 0]

  /** A 20-byte script or public-key hash: an identity of the namespace. */
  type Hash160 = b: Bytes | |b| == 20 witness ZERO_20

  /** A 32-byte digest or commitment. */
  type Hash256 = b: Bytes | |b| == 32 witness ZERO_20 + ZERO_20[..12]

  function Zeros(n: nat): (z: Bytes)
    ensures |z| == n && forall i :: 0 <= i < n ==> z[i] == 0
  {
    seq<byte>(n, i => 0)
  }

  datatype Option<+T> = None | Some(value: T)

  function Min(a: int, b: int): int {
    if a < b then a else b
  }

  /** The bit weights of one byte. */
  function Bit(k: nat): (w: int)
    requires k < 8
    ensures 1 <= w <= 128
  {
    if k == 0 then 1 else if k == 1 then 2 else if k == 2 then 4 else if k == 3 then 8
    else if k == 4 then 16 else if k == 5 then 32 else if k == 6 then 64 else 128
  }
}
