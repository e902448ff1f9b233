/** Fixed-width integers of the source, as subset types of the unbounded integers, and writes to
    a stretch of memory. A `char` is kept as its unsigned byte; where the source depends on its
    sign (widening to u16) the model says so explicitly. */
module Bytes {

  datatype Option<T> = None | Some(value: T)

  type byte = x: int | 0 <= x < 0x100

  type word = x: int | 0 <= x < 0x1_0000

  type u32 = x: int | 0 <= x < 0x1_0000_0000

  type u64 = x: int | 0 <= x < TWO_64

  type int32 = x: int | -0x8000_0000 <= x < 0x8000_0000

  const TWO_64: nat := 0x1_0000_0000_0000_0000

  const INT_MIN: int32 := -0x8000_0000

  /** The two's-complement 32-bit integer congruent to x. */
  function Wrap32(x: int): (r: int32)
    ensures -0x8000_0000 <= x < 0x8000_0000 ==> r == x
    ensures (x - r) % 0x1_0000_0000 == 0
  {
    (x + 0x8000_0000) % 0x1_0000_0000 - 0x8000_0000
  }

  /** Memory with s written at p. */
  function Patch<T>(m: seq<T>, p: nat, s: seq<T>): (r: seq<T>)
    requires p + |s| <= |m|
    ensures |r| == |m|
  {
    m[..p] + s + m[p + |s|..]
  }
}
