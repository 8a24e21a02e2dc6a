/** Go's fixed-width integer types and the wrap-around of their arithmetic. */
module BoundedInt {

  const TWO_63: int := 0x8000_0000_0000_0000
  const TWO_64: int := 0x1_0000_0000_0000_0000

  /** Go's `byte` (uint8). */
  type byte = x: int | 0 <= x < 0x100

  /** Go's `uint64`. */
  type uint64 = x: int | 0 <= x < 0x1_0000_0000_0000_0000

  /** Go's `int64`. */
  type int64 = x: int | -0x8000_0000_0000_0000 <= x < 0x8000_0000_0000_0000

  predicate InInt64(x: int) { -TWO_63 <= x < TWO_63 }

  /** `a + b` on uint64: modulo 2^64. */
  function Add64(a: uint64, b: uint64): uint64 { (a + b) % TWO_64 }

  /** `a - b` on uint64: modulo 2^64. */
  function Sub64(a: uint64, b: uint64): uint64 { (a - b) % TWO_64 }

  /** The int64 that has the same low 64 bits as `x` (two's complement truncation). */
  function WrapInt64(x: int): (r: int64)
    ensures (x - r) % TWO_64 == 0
    ensures InInt64(x) ==> r == x
  {
    var m := x % TWO_64;
    if m < TWO_63 then m else m - TWO_64
  }

  function Pow2(k: nat): (p: nat)
    ensures p >= 1
  {
    if k == 0 then 1 else 2 * Pow2(k - 1)
  }

  /** Go's `x << k` on int64: the product with 2^k, truncated to 64 bits. */
  function ShiftLeft64(x: int64, k: nat): int64 { WrapInt64(x * Pow2(k)) }

  /** `make([]byte, n)`: n zero bytes. */
  function Zeros(n: nat): (z: seq<byte>)
    ensures |z| == n && forall i :: 0 <= i < n ==> z[i] == 0
  {
    seq(n, _ => 0)
  }
}
