/** Go's `uint64` and its wrap-around subtraction. */
module UInt64 {

  const TwoTo64: int := 0x1_0000_0000_0000_0000

  type uint64 = x: int | 0 <= x < TwoTo64

  /** `a - b` on two Go `uint64` values: the difference taken modulo 2^64, so
      a counter that went backwards yields a large positive delta. */
  function Sub(a: uint64, b: uint64): (d: uint64)
    ensures b <= a ==> d == a - b
    ensures a < b ==> d == a - b + TwoTo64
    ensures d == 0 <==> a == b
  {
    (a - b) % TwoTo64
  }
}
