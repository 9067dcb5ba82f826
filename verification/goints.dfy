/** Go's fixed-width integers over Dafny's unbounded ones: the int64 range,
    and the two conversions that wrap around modulo 2^64. */
module GoInts {

  const TwoTo63: nat := 0x8000_0000_0000_0000
  const TwoTo64: nat := 0x1_0000_0000_0000_0000
  const MaxUint64: nat := 0xFFFF_FFFF_FFFF_FFFF

  predicate IsInt64(n: int)
  {
    -(TwoTo63 as int) <= n < TwoTo63
  }

  /** int64 arithmetic wraps around modulo 2^64. */
  function WrapInt64(x: int): (r: int)
    ensures IsInt64(r) && (r - x) % TwoTo64 == 0
    ensures IsInt64(x) ==> r == x
  {
    (x + TwoTo63) % TwoTo64 - TwoTo63
  }

  /** uint64(x) of an int64: negative values wrap to the top of the range. */
  function Uint64Of(x: int): (r: nat)
    requires IsInt64(x)
    ensures r < TwoTo64 && (r - x) % TwoTo64 == 0
    ensures x >= 0 ==> r == x
    ensures x < 0 ==> r == x + TwoTo64
  {
    if x < 0 then x + TwoTo64 else x
  }
}
