/**
 * The fixed-width integer types of the tracker's fields and the one narrowing
 * conversion the tracker's constructor performs.
 */
module MachineInts {

  const TWO_TO_THE_63: int := 0x8000_0000_0000_0000
  const TWO_TO_THE_64: int := 0x1_0000_0000_0000_0000

  newtype int32 = x: int | -0x8000_0000 <= x < 0x8000_0000
  newtype int64 = x: int | -0x8000_0000_0000_0000 <= x < 0x8000_0000_0000_0000
  newtype uint64 = x: int | 0 <= x < 0x1_0000_0000_0000_0000

  /**
   * Initialising an `int64` from a `uint64`: the bit pattern is kept, so the
   * value is the unique `int64` congruent to `x` modulo 2^64.
   */
  function ToInt64(x: uint64): (r: int64)
    ensures (x as int - r as int) % TWO_TO_THE_64 == 0
    ensures r >= 0 <==> x as int < TWO_TO_THE_63
  {
    if x as int < TWO_TO_THE_63 then x as int as int64
    else (x as int - TWO_TO_THE_64) as int64
  }

  /** Values below 2^63 survive the narrowing unchanged; larger ones come out negative. */
  lemma ToInt64Exact(x: uint64)
    ensures x as int < TWO_TO_THE_63 <==> ToInt64(x) as int == x as int
  {
  }
}
