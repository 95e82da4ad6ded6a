/**
 * Fixed-width C integer types used by host_disk_info.c, modelled over Dafny's
 * unbounded integers, and the one conversion the code relies on: turning an
 * integer value into a uint64_t, which reduces it modulo 2^64.
 */
module Words {

  const UINT64_MODULUS: int := 0x1_0000_0000_0000_0000
  const INT64_MIN: int := -0x8000_0000_0000_0000
  const INT64_MAX: int := 0x7FFF_FFFF_FFFF_FFFF
  const INT32_MIN: int := -0x8000_0000
  const INT32_MAX: int := 0x7FFF_FFFF

  /** uint64_t / UINT64_T */
  type uint64 = x: int | 0 <= x < UINT64_MODULUS

  /** int64_t */
  type int64 = x: int | INT64_MIN <= x <= INT64_MAX

  /** int, as returned by the statistics calls and by the probe */
  type int32 = x: int | INT32_MIN <= x <= INT32_MAX

  /**
   * The value a C conversion (or an unsigned operation) to uint64_t produces:
   * a value already in range is kept, anything else wraps around by a
   * multiple of 2^64.
   */
  function ToUint64(x: int): (r: uint64)
    ensures 0 <= x < UINT64_MODULUS ==> r == x
    ensures -UINT64_MODULUS <= x < 0 ==> r == x + UINT64_MODULUS
    ensures (x - r) % UINT64_MODULUS == 0
  {
    x % UINT64_MODULUS
  }
}
