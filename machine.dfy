/** Machine-level value types of the native and Rust code: bytes, and the
    widths at which integers are truncated. */
module Machine {

  /** One byte of a Node.js `Buffer` (`uint8_t` / `char` in the C++ code). */
  type byte = bv8

  const U32_MODULUS: nat := 0x1_0000_0000

  /** Largest `usize` on a 64-bit target. */
  const USIZE_MAX: nat := 0xFFFF_FFFF_FFFF_FFFF

  newtype u32 = x: int | 0 <= x < 0x1_0000_0000

  newtype u64 = x: int | 0 <= x < 0x1_0000_0000_0000_0000

  /** `std::min` on lengths. */
  function Min(a: nat, b: nat): (m: nat)
    ensures m <= a && m <= b
    ensures m == a || m == b
  {
    if a < b then a else b
  }

  /** The value `n as u32` takes in Rust: the low 32 bits. */
  function AsU32(n: nat): (r: nat)
    ensures r < U32_MODULUS
    ensures n < U32_MODULUS ==> r == n
  {
    n % U32_MODULUS
  }
}
