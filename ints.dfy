/** Fixed-width unsigned integers of the C++ source. */
module Ints {
  const U32_LIMIT: nat := 0x1_0000_0000
  /** The largest `std::uint32_t`. */
  const U32_MAX: nat := 0xFFFF_FFFF

  /** `std::uint32_t`, the integer type every example domain uses. */
  type u32 = x: nat | x < U32_LIMIT
}
