/** Fixed-width unsigned integers of the simulator, as subsets of the unbounded integers.
    Arithmetic that could leave a range is written out where the model performs it. */
module Ints {
  const U16_LIMIT: int := 0x1_0000
  const U64_LIMIT: int := 0x1_0000_0000_0000_0000
  const U128_LIMIT: int := 0x1_0000_0000_0000_0000_0000_0000_0000_0000

  type U16 = x: int | 0 <= x < U16_LIMIT
  type U64 = x: int | 0 <= x < U64_LIMIT
  type U128 = x: int | 0 <= x < U128_LIMIT
}
