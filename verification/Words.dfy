/** Machine words as ranges of integers. */
module Words {

  const B32: int := 0x1_0000_0000
  const B63: int := 0x8000_0000_0000_0000
  const B64: int := 0x1_0000_0000_0000_0000
  const INT64_MAX: int := B63 - 1
  const INT64_MIN: int := -B63

  type UInt32 = x: int | 0 <= x < B32
  type UInt64 = x: int | 0 <= x < B64
  type Int64 = x: int | INT64_MIN <= x <= INT64_MAX
}
