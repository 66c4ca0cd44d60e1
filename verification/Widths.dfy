/** The integer widths the C code depends on. */
module Widths {
  const TWO_TO_31: int := 0x8000_0000
  const TWO_TO_53: int := 0x20_0000_0000_0000
  const TWO_TO_63: int := 0x8000_0000_0000_0000
  const TWO_TO_64: int := 0x1_0000_0000_0000_0000

  type Uint64 = x: int | 0 <= x < TWO_TO_64
}
