// What several parts of the model share: optional values and unsigned 64-bit
// subtraction.

module Prelude {
  datatype Option<+T> = None | Some(value: T)

  type U64 = x: int | 0 <= x < 0x1_0000_0000_0000_0000

  // a - b in unsigned 64-bit arithmetic
  function Minus(a: U64, b: U64): (r: U64)
    ensures b <= a ==> r == a - b
    ensures a < b ==> r == a - b + 0x1_0000_0000_0000_0000
  {
    if a >= b then a - b else a + 0x1_0000_0000_0000_0000 - b
  }
}
