/** Java's 32-bit `int`, the type of cart quantities and product stock. */
module JavaInt {

  const MIN_VALUE: int := -0x8000_0000
  const MAX_VALUE: int := 0x7fff_ffff

  type Int32 = x: int | -0x8000_0000 <= x <= 0x7fff_ffff

  /** Java's `a + b` on two `int`s: the exact sum reduced into the 32-bit
      range by two's-complement wrap-around. */
  function Add(a: Int32, b: Int32): (r: Int32)
    ensures MIN_VALUE <= a + b <= MAX_VALUE ==> r == a + b
    ensures MAX_VALUE < a + b ==> r == a + b - 0x1_0000_0000
    ensures a + b < MIN_VALUE ==> r == a + b + 0x1_0000_0000
  {
    (a + b + 0x8000_0000) % 0x1_0000_0000 - 0x8000_0000
  }
}
