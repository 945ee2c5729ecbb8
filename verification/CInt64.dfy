/** The C operators the sources apply to 64-bit signed integers.  Every operator
    demands that its mathematical result fits, so a method that uses only these
    operators is proved free of overflow. */
module CInt64 {

  const TWO_TO_THE_63: int := 0x8000_0000_0000_0000

  predicate Fits64(x: int) { -TWO_TO_THE_63 <= x < TWO_TO_THE_63 }

  function Add64(a: int, b: int): int
    requires Fits64(a) && Fits64(b) && Fits64(a + b)
  { a + b }

  function Sub64(a: int, b: int): int
    requires Fits64(a) && Fits64(b) && Fits64(a - b)
  { a - b }

  function Mul64(a: int, b: int): int
    requires Fits64(a) && Fits64(b) && Fits64(a * b)
  { a * b }

  /** Division truncates toward zero, for the positive divisors used here. */
  function Div64(a: int, b: int): int
    requires Fits64(a) && Fits64(b) && b > 0
  { if a >= 0 then a / b else -((-a) / b) }

  /** The remainder carries the sign of the dividend. */
  function Rem64(a: int, b: int): (r: int)
    requires Fits64(a) && Fits64(b) && b > 0
    ensures -b < r < b && Fits64(r)
    ensures (a >= 0 ==> r >= 0) && (a <= 0 ==> r <= 0)
  { if a >= 0 then a % b else -((-a) % b) }
}
