/** C's integer arithmetic as the sources use it: division and remainder truncate toward
    zero, and an `int` (or the ESP32's `long`) holds 32 signed bits. */
module CArithmetic {

  /** A 32-bit signed integer. Arithmetic on this type must stay in range, so a method that
      verifies never reaches the undefined overflow of C's signed integers. */
  newtype int32 = x: int | -0x8000_0000 <= x < 0x8000_0000

  function Abs(a: int): (r: nat)
    ensures r == a || r == -a
  {
    if a < 0 then -a else a
  }

  /** C's `a / b`: the quotient rounded toward zero. */
  function CDiv(a: int, b: int): int
    requires b != 0
  {
    if a >= 0 then a / b else -((-a) / b)
  }

  /** C's `a % b`: what the truncated quotient leaves, so it has the sign of `a`. */
  function CRem(a: int, b: int): (r: int)
    requires b != 0
    ensures Abs(r) < Abs(b)
    ensures a >= 0 ==> r >= 0
    ensures a <= 0 ==> r <= 0
  {
    a - CDiv(a, b) * b
  }

  function Rem32(a: int32, b: int32): (r: int32)
    requires b > 0
    ensures r as int == CRem(a as int, b as int)
  {
    CRem(a as int, b as int) as int32
  }
}
