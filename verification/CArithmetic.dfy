/** Bytes, and the division of signed integers in C and C++. */
module CArithmetic {

  type Byte = b: int | 0 <= b < 256

  /** C's quotient, rounded towards zero, and its remainder. */
  function Quot(a: int, b: int): int
    requires b > 0
  {
    if a >= 0 then a / b else -(-a / b)
  }

  function Rem(a: int, b: int): int
    requires b > 0
  {
    a - b * Quot(a, b)
  }

  lemma RoundsDown(a: int, b: int)
    requires a >= 0 && b > 0
    ensures Quot(a, b) == a / b && Rem(a, b) == a % b
  {
  }

  lemma RoundsUp(a: int, b: int)
    requires a >= 0 && b > 0
    ensures Quot(-a, b) == -(a / b) && Rem(-a, b) == -(a % b)
  {
    assert b * -(a / b) == -(b * (a / b));
  }
}
