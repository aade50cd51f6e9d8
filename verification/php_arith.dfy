/**
 The integer arithmetic of PHP that the calendar code relies on, written out
 explicitly because Dafny's `/` and `%` are Euclidean.

 - `floor($a / $b)` on integers is floor division (`FloorDiv`).
 - `$a % $b` converts both operands to integers and yields a remainder that
   carries the sign of the dividend (`TruncRem`), the quotient being truncated
   toward zero (`TruncDiv`).
 - Converting a float to an integer (what `%=` does to a float operand)
   truncates toward zero; on a value held in half units that is `TruncDiv(h, 2)`.

 All divisors in the calendar code are positive literals, hence `requires b > 0`.
 */
module PhpArith {

  /** `floor(a / b)`: the greatest q with q * b <= a. */
  function FloorDiv(a: int, b: int): (q: int)
    requires b > 0
    ensures q * b <= a < q * b + b
  {
    a / b
  }

  /** Integer quotient truncated toward zero. */
  function TruncDiv(a: int, b: int): (q: int)
    requires b > 0
    ensures a >= 0 ==> q * b <= a < q * b + b
    ensures a < 0 ==> q * b - b < a <= q * b
    ensures a >= 0 ==> q >= 0
    ensures a <= 0 ==> q <= 0
  {
    if a >= 0 then a / b else -((-a) / b)
  }

  /** PHP's `a % b`: the remainder of the truncated quotient, with the sign of `a`. */
  function TruncRem(a: int, b: int): (r: int)
    requires b > 0
    ensures a == TruncDiv(a, b) * b + r
    ensures a >= 0 ==> 0 <= r < b && r == a % b
    ensures a < 0 ==> -b < r <= 0
  {
    if a >= 0 then a % b else -((-a) % b)
  }
}
