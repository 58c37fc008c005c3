/**
 * The values that float64 division can produce from two finite operands.
 * The model's arithmetic is exact (real); only the special results of a
 * division by zero (inf, -inf, NaN) are kept, because pandas returns them
 * where a growth rate or a share divides by a zero total.
 */
module Floats {

  datatype Float = Finite(value: real) | PosInf | NegInf | NaN

  /** a / b under IEEE rules: x/0 is +inf or -inf by the sign of x, 0/0 is NaN. */
  function Divide(a: real, b: real): Float {
    if b != 0.0 then Finite(a / b)
    else if a > 0.0 then PosInf
    else if a < 0.0 then NegInf
    else NaN
  }

  /** x - c for a finite constant c: infinities and NaN are absorbing. */
  function Minus(x: Float, c: real): Float {
    match x
    case Finite(v) => Finite(v - c)
    case _ => x
  }

  /** x * c for a positive constant c: infinities keep their sign, NaN stays NaN. */
  function Times(x: Float, c: real): Float
    requires c > 0.0
  {
    match x
    case Finite(v) => Finite(v * c)
    case _ => x
  }
}
