/** Python floats, as far as the controller tells them apart.

    A finite float is modelled by the real it denotes (rounding and overflow
    are not modelled); the three IEEE-754 special values are explicit cases,
    so that the filters and comparisons of the controller can be stated on
    them without reasoning about bit patterns. */
module Floats {

  datatype Float = Finite(r: real) | NaN | PosInf | NegInf

  /** `a + b` with IEEE-754's rules for the special values:
      NaN absorbs everything, +inf + -inf is NaN, an infinity absorbs a
      finite operand. */
  function Add(a: Float, b: Float): Float
  {
    match (a, b)
    case (NaN, _) => NaN
    case (_, NaN) => NaN
    case (PosInf, NegInf) => NaN
    case (NegInf, PosInf) => NaN
    case (PosInf, _) => PosInf
    case (_, PosInf) => PosInf
    case (NegInf, _) => NegInf
    case (_, NegInf) => NegInf
    case (Finite(x), Finite(y)) => Finite(x + y)
  }

  /** `a / n` for a positive element count `n`: the sign of an infinity is
      kept and NaN stays NaN. */
  function DivideByCount(a: Float, n: nat): Float
    requires n > 0
  {
    match a
    case Finite(x) => Finite(x / n as real)
    case _ => a
  }

  /** Python's `x == 0.0` (NaN and the infinities compare unequal). */
  predicate IsZero(x: Float)
  {
    x == Finite(0.0)
  }

  /** Python's `x > 0` (true of +inf, false of NaN and -inf). */
  predicate IsPositive(x: Float)
  {
    x.PosInf? || (x.Finite? && x.r > 0.0)
  }
}
