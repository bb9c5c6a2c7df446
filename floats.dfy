/** IEEE-754 doubles seen as extended reals.  Finite values are exact reals
    (rounding is not modelled); NaN compares false with everything, as numpy
    and pandas comparisons do. */
module Floats {

  datatype Float = Fin(v: real) | PosInf | NegInf | NaN

  /** The absolute value and the minimum of exact numbers, shared by the
      scripts' formulas. */
  function AbsReal(x: real): real { if x < 0.0 then -x else x }

  function Min(a: int, b: int): int { if a < b then a else b }

  /** `x < y` as an IEEE comparison. */
  predicate Lt(x: Float, y: Float)
  {
    if x.NaN? || y.NaN? then false
    else if x.Fin? && y.Fin? then x.v < y.v
    else (x.NegInf? && !y.NegInf?) || (!x.PosInf? && y.PosInf?)
  }

  /** `x <= y` as an IEEE comparison. */
  predicate Le(x: Float, y: Float)
  {
    Lt(x, y) || (x == y && !x.NaN?)
  }

  /** `x == y` as an IEEE comparison: NaN is not equal to itself. */
  predicate Equal(x: Float, y: Float)
  {
    x == y && !x.NaN?
  }

  function Neg(x: Float): Float
  {
    match x
    case Fin(a) => Fin(-a)
    case PosInf => NegInf
    case NegInf => PosInf
    case NaN => NaN
  }

  /** numpy's `abs`. */
  function Abs(x: Float): (r: Float)
    ensures x.NaN? <==> r.NaN?
    ensures !r.NaN? ==> Le(Fin(0.0), r)
    ensures x.Fin? ==> r == Fin(if x.v < 0.0 then -x.v else x.v)
  {
    match x
    case Fin(a) => Fin(if a < 0.0 then -a else a)
    case PosInf => PosInf
    case NegInf => PosInf
    case NaN => NaN
  }

  /** IEEE division `x / y`; a zero divisor is taken to be +0 (a real has no
      signed zero). */
  function Div(x: Float, y: Float): (r: Float)
    ensures x.Fin? && y.Fin? && y.v != 0.0 ==> r == Fin(x.v / y.v)
    ensures x.NaN? || y.NaN? ==> r.NaN?
  {
    if x.NaN? || y.NaN? then NaN
    else if x.Fin? && y.Fin? then
      if y.v != 0.0 then Fin(x.v / y.v)
      else if x.v > 0.0 then PosInf
      else if x.v < 0.0 then NegInf
      else NaN
    else if x.Fin? then Fin(0.0)
    else if y.Fin? then (if y.v >= 0.0 then x else Neg(x))
    else NaN
  }

  /** Lt is a strict order on the non-NaN values. */
  lemma LtTransitive(x: Float, y: Float, z: Float)
    requires Lt(x, y) && Lt(y, z)
    ensures Lt(x, z)
  {
  }

  lemma LtTotal(x: Float, y: Float)
    requires !x.NaN? && !y.NaN?
    ensures Lt(x, y) || x == y || Lt(y, x)
  {
  }
}
