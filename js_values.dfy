/** The JavaScript number values an adoption fee can take, and the two
    tests `addAnimal` applies to them. */
module JsValues {

  /** An IEEE double as far as `isNaN` and `< 0` can tell: NaN, a finite
      value (negative zero is the real 0.0), or one of the two infinities. */
  datatype Number = NaN | Finite(value: real) | Infinity | NegativeInfinity

  /** The global `isNaN` applied to a number. */
  predicate IsNaN(n: Number) {
    n.NaN?
  }

  /** The JavaScript comparison `n < 0`; every comparison with NaN is false. */
  predicate LessThanZero(n: Number) {
    match n
    case NaN => false
    case Finite(v) => v < 0.0
    case Infinity => false
    case NegativeInfinity => true
  }
}
