/**
 * Boundary values of intervals: the extended real line together with the
 * IEEE NaN value. A C++ `float` or `double` bound is modelled by a real
 * (the interval code only ever compares bounds, it never computes with them);
 * the two infinities and NaN are separate constructors.
 *
 * Every comparison that involves NaN is false, as for the unordered
 * comparisons of IEEE 754-2008, section 5.11.
 */
module Bounds {

  datatype Bound = NegInf | Fin(v: real) | PosInf | NaN

  /** A bound that is an ordinary point of the extended real line. */
  predicate IsPoint(x: Bound) { !x.NaN? }

  /** `a < b`; false when either side is NaN. */
  predicate Lt(a: Bound, b: Bound) {
    match (a, b)
    case (NegInf, Fin(_)) => true
    case (NegInf, PosInf) => true
    case (Fin(x), Fin(y)) => x < y
    case (Fin(_), PosInf) => true
    case _ => false
  }

  /** `a == b`; NaN is equal to nothing, not even to itself. */
  predicate Eq(a: Bound, b: Bound) { a == b && IsPoint(a) }

  /** `a <= b`; false when either side is NaN. */
  predicate Le(a: Bound, b: Bound) { Lt(a, b) || Eq(a, b) }

  /** `std::max(a, b)`, which is `a < b ? b : a`. */
  function Max(a: Bound, b: Bound): (m: Bound)
    ensures m == a || m == b
    ensures IsPoint(a) && IsPoint(b) ==> Le(a, m) && Le(b, m)
  {
    if Lt(a, b) then b else a
  }

  /** `std::min(a, b)`, which is `b < a ? b : a`. */
  function Min(a: Bound, b: Bound): (m: Bound)
    ensures m == a || m == b
    ensures IsPoint(a) && IsPoint(b) ==> Le(m, a) && Le(m, b)
  {
    if Lt(b, a) then b else a
  }

  /** A point strictly between two ordered bounds (the reals are dense). */
  function Between(a: Bound, b: Bound): (m: Bound)
    requires Lt(a, b)
    ensures Lt(a, m) && Lt(m, b)
  {
    match (a, b)
    case (Fin(x), Fin(y)) => Fin((x + y) / 2.0)
    case (NegInf, Fin(y)) => Fin(y - 1.0)
    case (Fin(x), PosInf) => Fin(x + 1.0)
    case (NegInf, PosInf) => Fin(0.0)
  }

  /** On points, exactly one of `a < b`, `a == b`, `b < a` holds. */
  lemma Trichotomy(a: Bound, b: Bound)
    requires IsPoint(a) && IsPoint(b)
    ensures Lt(a, b) || Eq(a, b) || Lt(b, a)
    ensures !(Lt(a, b) && Lt(b, a)) && !(Lt(a, b) && Eq(a, b)) && !(Lt(b, a) && Eq(a, b))
  {
  }

  lemma LtTrans(a: Bound, b: Bound, c: Bound)
    requires Lt(a, b) && Lt(b, c)
    ensures Lt(a, c)
  {
  }

  /** Comparisons with NaN on either side are all false. */
  lemma NaNUnordered(a: Bound)
    ensures !Lt(a, NaN) && !Lt(NaN, a) && !Eq(a, NaN) && !Eq(NaN, a)
  {
  }
}
