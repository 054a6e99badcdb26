/**
 * A single interval of the extended real line with an open or closed bracket
 * on each side, including the constructor's normalisation to the canonical
 * empty interval `(0,0)` and to the NaN interval `(NaN,NaN]`.
 */
module Intervals {
  import opened Bounds

  /** `lc`/`rc` say whether the left/right bracket is closed (`[`, `]`). */
  datatype Interval = Interval(lc: bool, lo: Bound, hi: Bound, rc: bool)

  /** The canonical empty interval `(0,0)`, which is also the default interval. */
  const Empty: Interval := Interval(false, Fin(0.0), Fin(0.0), false)

  /** The interval every invalid construction collapses to: `(NaN,NaN]`. */
  const NaNInterval: Interval := Interval(false, NaN, NaN, true)

  predicate IsLeftBracket(c: char) { c == '(' || c == '[' }
  predicate IsRightBracket(c: char) { c == ')' || c == ']' }

  function LeftChar(closed: bool): (c: char)
    ensures IsLeftBracket(c) && (c == '[' <==> closed)
  {
    if closed then '[' else '('
  }

  function RightChar(closed: bool): (c: char)
    ensures IsRightBracket(c) && (c == ']' <==> closed)
  {
    if closed then ']' else ')'
  }

  /** The emptiness test; it does not assume canonical form and is false on NaN. */
  predicate IsEmpty(I: Interval) {
    (Eq(I.lo, I.hi) && !(I.lc && I.rc)) || Lt(I.hi, I.lo)
  }

  predicate IsNaN(I: Interval) { I.lo.NaN? }

  /** `x` lies at or after the start `(lo, lc)` of an interval. */
  predicate AfterStart(x: Bound, lo: Bound, lc: bool) {
    Lt(lo, x) || (Eq(x, lo) && lc)
  }

  /** `x` lies at or before the end `(hi, rc)` of an interval. */
  predicate BeforeEnd(x: Bound, hi: Bound, rc: bool) {
    Lt(x, hi) || (Eq(x, hi) && rc)
  }

  /** Point membership, `I(x)`. */
  predicate Contains(I: Interval, x: Bound) {
    (Lt(I.lo, x) && Lt(x, I.hi)) || (Eq(x, I.lo) && I.lc) || (Eq(x, I.hi) && I.rc)
  }

  /** A non-NaN, non-empty interval: what a canonical union is made of. */
  predicate Proper(I: Interval) {
    IsPoint(I.lo) && IsPoint(I.hi) && !IsEmpty(I)
  }

  /** The three shapes the constructor can produce. */
  predicate WellFormed(I: Interval) {
    I == NaNInterval || I == Empty || Proper(I)
  }

  /** The constructor arguments that make an interval NaN. */
  predicate Invalid(left: char, lo: Bound, hi: Bound, right: char) {
    !IsLeftBracket(left) || !IsRightBracket(right) || lo.NaN? || hi.NaN?
  }

  /**
   * The four-argument constructor: invalid brackets or a NaN bound give the
   * NaN interval, an empty interval is replaced by `(0,0)`, and otherwise the
   * interval is kept as written. The normalisation never changes which points
   * the interval contains.
   */
  function Make(left: char, lo: Bound, hi: Bound, right: char): (r: Interval)
    ensures WellFormed(r)
    ensures IsNaN(r) <==> Invalid(left, lo, hi, right)
    ensures !Invalid(left, lo, hi, right) ==>
      forall x :: Contains(r, x) <==> AfterStart(x, lo, left == '[') && BeforeEnd(x, hi, right == ']')
    ensures !Invalid(left, lo, hi, right) && Proper(r) ==>
      r.lo == lo && r.hi == hi && r.lc == (left == '[') && r.rc == (right == ']')
  {
    if Invalid(left, lo, hi, right) then
      NaNInterval
    else
      var raw := Interval(left == '[', lo, hi, right == ']');
      if IsEmpty(raw) then Empty else raw
  }

  /** The constructor called with bracket flags rather than bracket characters. */
  function MakeB(lc: bool, lo: Bound, hi: Bound, rc: bool): (r: Interval)
    requires IsPoint(lo) && IsPoint(hi)
    ensures WellFormed(r) && !IsNaN(r)
    ensures forall x :: Contains(r, x) <==> AfterStart(x, lo, lc) && BeforeEnd(x, hi, rc)
    ensures Proper(r) <==> Proper(Interval(lc, lo, hi, rc))
    ensures Proper(r) ==> r == Interval(lc, lo, hi, rc)
  {
    Make(LeftChar(lc), lo, hi, RightChar(rc))
  }

  /** For a proper interval, membership splits into a start and an end test. */
  lemma ContainsSplit(I: Interval, x: Bound)
    requires Proper(I)
    ensures Contains(I, x) <==> AfterStart(x, I.lo, I.lc) && BeforeEnd(x, I.hi, I.rc)
  {
  }

  /** A point of a proper interval, showing that proper intervals are inhabited. */
  function Witness(I: Interval): (w: Bound)
    requires Proper(I)
    ensures Contains(I, w) && IsPoint(w)
  {
    if I.lc then I.lo else if I.rc then I.hi else Between(I.lo, I.hi)
  }

  /** An interval a constructor built contains no point when `isempty` or `isnan` holds; a NaN bound is never contained. */
  lemma NothingInEmpty(I: Interval, x: Bound)
    requires WellFormed(I) && (IsEmpty(I) || IsNaN(I) || x.NaN?)
    ensures !Contains(I, x)
  {
  }

  /** `I == J`: brackets equal and bounds equal under the IEEE comparison. */
  predicate Equal(I: Interval, J: Interval) {
    I.lc == J.lc && Eq(I.lo, J.lo) && Eq(I.hi, J.hi) && I.rc == J.rc
  }

  /** `I != J`: false whenever either side is NaN, the negation of `==` otherwise. */
  predicate NotEqual(I: Interval, J: Interval) {
    if IsNaN(I) || IsNaN(J) then false else !Equal(I, J)
  }

  /**
   * On well-formed intervals `==` is structural equality unless NaN is
   * involved, where both `==` and `!=` are false.
   */
  lemma EqualityMeaning(I: Interval, J: Interval)
    requires WellFormed(I) && WellFormed(J)
    ensures IsNaN(I) || IsNaN(J) ==> !Equal(I, J) && !NotEqual(I, J)
    ensures !IsNaN(I) && !IsNaN(J) ==> (Equal(I, J) <==> I == J) && (NotEqual(I, J) <==> I != J)
  {
  }
}
