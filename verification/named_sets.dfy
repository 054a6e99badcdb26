/**
 * The named number sets: the naturals, the integers and the reals, a chain
 * N ⊂ Z ⊂ R. Every pair of distinct named sets has its own `&&` and `||`
 * overload; a named set combined with itself goes to the generic same-type
 * operators, which return the left operand. The generic `==` is true exactly
 * for two values of the same type.
 */
module NamedSets {
  datatype Named = Naturals | Integers | Reals

  /** The real number `x` is a whole number. */
  predicate IsWhole(x: real) {
    x.Floor as real == x
  }

  /** The points of a named set. */
  predicate InNamed(n: Named, x: real) {
    match n
    case Naturals => IsWhole(x) && x >= 0.0
    case Integers => IsWhole(x)
    case Reals => true
  }

  /** Position in the chain N ⊂ Z ⊂ R. */
  function Rank(n: Named): nat {
    match n
    case Naturals => 0
    case Integers => 1
    case Reals => 2
  }

  /** `l && r`, overload by overload. */
  function And(l: Named, r: Named): (m: Named)
    ensures forall x :: InNamed(m, x) <==> InNamed(l, x) && InNamed(r, x)
  {
    match (l, r)
    case (Integers, Naturals) => r
    case (Integers, Reals) => l
    case (Naturals, Integers) => l
    case (Naturals, Reals) => l
    case (Reals, Naturals) => r
    case (Reals, Integers) => r
    case _ => l
  }

  /** `l || r`, overload by overload. */
  function Or(l: Named, r: Named): (m: Named)
    ensures forall x :: InNamed(m, x) <==> InNamed(l, x) || InNamed(r, x)
  {
    match (l, r)
    case (Integers, Naturals) => l
    case (Integers, Reals) => r
    case (Naturals, Integers) => r
    case (Naturals, Reals) => r
    case (Reals, Naturals) => l
    case (Reals, Integers) => l
    case _ => l
  }

  /** The generic `==`: true for two values of the same set type. */
  function Equal(l: Named, r: Named): (eq: bool)
    ensures eq <==> forall x :: InNamed(l, x) <==> InNamed(r, x)
  {
    if l != r then
      Distinguish(l, r);
      false
    else
      true
  }

  /** Two different named sets differ at some point. */
  lemma Distinguish(a: Named, b: Named)
    requires a != b
    ensures exists x :: InNamed(a, x) != InNamed(b, x)
  {
    if Rank(a) + Rank(b) == 1 {
      assert InNamed(a, -1.0) != InNamed(b, -1.0);
    } else {
      assert InNamed(a, 0.5) != InNamed(b, 0.5);
    }
  }

  /** A named set is determined by its points. */
  lemma PointsDetermine(a: Named, b: Named)
    requires forall x :: InNamed(a, x) <==> InNamed(b, x)
    ensures a == b
  {
    if a != b {
      Distinguish(a, b);
    }
  }

  /** `&&` picks the lower and `||` the higher set of the chain. */
  lemma ChainAgreement(l: Named, r: Named)
    ensures And(l, r) == (if Rank(l) <= Rank(r) then l else r)
    ensures Or(l, r) == (if Rank(l) <= Rank(r) then r else l)
  {
    var lo := if Rank(l) <= Rank(r) then l else r;
    var hi := if Rank(l) <= Rank(r) then r else l;
    assert forall x :: InNamed(l, x) && InNamed(r, x) <==> InNamed(lo, x);
    assert forall x :: InNamed(l, x) || InNamed(r, x) <==> InNamed(hi, x);
    PointsDetermine(And(l, r), lo);
    PointsDetermine(Or(l, r), hi);
  }
}
