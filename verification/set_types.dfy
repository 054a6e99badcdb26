/**
 * The stateless set types that take part in dispatch — the empty set, the
 * null set, the named number sets and the universal set — and the concrete
 * `&&`, `||` and `==` that overload resolution picks for each pair of them.
 * A pair for which no overload applies, or two apply equally, has no
 * operator.
 */
module SetTypes {
  import NamedSets

  datatype SetType = EmptySet | NullSet | NamedSet(n: NamedSets.Named) | UniversalSet

  /** A point of the universe: a real number, or something that is not one. */
  datatype Point = RealPoint(x: real) | NonReal

  /** The points of a set. */
  predicate InSet(T: SetType, p: Point) {
    match T
    case EmptySet => false
    case NullSet => false
    case NamedSet(n) => p.RealPoint? && NamedSets.InNamed(n, p.x)
    case UniversalSet => true
  }

  /** The points of `A` are the points of `B`. */
  ghost predicate SamePoints(A: SetType, B: SetType) {
    forall p :: InSet(A, p) <==> InSet(B, p)
  }

  /** The outcome of overload resolution for a binary set operator. */
  datatype Resolution = NoOperator | Resolves(T: SetType)

  /** The outcome of overload resolution for `==`. */
  datatype Verdict = Ambiguous | Decided(b: bool)

  /** The empty set and the null set, whose operators against each other are ambiguous. */
  predicate EmptyAndNull(l: SetType, r: SetType) {
    (l == EmptySet && r == NullSet) || (l == NullSet && r == EmptySet)
  }

  datatype Count = Finite(n: nat) | Infinite

  /** `counting_measure`: zero for the empty and null sets, infinite for the named and universal sets. */
  function Counting(T: SetType): (c: Count)
    ensures c == Finite(0) <==> forall p :: !InSet(T, p)
  {
    match T
    case EmptySet => Finite(0)
    case NullSet => Finite(0)
    case NamedSet(n) =>
      assert InSet(T, RealPoint(0.0));
      Infinite
    case UniversalSet =>
      assert InSet(T, NonReal);
      Infinite
  }

  /**
   * Concrete `l && r`: the same type gives the left operand; the empty or
   * null set against anything but the universal set gives itself; two named
   * sets meet in the chain; everything else has no operator.
   */
  function And(l: SetType, r: SetType): (m: Resolution)
    ensures m.Resolves? ==> forall p :: InSet(m.T, p) <==> InSet(l, p) && InSet(r, p)
    ensures m.Resolves? ==> m.T == l || m.T == r
    ensures m.NoOperator? <==> l != r && (l == UniversalSet || r == UniversalSet || EmptyAndNull(l, r))
  {
    if l == r then Resolves(l)
    else if l == UniversalSet || r == UniversalSet || EmptyAndNull(l, r) then NoOperator
    else if l == EmptySet || l == NullSet then Resolves(l)
    else if r == EmptySet || r == NullSet then Resolves(r)
    else Resolves(NamedSet(NamedSets.And(l.n, r.n)))
  }

  /**
   * Concrete `l || r`: the same type gives the left operand; the empty or
   * null set against anything but the universal set gives the other operand;
   * two named sets join in the chain; everything else has no operator.
   */
  function Or(l: SetType, r: SetType): (m: Resolution)
    ensures m.Resolves? ==> forall p :: InSet(m.T, p) <==> InSet(l, p) || InSet(r, p)
    ensures m.Resolves? ==> m.T == l || m.T == r
    ensures m.NoOperator? <==> l != r && (l == UniversalSet || r == UniversalSet || EmptyAndNull(l, r))
  {
    if l == r then Resolves(l)
    else if l == UniversalSet || r == UniversalSet || EmptyAndNull(l, r) then NoOperator
    else if l == EmptySet || l == NullSet then Resolves(r)
    else if r == EmptySet || r == NullSet then Resolves(l)
    else Resolves(NamedSet(NamedSets.Or(l.n, r.n)))
  }

  /**
   * Concrete `l == r`: the empty (null) set equals another set exactly when
   * that set's counting measure is zero, except against the universal set,
   * where the generic different-type `==` answers false; otherwise the
   * generic `==` answers whether the types are the same.
   */
  function Equal(l: SetType, r: SetType): (v: Verdict)
    ensures v.Decided? ==> (v.b <==> SamePoints(l, r))
    ensures v.Ambiguous? <==> EmptyAndNull(l, r)
  {
    if l == r then Decided(true)
    else if EmptyAndNull(l, r) then Ambiguous
    else if (l == EmptySet || l == NullSet) && r != UniversalSet then
      Distinct(l, r);
      Decided(Counting(r) == Finite(0))
    else if (r == EmptySet || r == NullSet) && l != UniversalSet then
      Distinct(l, r);
      Decided(Counting(l) == Finite(0))
    else
      Distinct(l, r);
      Decided(false)
  }

  /** `l != r`, the negation of `==`. */
  function NotEqual(l: SetType, r: SetType): (v: Verdict)
    ensures v.Decided? ==> (v.b <==> !SamePoints(l, r))
    ensures v.Ambiguous? <==> EmptyAndNull(l, r)
  {
    match Equal(l, r)
    case Ambiguous => Ambiguous
    case Decided(b) => Decided(!b)
  }

  /** Different set types have different points, except the empty and the null set. */
  lemma Distinct(l: SetType, r: SetType)
    requires l != r && !EmptyAndNull(l, r)
    ensures !SamePoints(l, r)
  {
    if l.NamedSet? && r.NamedSet? {
      NamedSets.Distinguish(l.n, r.n);
      var x :| NamedSets.InNamed(l.n, x) != NamedSets.InNamed(r.n, x);
      assert InSet(l, RealPoint(x)) != InSet(r, RealPoint(x));
    } else if l == UniversalSet || r == UniversalSet {
      assert InSet(l, NonReal) != InSet(r, NonReal);
    } else {
      assert InSet(l, RealPoint(0.0)) != InSet(r, RealPoint(0.0));
    }
  }

  /** With the empty set on either side and anything but the universal set, `&&` gives the empty set and `||` the other operand. */
  lemma EmptyRules(T: SetType)
    requires T != UniversalSet && T != NullSet
    ensures And(EmptySet, T) == Resolves(EmptySet) && And(T, EmptySet) == Resolves(EmptySet)
    ensures Or(EmptySet, T) == Resolves(T) && Or(T, EmptySet) == Resolves(T)
    ensures Equal(EmptySet, T) == Equal(T, EmptySet) == Decided(Counting(T) == Finite(0))
  {
  }

  /** With the null set on either side and anything but the universal set, `&&` gives the null set and `||` the other operand. */
  lemma NullRules(T: SetType)
    requires T != UniversalSet && T != EmptySet
    ensures And(NullSet, T) == Resolves(NullSet) && And(T, NullSet) == Resolves(NullSet)
    ensures Or(NullSet, T) == Resolves(T) && Or(T, NullSet) == Resolves(T)
    ensures Equal(NullSet, T) == Equal(T, NullSet) == Decided(Counting(T) == Finite(0))
  {
  }

  /** Where both resolve, `&&` and `||` are commutative as point sets. */
  lemma Commutative(l: SetType, r: SetType)
    ensures And(l, r).Resolves? <==> And(r, l).Resolves?
    ensures And(l, r).Resolves? ==> SamePoints(And(l, r).T, And(r, l).T)
    ensures Or(l, r).Resolves? ==> SamePoints(Or(l, r).T, Or(r, l).T)
  {
  }

  /**
   * The chain N ⊂ Z ⊂ R of the number sets, as their overloads return it:
   * `&&` gives the lower set and `||` the higher one.
   */
  lemma ChainRelations(a: NamedSets.Named, b: NamedSets.Named)
    ensures And(NamedSet(a), NamedSet(b)) == Resolves(NamedSet(if NamedSets.Rank(a) <= NamedSets.Rank(b) then a else b))
    ensures Or(NamedSet(a), NamedSet(b)) == Resolves(NamedSet(if NamedSets.Rank(a) <= NamedSets.Rank(b) then b else a))
  {
    NamedSets.ChainAgreement(a, b);
  }
}
