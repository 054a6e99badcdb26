/**
 * The Boolean-algebra laws of interval unions. Each follows from the
 * membership semantics of `&&`, `||` and `inv` together with the uniqueness
 * of the canonical form: two canonical non-NaN unions with the same points
 * are the same union.
 */
module UnionLaws {
  import opened Bounds
  import opened Intervals
  import opened IntervalUnions
  import opened UnionIntersection
  import opened UnionJoin
  import opened UnionComplement

  /** A canonical union that is not NaN. */
  predicate Regular(A: IntervalUnion) { Canonical(A) && !IsNaNUnion(A) }

  /** Neither infinity is a point of `A`. */
  predicate Bounded(A: IntervalUnion) { !Mem(A.intervals, NegInf) && !Mem(A.intervals, PosInf) }

  /** Two regular unions with the same points are equal. */
  lemma Ext(A: IntervalUnion, B: IntervalUnion)
    requires Regular(A) && Regular(B)
    requires forall x :: Mem(A.intervals, x) <==> Mem(B.intervals, x)
    ensures A == B
  {
    CanonicalUnique(A, B);
  }

  // ---------------------------------------------------------------------
  // NaN absorption
  // ---------------------------------------------------------------------

  lemma NaNAbsorbs(A: IntervalUnion, ext: bool)
    requires Canonical(A)
    ensures Intersect(A, NaNUnion) == NaNUnion && Intersect(NaNUnion, A) == NaNUnion
    ensures Join(A, NaNUnion) == NaNUnion && Join(NaNUnion, A) == NaNUnion
    ensures Complement(NaNUnion, ext) == NaNUnion
  {
    assert Canonical(NaNUnion) && IsNaNUnion(NaNUnion);
  }

  // ---------------------------------------------------------------------
  // Intersection
  // ---------------------------------------------------------------------

  lemma IntersectCommutes(A: IntervalUnion, B: IntervalUnion)
    requires Canonical(A) && Canonical(B)
    ensures Intersect(A, B) == Intersect(B, A)
  {
    if !IsNaNUnion(A) && !IsNaNUnion(B) {
      Ext(Intersect(A, B), Intersect(B, A));
    }
  }

  lemma IntersectIdempotent(A: IntervalUnion)
    requires Canonical(A)
    ensures Intersect(A, A) == A
  {
    if !IsNaNUnion(A) {
      Ext(Intersect(A, A), A);
    }
  }

  lemma IntersectAssociates(A: IntervalUnion, B: IntervalUnion, C: IntervalUnion)
    requires Canonical(A) && Canonical(B) && Canonical(C)
    ensures Intersect(Intersect(A, B), C) == Intersect(A, Intersect(B, C))
  {
    if !IsNaNUnion(A) && !IsNaNUnion(B) && !IsNaNUnion(C) {
      Ext(Intersect(Intersect(A, B), C), Intersect(A, Intersect(B, C)));
    }
  }

  /** The empty union absorbs under `&&` and the universe is neutral (within the universe). */
  lemma IntersectIdentities(A: IntervalUnion, ext: bool)
    requires Regular(A)
    ensures Intersect(A, EmptyUnion) == EmptyUnion && Intersect(EmptyUnion, A) == EmptyUnion
    ensures ext || Bounded(A) ==> Intersect(A, Universe(ext)) == A && Intersect(Universe(ext), A) == A
  {
    assert Separated(EmptyUnion.intervals);
    Ext(Intersect(A, EmptyUnion), EmptyUnion);
    Ext(Intersect(EmptyUnion, A), EmptyUnion);
    if ext || Bounded(A) {
      forall x | Mem(A.intervals, x) ensures InUniverse(x, ext) {
        NoNaNMember(A.intervals, x);
      }
      Ext(Intersect(A, Universe(ext)), A);
      Ext(Intersect(Universe(ext), A), A);
    }
  }

  /** A member of a list is never NaN. */
  lemma NoNaNMember(s: seq<Interval>, x: Bound)
    requires Mem(s, x)
    ensures IsPoint(x)
  {
    if x.NaN? {
      NaNNotMem(s, x);
    }
  }

  // ---------------------------------------------------------------------
  // Union
  // ---------------------------------------------------------------------

  lemma JoinCommutes(A: IntervalUnion, B: IntervalUnion)
    requires Canonical(A) && Canonical(B)
    ensures Join(A, B) == Join(B, A)
  {
    if !IsNaNUnion(A) && !IsNaNUnion(B) {
      Ext(Join(A, B), Join(B, A));
    }
  }

  lemma JoinIdempotent(A: IntervalUnion)
    requires Canonical(A)
    ensures Join(A, A) == A
  {
    if !IsNaNUnion(A) {
      Ext(Join(A, A), A);
    }
  }

  lemma JoinAssociates(A: IntervalUnion, B: IntervalUnion, C: IntervalUnion)
    requires Canonical(A) && Canonical(B) && Canonical(C)
    ensures Join(Join(A, B), C) == Join(A, Join(B, C))
  {
    if !IsNaNUnion(A) && !IsNaNUnion(B) && !IsNaNUnion(C) {
      Ext(Join(Join(A, B), C), Join(A, Join(B, C)));
    }
  }

  /** The empty union is neutral under `||` and the universe absorbs (within the universe). */
  lemma JoinIdentities(A: IntervalUnion, ext: bool)
    requires Regular(A)
    ensures Join(A, EmptyUnion) == A && Join(EmptyUnion, A) == A
    ensures ext || Bounded(A) ==> Join(A, Universe(ext)) == Universe(ext) && Join(Universe(ext), A) == Universe(ext)
  {
    assert Separated(EmptyUnion.intervals);
    Ext(Join(A, EmptyUnion), A);
    Ext(Join(EmptyUnion, A), A);
    if ext || Bounded(A) {
      forall x | Mem(A.intervals, x) ensures InUniverse(x, ext) {
        NoNaNMember(A.intervals, x);
      }
      Ext(Join(A, Universe(ext)), Universe(ext));
      Ext(Join(Universe(ext), A), Universe(ext));
    }
  }

  // ---------------------------------------------------------------------
  // Distribution and absorption
  // ---------------------------------------------------------------------

  lemma IntersectDistributes(A: IntervalUnion, B: IntervalUnion, C: IntervalUnion)
    requires Canonical(A) && Canonical(B) && Canonical(C)
    ensures Intersect(A, Join(B, C)) == Join(Intersect(A, B), Intersect(A, C))
  {
    if !IsNaNUnion(A) && !IsNaNUnion(B) && !IsNaNUnion(C) {
      Ext(Intersect(A, Join(B, C)), Join(Intersect(A, B), Intersect(A, C)));
    }
  }

  lemma JoinDistributes(A: IntervalUnion, B: IntervalUnion, C: IntervalUnion)
    requires Canonical(A) && Canonical(B) && Canonical(C)
    ensures Join(A, Intersect(B, C)) == Intersect(Join(A, B), Join(A, C))
  {
    if !IsNaNUnion(A) && !IsNaNUnion(B) && !IsNaNUnion(C) {
      Ext(Join(A, Intersect(B, C)), Intersect(Join(A, B), Join(A, C)));
    }
  }

  lemma Absorption(A: IntervalUnion, B: IntervalUnion)
    requires Regular(A) && Regular(B)
    ensures Join(A, Intersect(A, B)) == A
    ensures Intersect(A, Join(A, B)) == A
  {
    Ext(Join(A, Intersect(A, B)), A);
    Ext(Intersect(A, Join(A, B)), A);
  }

  // ---------------------------------------------------------------------
  // Complement
  // ---------------------------------------------------------------------

  lemma DeMorgan(A: IntervalUnion, B: IntervalUnion, ext: bool)
    requires Canonical(A) && Canonical(B)
    ensures Complement(Intersect(A, B), ext) == Join(Complement(A, ext), Complement(B, ext))
    ensures Complement(Join(A, B), ext) == Intersect(Complement(A, ext), Complement(B, ext))
  {
    if !IsNaNUnion(A) && !IsNaNUnion(B) {
      Ext(Complement(Intersect(A, B), ext), Join(Complement(A, ext), Complement(B, ext)));
      Ext(Complement(Join(A, B), ext), Intersect(Complement(A, ext), Complement(B, ext)));
    }
  }

  /**
   * `inv` undoes itself on the extended real line, and on the real line for
   * unions containing neither infinity.
   */
  lemma ComplementInvolution(A: IntervalUnion, ext: bool)
    requires Regular(A) && (ext || Bounded(A))
    ensures Complement(Complement(A, ext), ext) == A
  {
    forall x | Mem(A.intervals, x) ensures InUniverse(x, ext) {
      NoNaNMember(A.intervals, x);
    }
    Ext(Complement(Complement(A, ext), ext), A);
  }

  /** A union and its complement cover the universe and share no point. */
  lemma ComplementLaws(A: IntervalUnion, ext: bool)
    requires Regular(A) && (ext || Bounded(A))
    ensures Join(A, Complement(A, ext)) == Universe(ext)
    ensures Intersect(A, Complement(A, ext)) == EmptyUnion
  {
    forall x | Mem(A.intervals, x) ensures InUniverse(x, ext) {
      NoNaNMember(A.intervals, x);
    }
    assert Separated(EmptyUnion.intervals);
    Ext(Join(A, Complement(A, ext)), Universe(ext));
    Ext(Intersect(A, Complement(A, ext)), EmptyUnion);
  }

  /** `inv` of the empty union is the universe and `inv` of the universe is empty. */
  lemma ComplementExtremes(ext: bool)
    ensures Complement(EmptyUnion, ext) == Universe(ext)
    ensures Complement(Universe(ext), ext) == EmptyUnion
  {
    assert Separated(EmptyUnion.intervals);
    Ext(Complement(Universe(ext), ext), EmptyUnion);
  }
}
