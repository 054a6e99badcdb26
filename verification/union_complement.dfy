/**
 * The complement `inv(extended_real_line)` of a canonical interval union,
 * taken within the real line `(-inf,inf)` or, when the flag is set, within
 * the extended real line `[-inf,inf]`. The complement of a non-empty union is
 * the gap before its first interval, the gaps between neighbours, and the gap
 * after its last interval; the outer gaps are dropped when empty.
 */
module UnionComplement {
  import opened Bounds
  import opened Intervals
  import opened IntervalUnions
  import opened Canonicalise

  /** The universe the complement is taken in. */
  predicate InUniverse(x: Bound, ext: bool) {
    if ext then IsPoint(x) else x.Fin?
  }

  /** `x` lies before the start of `I`. */
  predicate BeforeStart(x: Bound, I: Interval) { BeforeEnd(x, I.lo, !I.lc) }

  /** `x` lies after the end of `I`. */
  predicate AfterEnd(x: Bound, I: Interval) { AfterStart(x, I.hi, !I.rc) }

  /** The interval between `I` and the next interval `J`, brackets flipped. */
  function Gap(I: Interval, J: Interval): (G: Interval)
    requires IsPoint(I.hi) && IsPoint(J.lo)
    ensures WellFormed(G) && !IsNaN(G)
    ensures forall x :: Contains(G, x) <==> AfterEnd(x, I) && BeforeStart(x, J)
  {
    MakeB(!I.rc, I.hi, J.lo, !J.lc)
  }

  /** The gaps between neighbours of a separated list, in order. */
  function Gaps(s: seq<Interval>): (g: seq<Interval>)
    requires Separated(s)
    ensures |s| > 0 ==> |g| == |s| - 1
    decreases |s|
  {
    if |s| <= 1 then []
    else [Gap(s[0], s[1])] + Gaps(s[1..])
  }

  /** The whole universe as one interval. */
  function Universe(ext: bool): (U: IntervalUnion)
    ensures Canonical(U) && !IsNaNUnion(U)
    ensures forall x :: Mem(U.intervals, x) <==> InUniverse(x, ext)
  {
    var I := Interval(ext, NegInf, PosInf, ext);
    assert Lt(NegInf, PosInf) && !Lt(PosInf, NegInf) && !Eq(NegInf, PosInf);
    SeparatedCons(I, []);
    assert [I] + [] == [I] && [I][1..] == [];
    IntervalUnion([I])
  }

  /** The gap from the start of the universe to the first interval. */
  function Lead(s: seq<Interval>, ext: bool): (G: Interval)
    requires Separated(s) && |s| > 0
    ensures WellFormed(G) && !IsNaN(G)
    ensures forall x :: Contains(G, x) <==> AfterStart(x, NegInf, ext) && BeforeStart(x, s[0])
  {
    MakeB(ext, NegInf, s[0].lo, !s[0].lc)
  }

  /** The gap from the last interval to the end of the universe. */
  function Trail(s: seq<Interval>, ext: bool): (G: Interval)
    requires Separated(s) && |s| > 0
    ensures WellFormed(G) && !IsNaN(G)
    ensures forall x :: Contains(G, x) <==> AfterEnd(x, s[|s| - 1]) && BeforeEnd(x, PosInf, ext)
  {
    SeparatedProper(s);
    MakeB(!s[|s| - 1].rc, s[|s| - 1].hi, PosInf, ext)
  }

  /** The complement of a non-empty separated list: outer gaps when non-empty, and the inner gaps. */
  function Cover(s: seq<Interval>, ext: bool): seq<Interval>
    requires Separated(s) && |s| > 0
  {
    KeepNonEmpty(Lead(s, ext)) + Gaps(s) + KeepNonEmpty(Trail(s, ext))
  }

  /**
   * `inv`: the NaN union is its own complement; the empty union's complement
   * is the universe; otherwise the outer and inner gaps.
   */
  function Complement(A: IntervalUnion, ext: bool): (C: IntervalUnion)
    requires Canonical(A)
    ensures Canonical(C)
    ensures IsNaNUnion(C) <==> IsNaNUnion(A)
    ensures IsNaNUnion(A) ==> C == A
    ensures !IsNaNUnion(A) ==>
      forall x :: Mem(C.intervals, x) <==> InUniverse(x, ext) && !Mem(A.intervals, x)
  {
    if |A.intervals| == 0 then
      Universe(ext)
    else if IsNaN(A.intervals[0]) then
      A
    else
      var c := Cover(A.intervals, ext);
      ComplementSeparated(A.intervals, ext);
      forall x ensures Mem(c, x) <==> InUniverse(x, ext) && !Mem(A.intervals, x) {
        ComplementMem(A.intervals, ext, x);
      }
      IntervalUnion(c)
  }

  // ---------------------------------------------------------------------
  // Separation
  // ---------------------------------------------------------------------

  /** Pieces flanking a proper interval, ending at its start and starting at its end, are separated. */
  lemma AroundProper(P: Interval, Q: Interval, I: Interval)
    requires Proper(I)
    requires P.hi == I.lo && P.rc == !I.lc && Q.lo == I.hi && Q.lc == !I.rc
    ensures Sep(P, Q)
  {
  }

  /** The gap between two separated intervals is proper and keeps their bounds. */
  lemma GapProper(I: Interval, J: Interval)
    requires Proper(I) && Proper(J) && Sep(I, J)
    ensures Proper(Gap(I, J)) && Gap(I, J) == Interval(!I.rc, I.hi, J.lo, !J.lc)
  {
  }

  lemma {:induction false} GapsSeparated(s: seq<Interval>)
    requires Separated(s) && |s| >= 2
    ensures Separated(Gaps(s))
    ensures Gaps(s)[0] == Interval(!s[0].rc, s[0].hi, s[1].lo, !s[1].lc)
    ensures Gaps(s)[|s| - 2] == Interval(!s[|s| - 2].rc, s[|s| - 2].hi, s[|s| - 1].lo, !s[|s| - 1].lc)
    decreases |s|
  {
    SeparatedProper(s);
    GapProper(s[0], s[1]);
    if |s| > 2 {
      GapsSeparated(s[1..]);
      GapProper(s[1], s[2]);
      AroundProper(Gap(s[0], s[1]), Gaps(s[1..])[0], s[1]);
      SeparatedCons(Gap(s[0], s[1]), Gaps(s[1..]));
    } else {
      assert Gaps(s[1..]) == [];
      SeparatedCons(Gap(s[0], s[1]), []);
    }
  }

  lemma ComplementSeparated(s: seq<Interval>, ext: bool)
    requires Separated(s) && |s| > 0
    ensures Separated(Cover(s, ext))
  {
    var n := |s|;
    SeparatedProper(s);
    var lead := KeepNonEmpty(Lead(s, ext));
    var trail := KeepNonEmpty(Trail(s, ext));
    var g := Gaps(s);
    if n == 1 {
      if |lead| > 0 && |trail| > 0 {
        AroundProper(lead[0], trail[0], s[0]);
      }
      SeparatedConcat(lead, g);
      assert lead + g == lead;
      SeparatedConcat(lead, trail);
    } else {
      GapsSeparated(s);
      if |lead| > 0 {
        AroundProper(lead[0], g[0], s[0]);
      }
      SeparatedConcat(lead, g);
      if |trail| > 0 {
        AroundProper(g[n - 2], trail[0], s[n - 1]);
        assert (lead + g)[|lead + g| - 1] == g[n - 2];
      }
      SeparatedConcat(lead + g, trail);
    }
  }

  // ---------------------------------------------------------------------
  // Membership
  // ---------------------------------------------------------------------

  /** A point lies before, inside or after a proper interval, and in exactly one of these. */
  lemma Trisect(I: Interval, x: Bound)
    requires Proper(I) && IsPoint(x)
    ensures BeforeStart(x, I) || Contains(I, x) || AfterEnd(x, I)
    ensures BeforeStart(x, I) ==> !Contains(I, x) && !AfterEnd(x, I)
    ensures AfterEnd(x, I) ==> !Contains(I, x)
  {
    ContainsSplit(I, x);
  }

  /** Points of a separated list lie at or before the end of its last interval. */
  lemma {:induction false} MemUpperBound(s: seq<Interval>, x: Bound)
    requires Separated(s) && |s| > 0 && Mem(s, x)
    ensures BeforeEnd(x, s[|s| - 1].hi, s[|s| - 1].rc)
    decreases |s|
  {
    if |s| == 1 {
      ContainsSplit(s[0], x);
    } else if Mem(s[1..], x) {
      MemUpperBound(s[1..], x);
    } else {
      ContainsSplit(s[0], x);
      SeparatedTail(s);
      assert StartsAfter(s[1..][|s| - 2], s[0].hi, s[0].rc);
      SeparatedProper(s);
    }
  }

  /** Being before the first start, or after the last end, carries across a separated list. */
  lemma {:induction false} FirstLast(s: seq<Interval>, x: Bound)
    requires Separated(s) && |s| > 0
    ensures BeforeStart(x, s[0]) ==> BeforeStart(x, s[|s| - 1])
    ensures AfterEnd(x, s[|s| - 1]) ==> AfterEnd(x, s[0])
    decreases |s|
  {
    if |s| > 1 {
      FirstLast(s[1..], x);
    }
  }

  /** No list contains NaN. */
  lemma {:induction false} NaNNotMem(s: seq<Interval>, x: Bound)
    requires x.NaN?
    ensures !Mem(s, x)
    decreases |s|
  {
    if |s| > 0 {
      NaNNotMem(s[1..], x);
    }
  }

  /** The gaps hold exactly the points strictly between the list's extremes that the list lacks. */
  lemma {:induction false} GapsMem(s: seq<Interval>, x: Bound)
    requires Separated(s) && |s| > 0 && IsPoint(x)
    ensures Mem(Gaps(s), x) <==> AfterEnd(x, s[0]) && BeforeStart(x, s[|s| - 1]) && !Mem(s, x)
    decreases |s|
  {
    SeparatedProper(s);
    Trisect(s[0], x);
    if |s| == 1 {
      ContainsSplit(s[0], x);
    } else {
      GapsMem(s[1..], x);
      Trisect(s[1], x);
      assert s[1..][|s| - 2] == s[|s| - 1];
      if BeforeStart(x, s[1]) {
        FirstLast(s[1..], x);
        if Mem(s[1..], x) {
          MemLowerBound(s[1..], x);
        }
      }
    }
  }

  /** The universe splits into a start and an end test. */
  lemma UniverseSplit(x: Bound, ext: bool)
    ensures InUniverse(x, ext) <==> AfterStart(x, NegInf, ext) && BeforeEnd(x, PosInf, ext)
  {
    match x
    case NegInf =>
      assert !Lt(NegInf, NegInf) && Lt(NegInf, PosInf);
    case Fin(_) =>
      assert Lt(NegInf, x) && Lt(x, PosInf);
    case PosInf =>
      assert Lt(NegInf, PosInf) && !Lt(PosInf, PosInf);
    case NaN =>
      assert !Lt(NegInf, NaN) && !Eq(NaN, NegInf);
  }

  /** Before the first interval: only the leading gap can hold `x`. */
  lemma RegionBefore(s: seq<Interval>, ext: bool, x: Bound)
    requires Separated(s) && |s| > 0 && IsPoint(x) && BeforeStart(x, s[0])
    ensures !Mem(s, x) && !AfterEnd(x, s[0]) && !AfterEnd(x, s[|s| - 1])
    ensures BeforeEnd(x, PosInf, ext)
  {
    SeparatedProper(s);
    Trisect(s[0], x);
    FirstLast(s, x);
    if Mem(s, x) {
      MemLowerBound(s, x);
    }
  }

  /** After the last interval: only the trailing gap can hold `x`. */
  lemma RegionAfter(s: seq<Interval>, ext: bool, x: Bound)
    requires Separated(s) && |s| > 0 && IsPoint(x) && AfterEnd(x, s[|s| - 1])
    ensures !Mem(s, x) && !BeforeStart(x, s[0]) && !BeforeStart(x, s[|s| - 1])
    ensures AfterStart(x, NegInf, ext)
  {
    SeparatedProper(s);
    Trisect(s[|s| - 1], x);
    Trisect(s[0], x);
    FirstLast(s, x);
    if Mem(s, x) {
      MemUpperBound(s, x);
    }
  }

  /** Between the extremes and outside the list: `x` lies in an inner gap and in the universe. */
  lemma RegionMiddle(s: seq<Interval>, ext: bool, x: Bound)
    requires Separated(s) && |s| > 0 && IsPoint(x)
    requires !BeforeStart(x, s[0]) && !AfterEnd(x, s[|s| - 1]) && !Mem(s, x)
    ensures AfterEnd(x, s[0]) && BeforeStart(x, s[|s| - 1])
    ensures AfterStart(x, NegInf, ext) && BeforeEnd(x, PosInf, ext)
  {
    SeparatedProper(s);
    Trisect(s[0], x);
    Trisect(s[|s| - 1], x);
    MemIndex(s, x);
    assert !Contains(s[|s| - 1], x);
  }

  /** The list `Cover` is made of three parts; membership is membership in one of them. */
  lemma CoverParts(s: seq<Interval>, ext: bool, x: Bound)
    requires Separated(s) && |s| > 0
    ensures Mem(Cover(s, ext), x) <==>
      (AfterStart(x, NegInf, ext) && BeforeStart(x, s[0]))
      || Mem(Gaps(s), x)
      || (AfterEnd(x, s[|s| - 1]) && BeforeEnd(x, PosInf, ext))
  {
    var lead := KeepNonEmpty(Lead(s, ext));
    var trail := KeepNonEmpty(Trail(s, ext));
    MemConcat(lead + Gaps(s), trail, x);
    MemConcat(lead, Gaps(s), x);
  }

  /** The complement holds exactly the points of the universe that `s` lacks. */
  lemma ComplementMem(s: seq<Interval>, ext: bool, x: Bound)
    requires Separated(s) && |s| > 0
    ensures Mem(Cover(s, ext), x) <==> InUniverse(x, ext) && !Mem(s, x)
  {
    if x.NaN? {
      CoverNaN(s, ext, x);
    } else if BeforeStart(x, s[0]) {
      CoverBefore(s, ext, x);
    } else if AfterEnd(x, s[|s| - 1]) {
      CoverAfter(s, ext, x);
    } else {
      CoverMiddle(s, ext, x);
    }
  }

  lemma CoverNaN(s: seq<Interval>, ext: bool, x: Bound)
    requires Separated(s) && |s| > 0 && x.NaN?
    ensures !Mem(Cover(s, ext), x) && !InUniverse(x, ext)
  {
    CoverParts(s, ext, x);
    NaNNotMem(Gaps(s), x);
  }

  lemma CoverBefore(s: seq<Interval>, ext: bool, x: Bound)
    requires Separated(s) && |s| > 0 && IsPoint(x) && BeforeStart(x, s[0])
    ensures Mem(Cover(s, ext), x) <==> InUniverse(x, ext) && !Mem(s, x)
  {
    CoverParts(s, ext, x);
    UniverseSplit(x, ext);
    GapsMem(s, x);
    RegionBefore(s, ext, x);
  }

  lemma CoverAfter(s: seq<Interval>, ext: bool, x: Bound)
    requires Separated(s) && |s| > 0 && IsPoint(x) && AfterEnd(x, s[|s| - 1])
    ensures Mem(Cover(s, ext), x) <==> InUniverse(x, ext) && !Mem(s, x)
  {
    CoverParts(s, ext, x);
    UniverseSplit(x, ext);
    GapsMem(s, x);
    RegionAfter(s, ext, x);
  }

  lemma CoverMiddle(s: seq<Interval>, ext: bool, x: Bound)
    requires Separated(s) && |s| > 0 && IsPoint(x)
    requires !BeforeStart(x, s[0]) && !AfterEnd(x, s[|s| - 1])
    ensures Mem(Cover(s, ext), x) <==> InUniverse(x, ext) && !Mem(s, x)
  {
    CoverParts(s, ext, x);
    GapsMem(s, x);
    assert Mem(Cover(s, ext), x) <==> Mem(Gaps(s), x);
    if !Mem(s, x) {
      UniverseSplit(x, ext);
      RegionMiddle(s, ext, x);
      assert Mem(Gaps(s), x);
    }
  }
}
