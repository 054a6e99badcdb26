/**
 * Intersection of two canonical interval unions by a single left-to-right
 * sweep. Each step intersects the current piece of the left union with the
 * current piece of the right union and keeps the "right remainder": the part
 * of whichever piece reaches further right, beyond the end of the other.
 */
module UnionIntersection {
  import opened Bounds
  import opened Intervals
  import opened IntervalUnions

  /** `I` starts no later than `J`. */
  predicate StartNoLater(I: Interval, J: Interval) {
    Lt(I.lo, J.lo) || (Eq(I.lo, J.lo) && (I.lc || !J.lc))
  }

  /** The end `(hi, rc)` is no later than the end `(hi2, rc2)`. */
  predicate EndNoLater(hi: Bound, rc: bool, hi2: Bound, rc2: bool) {
    Lt(hi, hi2) || (Eq(hi, hi2) && (!rc || rc2))
  }

  predicate SameEnd(I: Interval, J: Interval) { I.hi == J.hi && I.rc == J.rc }

  /**
   * `R` is what remains of the longer interval `L` past the end of the shorter
   * interval `S`: it ends where `L` ends, lies inside `L`, and holds every
   * point of `L` beyond the right bound of `S`.
   */
  ghost predicate TailOf(R: Interval, L: Interval, S: Interval) {
    SameEnd(R, L) && EndsBefore(S, L)
    && (forall x :: Contains(R, x) ==> Contains(L, x))
    && (forall x :: Contains(L, x) && Lt(S.hi, x) ==> Contains(R, x))
  }

  /** The first half of `interval_intersection_right_remainder`. */
  function Overlap(I: Interval, J: Interval): (K: Interval)
    requires Proper(I) && Proper(J)
    ensures WellFormed(K) && !IsNaN(K)
  {
    MakeB(
      if Lt(I.lo, J.lo) then J.lc else if Eq(I.lo, J.lo) then I.lc && J.lc else I.lc,
      Max(I.lo, J.lo),
      Min(I.hi, J.hi),
      if Lt(I.hi, J.hi) then I.rc else if Eq(I.hi, J.hi) then I.rc && J.rc else J.rc)
  }

  /** The second half of `interval_intersection_right_remainder`. */
  function Remainder(I: Interval, J: Interval): (R: Interval)
    requires Proper(I) && Proper(J)
  {
    var K := Overlap(I, J);
    if IsEmpty(K) then
      if Le(I.hi, J.lo) then J else I
    else
      MakeB(!K.rc, K.hi, Max(I.hi, J.hi),
        if Lt(I.hi, J.hi) then J.rc else if Eq(I.hi, J.hi) then I.rc || J.rc else I.rc)
  }

  /** The overlap holds exactly the common points. */
  lemma OverlapContains(I: Interval, J: Interval, x: Bound)
    requires Proper(I) && Proper(J)
    ensures Contains(Overlap(I, J), x) <==> Contains(I, x) && Contains(J, x)
  {
    ContainsSplit(I, x);
    ContainsSplit(J, x);
  }

  /** A non-empty overlap starts no earlier and ends no later than either interval. */
  lemma OverlapPlacement(I: Interval, J: Interval)
    requires Proper(I) && Proper(J) && !IsEmpty(Overlap(I, J))
    ensures Proper(Overlap(I, J))
    ensures StartNoLater(I, Overlap(I, J)) && StartNoLater(J, Overlap(I, J))
    ensures EndNoLater(Overlap(I, J).hi, Overlap(I, J).rc, I.hi, I.rc)
    ensures EndNoLater(Overlap(I, J).hi, Overlap(I, J).rc, J.hi, J.rc)
    ensures Overlap(I, J).hi == Min(I.hi, J.hi)
  {
  }

  lemma DisjointRemainder(I: Interval, J: Interval)
    requires Proper(I) && Proper(J) && IsEmpty(Overlap(I, J))
    ensures !IsEmpty(Remainder(I, J))
    ensures Proper(Remainder(I, J))
    ensures TailOf(Remainder(I, J), J, I) || TailOf(Remainder(I, J), I, J)
  {
    if Le(I.hi, J.lo) {
      assert EndsBefore(I, J);
    } else {
      assert EndsBefore(J, I);
    }
  }

  lemma OverlapRemainder(I: Interval, J: Interval)
    requires Proper(I) && Proper(J) && !IsEmpty(Overlap(I, J))
    ensures IsEmpty(Remainder(I, J)) ==> SameEnd(I, J)
    ensures !IsEmpty(Remainder(I, J)) ==>
      Proper(Remainder(I, J)) && (TailOf(Remainder(I, J), J, I) || TailOf(Remainder(I, J), I, J))
  {
    var K := Overlap(I, J);
    var R := Remainder(I, J);
    OverlapPlacement(I, J);
    if !IsEmpty(R) {
      var longerJ := Lt(I.hi, J.hi) || (Eq(I.hi, J.hi) && J.rc);
      var L := if longerJ then J else I;
      var S := if longerJ then I else J;
      assert SameEnd(R, L) && EndsBefore(S, L);
      assert K.hi == S.hi && K.rc == S.rc;
      forall x | Contains(R, x) ensures Contains(L, x) {
        ContainsSplit(L, x);
        ContainsSplit(K, x);
      }
      forall x | Contains(L, x) && Lt(S.hi, x) ensures Contains(R, x) {
        ContainsSplit(L, x);
      }
      assert TailOf(R, L, S);
    }
  }

  /**
   * Everything the sweep needs to know about one step on the pieces `Pa` and
   * `Pb`: the overlap `K` holds the common points and lies within both, and the
   * remainder `R` is empty when both end together and is otherwise the part of
   * the longer piece past the end of the shorter one.
   */
  ghost predicate StepSpec(K: Interval, R: Interval, Pa: Interval, Pb: Interval) {
    WellFormed(K) && !IsNaN(K)
    && (forall x :: Contains(K, x) <==> Contains(Pa, x) && Contains(Pb, x))
    && (!IsEmpty(K) ==>
          Proper(K) && StartNoLater(Pa, K) && StartNoLater(Pb, K)
          && EndNoLater(K.hi, K.rc, Pa.hi, Pa.rc) && EndNoLater(K.hi, K.rc, Pb.hi, Pb.rc))
    && (IsEmpty(R) ==> SameEnd(Pa, Pb))
    && (!IsEmpty(R) ==> Proper(R) && (TailOf(R, Pb, Pa) || TailOf(R, Pa, Pb)))
  }

  lemma StepSpecHolds(I: Interval, J: Interval, Pa: Interval, Pb: Interval)
    requires Proper(I) && Proper(J)
    requires (I == Pa && J == Pb) || (I == Pb && J == Pa)
    ensures StepSpec(Overlap(I, J), Remainder(I, J), Pa, Pb)
  {
    forall x ensures Contains(Overlap(I, J), x) <==> Contains(I, x) && Contains(J, x) {
      OverlapContains(I, J, x);
    }
    if IsEmpty(Overlap(I, J)) {
      DisjointRemainder(I, J);
    } else {
      OverlapPlacement(I, J);
      OverlapRemainder(I, J);
    }
  }

  // ---------------------------------------------------------------------
  // The sweep
  // ---------------------------------------------------------------------

  /**
   * The loop of `operator&&`: `xs` and `ys` are what is left of the two
   * unions (their heads are the intervals under the two iterators), and
   * `I`, `J` the current pieces of those two heads, in either order.
   */
  function Sweep(xs: seq<Interval>, ys: seq<Interval>, I: Interval, J: Interval): seq<Interval>
    requires Separated(xs) && Separated(ys) && |xs| > 0 && |ys| > 0
    requires Proper(I) && Proper(J)
    decreases |xs| + |ys|, 1
  {
    StepSpecHolds(I, J, I, J);
    Advance(xs, ys, Overlap(I, J), Remainder(I, J))
  }

  /**
   * One iteration after the overlap `K` and remainder `R` are known: emit `K`
   * unless it is empty, then advance past whichever heads are used up and
   * carry the remainder as the next piece of the other.
   */
  function Advance(xs: seq<Interval>, ys: seq<Interval>, K: Interval, R: Interval): seq<Interval>
    requires Separated(xs) && Separated(ys) && |xs| > 0 && |ys| > 0
    requires WellFormed(K) && !IsNaN(K) && (IsEmpty(R) || Proper(R))
    decreases |xs| + |ys|, 0
  {
    SeparatedProper(xs);
    SeparatedProper(ys);
    var out := KeepNonEmpty(K);
    if IsEmpty(R) then
      if |xs| == 1 || |ys| == 1 then out
      else
        SeparatedSuffix(xs, 1);
        SeparatedSuffix(ys, 1);
        out + Sweep(xs[1..], ys[1..], xs[1], ys[1])
    else if Eq(R.hi, ys[0].hi) && R.rc == ys[0].rc then
      if |xs| == 1 then out
      else
        SeparatedSuffix(xs, 1);
        out + Sweep(xs[1..], ys, xs[1], R)
    else
      if |ys| == 1 then out
      else
        SeparatedSuffix(ys, 1);
        out + Sweep(xs, ys[1..], ys[1], R)
  }

  /**
   * `operator&&`: NaN if either side is NaN, empty if either side is empty,
   * and otherwise the sweep over both unions.
   */
  function Intersect(A: IntervalUnion, B: IntervalUnion): (C: IntervalUnion)
    requires Canonical(A) && Canonical(B)
    ensures Canonical(C)
    ensures IsNaNUnion(C) <==> IsNaNUnion(A) || IsNaNUnion(B)
    ensures IsNaNUnion(C) ==> C == NaNUnion
    ensures !IsNaNUnion(C) ==>
      forall x :: Mem(C.intervals, x) <==> Mem(A.intervals, x) && Mem(B.intervals, x)
  {
    if IsNaNUnion(A) || IsNaNUnion(B) then NaNUnion
    else if |A.intervals| == 0 || |B.intervals| == 0 then EmptyUnion
    else
      var a, b := A.intervals, B.intervals;
      SeparatedProper(a);
      SeparatedProper(b);
      var r := Sweep(a, b, a[0], b[0]);
      SweepSeparated(a, b, a[0], b[0], a[0], b[0], false, NaN, false);
      forall x ensures Mem(r, x) <==> Mem(a, x) && Mem(b, x) {
        SweepMem(a, b, a[0], b[0], a[0], b[0], x);
      }
      IntervalUnion(r)
  }

  // ---------------------------------------------------------------------
  // Correctness of the sweep
  // ---------------------------------------------------------------------

  /** `Pa` is the unconsumed rest of the head of `xs`, `Pb` of the head of `ys`. */
  predicate Pieces(xs: seq<Interval>, ys: seq<Interval>, Pa: Interval, Pb: Interval) {
    |xs| > 0 && |ys| > 0
    && Proper(Pa) && Proper(Pb) && SameEnd(Pa, xs[0]) && SameEnd(Pb, ys[0])
  }

  /** Which piece the remainder came from, decided by the sweep's test on its right end. */
  lemma RemainderSide(xs: seq<Interval>, ys: seq<Interval>, R: Interval, Pa: Interval, Pb: Interval)
    requires Pieces(xs, ys, Pa, Pb)
    requires TailOf(R, Pb, Pa) || TailOf(R, Pa, Pb)
    ensures if Eq(R.hi, ys[0].hi) && R.rc == ys[0].rc then TailOf(R, Pb, Pa) else TailOf(R, Pa, Pb)
  {
  }

  /** A point of the tail of a separated list lies beyond the head's end, hence outside any piece ending there. */
  lemma TailOutsidePiece(s: seq<Interval>, P: Interval, x: Bound)
    requires Separated(s) && |s| > 0 && Proper(P) && SameEnd(P, s[0])
    requires Mem(s[1..], x)
    ensures Lt(P.hi, x)
  {
    TailAbove(s, x);
  }

  lemma MemHead(s: seq<Interval>, x: Bound)
    requires |s| > 0
    ensures Mem(s, x) <==> Contains(s[0], x) || Mem(s[1..], x)
  {
  }

  /** One step when both pieces end together: both heads are used up. */
  lemma SameEndStep(Pa: Interval, Pb: Interval, x: Bound, ta: bool, tb: bool)
    requires Proper(Pa) && Proper(Pb) && SameEnd(Pa, Pb)
    requires ta ==> Lt(Pa.hi, x)
    requires tb ==> Lt(Pb.hi, x)
    ensures (Contains(Pa, x) || ta) && (Contains(Pb, x) || tb) <==>
      (Contains(Pa, x) && Contains(Pb, x)) || (ta && tb)
  {
    ContainsSplit(Pa, x);
    ContainsSplit(Pb, x);
  }

  /** One step when `Pa` ends first: what is left to meet the tail of `Pa`'s list is `R`. */
  lemma ShorterStep(Pa: Interval, Pb: Interval, R: Interval, x: Bound, ta: bool, tb: bool)
    requires Proper(Pa) && Proper(Pb) && TailOf(R, Pb, Pa)
    requires ta ==> Lt(Pa.hi, x)
    requires tb ==> Lt(Pb.hi, x)
    ensures (Contains(Pa, x) || ta) && (Contains(Pb, x) || tb) <==>
      (Contains(Pa, x) && Contains(Pb, x)) || (ta && (Contains(R, x) || tb))
  {
    ContainsSplit(Pa, x);
    ContainsSplit(Pb, x);
    if tb {
      assert Lt(Pa.hi, x) by {
        if Lt(Pa.hi, Pb.hi) {
          LtTrans(Pa.hi, Pb.hi, x);
        }
      }
    }
  }

  /** The sweep keeps exactly the points common to what is left of both unions. */
  lemma {:induction false} SweepMem(xs: seq<Interval>, ys: seq<Interval>, I: Interval, J: Interval,
                                    Pa: Interval, Pb: Interval, x: Bound)
    requires Separated(xs) && Separated(ys) && Pieces(xs, ys, Pa, Pb)
    requires (I == Pa && J == Pb) || (I == Pb && J == Pa)
    ensures Mem(Sweep(xs, ys, I, J), x) <==>
      (Contains(Pa, x) || Mem(xs[1..], x)) && (Contains(Pb, x) || Mem(ys[1..], x))
    decreases |xs| + |ys|, 1
  {
    StepSpecHolds(I, J, Pa, Pb);
    AdvanceMem(xs, ys, Overlap(I, J), Remainder(I, J), Pa, Pb, x);
  }

  lemma {:induction false} AdvanceMem(xs: seq<Interval>, ys: seq<Interval>, K: Interval, R: Interval,
                                      Pa: Interval, Pb: Interval, x: Bound)
    requires Separated(xs) && Separated(ys) && Pieces(xs, ys, Pa, Pb)
    requires StepSpec(K, R, Pa, Pb)
    ensures Mem(Advance(xs, ys, K, R), x) <==>
      (Contains(Pa, x) || Mem(xs[1..], x)) && (Contains(Pb, x) || Mem(ys[1..], x))
    decreases |xs| + |ys|, 0
  {
    SeparatedProper(xs);
    SeparatedProper(ys);
    var out := KeepNonEmpty(K);
    var ta, tb := Mem(xs[1..], x), Mem(ys[1..], x);
    if ta {
      TailOutsidePiece(xs, Pa, x);
    }
    if tb {
      TailOutsidePiece(ys, Pb, x);
    }
    if IsEmpty(R) {
      SameEndStep(Pa, Pb, x, ta, tb);
      if |xs| > 1 && |ys| > 1 {
        SeparatedSuffix(xs, 1);
        SeparatedSuffix(ys, 1);
        SweepMem(xs[1..], ys[1..], xs[1], ys[1], xs[1], ys[1], x);
        MemConcat(out, Sweep(xs[1..], ys[1..], xs[1], ys[1]), x);
        MemHead(xs[1..], x);
        MemHead(ys[1..], x);
      }
    } else {
      RemainderSide(xs, ys, R, Pa, Pb);
      if Eq(R.hi, ys[0].hi) && R.rc == ys[0].rc {
        ShorterStep(Pa, Pb, R, x, ta, tb);
        if |xs| > 1 {
          SeparatedSuffix(xs, 1);
          SweepMem(xs[1..], ys, xs[1], R, xs[1], R, x);
          MemConcat(out, Sweep(xs[1..], ys, xs[1], R), x);
          MemHead(xs[1..], x);
        }
      } else {
        ShorterStep(Pb, Pa, R, x, tb, ta);
        if |ys| > 1 {
          SeparatedSuffix(ys, 1);
          SweepMem(xs, ys[1..], ys[1], R, R, ys[1], x);
          MemConcat(out, Sweep(xs, ys[1..], ys[1], R), x);
          MemHead(ys[1..], x);
        }
      }
    }
  }

  lemma AllAfterTail(s: seq<Interval>, hi: Bound, rc: bool)
    requires AllAfter(s, hi, rc) && |s| > 0
    ensures AllAfter(s[1..], hi, rc) && StartsAfter(s[0], hi, rc)
  {
    forall k | 0 <= k < |s[1..]| ensures StartsAfter(s[1..][k], hi, rc) {
      assert s[1..][k] == s[k + 1];
    }
  }

  lemma AllAfterEarlier(s: seq<Interval>, hi: Bound, rc: bool, hi2: Bound, rc2: bool)
    requires AllAfter(s, hi2, rc2) && EndNoLater(hi, rc, hi2, rc2)
    ensures AllAfter(s, hi, rc)
  {
  }

  lemma StartsAfterLater(X: Interval, K: Interval, hi: Bound, rc: bool)
    requires StartsAfter(X, hi, rc) && StartNoLater(X, K)
    ensures StartsAfter(K, hi, rc)
  {
  }

  /** What the sweep emits next comes after the end `(hi, rc)` of what it emitted last. */
  predicate Frontier(xs: seq<Interval>, ys: seq<Interval>, Pa: Interval, Pb: Interval,
                     hasLast: bool, hi: Bound, rc: bool)
    requires |xs| > 0 && |ys| > 0
  {
    hasLast ==>
      AllAfter(xs[1..], hi, rc) && AllAfter(ys[1..], hi, rc)
      && (StartsAfter(Pa, hi, rc) || StartsAfter(Pb, hi, rc))
  }

  /** The sweep emits a separated list, all of it after the frontier. */
  lemma {:induction false} SweepSeparated(xs: seq<Interval>, ys: seq<Interval>, I: Interval, J: Interval,
                                          Pa: Interval, Pb: Interval, hasLast: bool, hi: Bound, rc: bool)
    requires Separated(xs) && Separated(ys) && Pieces(xs, ys, Pa, Pb)
    requires (I == Pa && J == Pb) || (I == Pb && J == Pa)
    requires Frontier(xs, ys, Pa, Pb, hasLast, hi, rc)
    ensures Separated(Sweep(xs, ys, I, J))
    ensures hasLast && |Sweep(xs, ys, I, J)| > 0 ==> StartsAfter(Sweep(xs, ys, I, J)[0], hi, rc)
    decreases |xs| + |ys|, 1
  {
    StepSpecHolds(I, J, Pa, Pb);
    AdvanceSeparated(xs, ys, Overlap(I, J), Remainder(I, J), Pa, Pb, hasLast, hi, rc);
  }

  lemma {:induction false} AdvanceSeparated(xs: seq<Interval>, ys: seq<Interval>, K: Interval, R: Interval,
                                            Pa: Interval, Pb: Interval, hasLast: bool, hi: Bound, rc: bool)
    requires Separated(xs) && Separated(ys) && Pieces(xs, ys, Pa, Pb)
    requires StepSpec(K, R, Pa, Pb)
    requires Frontier(xs, ys, Pa, Pb, hasLast, hi, rc)
    ensures Separated(Advance(xs, ys, K, R))
    ensures hasLast && |Advance(xs, ys, K, R)| > 0 ==> StartsAfter(Advance(xs, ys, K, R)[0], hi, rc)
    decreases |xs| + |ys|, 0
  {
    SeparatedProper(xs);
    SeparatedProper(ys);
    var out := KeepNonEmpty(K);
    // The frontier after this step: the overlap's end if one is emitted.
    var hasLast' := if IsEmpty(K) then hasLast else true;
    var hi' := if IsEmpty(K) then hi else K.hi;
    var rc' := if IsEmpty(K) then rc else K.rc;
    if !IsEmpty(K) {
      if hasLast {
        if StartsAfter(Pa, hi, rc) {
          StartsAfterLater(Pa, K, hi, rc);
        } else {
          StartsAfterLater(Pb, K, hi, rc);
        }
      }
      SeparatedTail(xs);
      SeparatedTail(ys);
      AllAfterEarlier(xs[1..], K.hi, K.rc, xs[0].hi, xs[0].rc);
      AllAfterEarlier(ys[1..], K.hi, K.rc, ys[0].hi, ys[0].rc);
    }
    assert hasLast' ==> AllAfter(xs[1..], hi', rc') && AllAfter(ys[1..], hi', rc');
    if IsEmpty(R) {
      if |xs| > 1 && |ys| > 1 {
        SeparatedSuffix(xs, 1);
        SeparatedSuffix(ys, 1);
        if hasLast' {
          AllAfterTail(xs[1..], hi', rc');
          AllAfterTail(ys[1..], hi', rc');
        }
        SweepSeparated(xs[1..], ys[1..], xs[1], ys[1], xs[1], ys[1], hasLast', hi', rc');
        SeparatedConcat(out, Sweep(xs[1..], ys[1..], xs[1], ys[1]));
      }
    } else {
      RemainderSide(xs, ys, R, Pa, Pb);
      if Eq(R.hi, ys[0].hi) && R.rc == ys[0].rc {
        if |xs| > 1 {
          SeparatedSuffix(xs, 1);
          if hasLast' {
            AllAfterTail(xs[1..], hi', rc');
          }
          SweepSeparated(xs[1..], ys, xs[1], R, xs[1], R, hasLast', hi', rc');
          SeparatedConcat(out, Sweep(xs[1..], ys, xs[1], R));
        }
      } else {
        if |ys| > 1 {
          SeparatedSuffix(ys, 1);
          if hasLast' {
            AllAfterTail(ys[1..], hi', rc');
          }
          SweepSeparated(xs, ys[1..], ys[1], R, R, ys[1], hasLast', hi', rc');
          SeparatedConcat(out, Sweep(xs, ys[1..], ys[1], R));
        }
      }
    }
  }
}
