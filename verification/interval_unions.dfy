/**
 * Finite unions of intervals and their canonical form: either the single NaN
 * interval, or proper intervals sorted left to right, each ending strictly
 * before the next begins (two neighbours may share a bound only when both
 * brackets there are open). The central fact is that the canonical form of a
 * point set is unique, so two canonical unions with the same points are equal.
 */
module IntervalUnions {
  import opened Bounds
  import opened Intervals

  datatype IntervalUnion = IntervalUnion(intervals: seq<Interval>)

  const EmptyUnion: IntervalUnion := IntervalUnion([])
  const NaNUnion: IntervalUnion := IntervalUnion([NaNInterval])

  predicate IsEmptyUnion(A: IntervalUnion) { |A.intervals| == 0 }

  predicate IsNaNUnion(A: IntervalUnion) { |A.intervals| > 0 && IsNaN(A.intervals[0]) }

  /** Interval `B` lies wholly after the end `(hi, rc)`, touching it only through two open brackets. */
  predicate StartsAfter(B: Interval, hi: Bound, rc: bool) {
    Lt(hi, B.lo) || (Eq(hi, B.lo) && !rc && !B.lc)
  }

  /** `A` and `B` are disjoint, not adjacent through a closed bracket, and `A` comes first. */
  predicate Sep(A: Interval, B: Interval) { StartsAfter(B, A.hi, A.rc) }

  /** Proper intervals, each separated from the next. */
  predicate Separated(s: seq<Interval>)
    decreases |s|
  {
    |s| == 0 || (Proper(s[0]) && (|s| > 1 ==> Sep(s[0], s[1])) && Separated(s[1..]))
  }

  /** The representation every `IntervalUnion` operation maintains. */
  predicate Canonical(A: IntervalUnion) {
    A.intervals == [NaNInterval] || Separated(A.intervals)
  }

  /** Point membership in a list of intervals. */
  predicate Mem(s: seq<Interval>, x: Bound)
    decreases |s|
  {
    |s| > 0 && (Contains(s[0], x) || Mem(s[1..], x))
  }

  /** Every interval of `s` lies after the end `(hi, rc)`. */
  predicate AllAfter(s: seq<Interval>, hi: Bound, rc: bool) {
    forall k :: 0 <= k < |s| ==> StartsAfter(s[k], hi, rc)
  }

  /** The one-interval list `[I]`, or the empty list when `I` is empty. */
  function KeepNonEmpty(I: Interval): (s: seq<Interval>)
    requires WellFormed(I) && !IsNaN(I)
    ensures Separated(s) && |s| <= 1
    ensures forall x :: Mem(s, x) <==> Contains(I, x)
  {
    if IsEmpty(I) then [] else
      assert [I][1..] == [];
      [I]
  }

  // ---------------------------------------------------------------------
  // Membership of lists
  // ---------------------------------------------------------------------

  lemma {:induction false} MemConcat(a: seq<Interval>, b: seq<Interval>, x: Bound)
    ensures Mem(a + b, x) <==> Mem(a, x) || Mem(b, x)
    decreases |a|
  {
    if |a| > 0 {
      assert (a + b)[0] == a[0];
      assert (a + b)[1..] == a[1..] + b;
      MemConcat(a[1..], b, x);
    } else {
      assert a + b == b;
    }
  }

  lemma {:induction false} MemIndex(s: seq<Interval>, x: Bound)
    ensures Mem(s, x) <==> exists i :: 0 <= i < |s| && Contains(s[i], x)
    decreases |s|
  {
    if |s| > 0 {
      MemIndex(s[1..], x);
      if Mem(s[1..], x) {
        var i :| 0 <= i < |s[1..]| && Contains(s[1..][i], x);
        assert Contains(s[i + 1], x);
      }
      if exists i :: 0 <= i < |s| && Contains(s[i], x) {
        var i :| 0 <= i < |s| && Contains(s[i], x);
        if i > 0 {
          assert Contains(s[1..][i - 1], x);
        }
      }
    }
  }

  /** Lists that are permutations of each other have the same points. */
  lemma MemSameElements(s: seq<Interval>, t: seq<Interval>, x: Bound)
    requires multiset(s) == multiset(t)
    ensures Mem(s, x) <==> Mem(t, x)
  {
    MemIndex(s, x);
    MemIndex(t, x);
    if Mem(s, x) {
      var i :| 0 <= i < |s| && Contains(s[i], x);
      assert s[i] in multiset(t);
      assert s[i] in t;
    }
    if Mem(t, x) {
      var i :| 0 <= i < |t| && Contains(t[i], x);
      assert t[i] in multiset(s);
      assert t[i] in s;
    }
  }

  // ---------------------------------------------------------------------
  // Separation
  // ---------------------------------------------------------------------

  /** Separation carries through a proper middle interval. */
  lemma StartsAfterTrans(B: Interval, C: Interval, hi: Bound, rc: bool)
    requires Proper(B) && StartsAfter(B, hi, rc) && Sep(B, C)
    ensures StartsAfter(C, hi, rc)
  {
  }

  /** Every point of an interval that starts after an end lies strictly above that end's bound. */
  lemma StartsAfterPoint(B: Interval, hi: Bound, rc: bool, x: Bound)
    requires Proper(B) && StartsAfter(B, hi, rc) && Contains(B, x)
    ensures Lt(hi, x)
  {
  }

  lemma {:induction false} SeparatedSuffix(s: seq<Interval>, i: nat)
    requires Separated(s) && i <= |s|
    ensures Separated(s[i..])
    decreases i
  {
    if i > 0 {
      SeparatedSuffix(s[1..], i - 1);
      assert s[1..][i - 1..] == s[i..];
    }
  }

  lemma {:induction false} SeparatedProper(s: seq<Interval>)
    requires Separated(s)
    ensures forall k :: 0 <= k < |s| ==> Proper(s[k])
    decreases |s|
  {
    if |s| > 0 {
      SeparatedProper(s[1..]);
      forall k | 1 <= k < |s| ensures Proper(s[k]) {
        assert s[k] == s[1..][k - 1];
      }
    }
  }

  /** Everything after the head of a separated list lies after the head's end. */
  lemma {:induction false} SeparatedAllAfter(s: seq<Interval>, hi: Bound, rc: bool)
    requires Separated(s) && |s| > 0 && StartsAfter(s[0], hi, rc)
    ensures AllAfter(s, hi, rc)
    decreases |s|
  {
    if |s| > 1 {
      StartsAfterTrans(s[0], s[1], hi, rc);
      SeparatedAllAfter(s[1..], hi, rc);
      forall k | 1 <= k < |s| ensures StartsAfter(s[k], hi, rc) {
        assert s[k] == s[1..][k - 1];
      }
    }
  }

  /** The tail of a separated list lies after its head. */
  lemma SeparatedTail(s: seq<Interval>)
    requires Separated(s) && |s| > 0
    ensures AllAfter(s[1..], s[0].hi, s[0].rc)
  {
    if |s| > 1 {
      SeparatedAllAfter(s[1..], s[0].hi, s[0].rc);
    }
  }

  /** In a separated list any earlier interval is separated from any later one. */
  lemma SeparatedPair(s: seq<Interval>, i: nat, j: nat)
    requires Separated(s) && i < j < |s|
    ensures Sep(s[i], s[j])
  {
    SeparatedSuffix(s, i);
    SeparatedTail(s[i..]);
    assert s[j] == s[i..][1..][j - i - 1];
  }

  lemma {:induction false} AllAfterMem(s: seq<Interval>, hi: Bound, rc: bool, x: Bound)
    requires Separated(s) && AllAfter(s, hi, rc) && Mem(s, x)
    ensures Lt(hi, x)
    decreases |s|
  {
    if Contains(s[0], x) {
      StartsAfterPoint(s[0], hi, rc, x);
    } else {
      assert AllAfter(s[1..], hi, rc) by {
        forall k | 0 <= k < |s[1..]| ensures StartsAfter(s[1..][k], hi, rc) {
          assert s[1..][k] == s[k + 1];
        }
      }
      AllAfterMem(s[1..], hi, rc, x);
    }
  }

  /** Points of the tail of a separated list lie strictly above the head's right bound. */
  lemma TailAbove(s: seq<Interval>, x: Bound)
    requires Separated(s) && |s| > 0 && Mem(s[1..], x)
    ensures Lt(s[0].hi, x)
  {
    SeparatedTail(s);
    AllAfterMem(s[1..], s[0].hi, s[0].rc, x);
  }

  /** Points of a separated list lie at or after the start of its head. */
  lemma MemLowerBound(s: seq<Interval>, x: Bound)
    requires Separated(s) && |s| > 0 && Mem(s, x)
    ensures AfterStart(x, s[0].lo, s[0].lc)
  {
    if Contains(s[0], x) {
      ContainsSplit(s[0], x);
    } else {
      TailAbove(s, x);
    }
  }

  /** Concatenating separated lists whose junction is separated keeps them separated. */
  lemma {:induction false} SeparatedConcat(a: seq<Interval>, b: seq<Interval>)
    requires Separated(a) && Separated(b)
    requires |a| > 0 && |b| > 0 ==> Sep(a[|a| - 1], b[0])
    ensures Separated(a + b)
    decreases |a|
  {
    if |a| == 0 {
      assert a + b == b;
    } else {
      assert (a + b)[1..] == a[1..] + b;
      SeparatedConcat(a[1..], b);
    }
  }

  /** Prepending a proper interval that ends before the list starts. */
  lemma SeparatedCons(I: Interval, s: seq<Interval>)
    requires Proper(I) && Separated(s) && (|s| > 0 ==> Sep(I, s[0]))
    ensures Separated([I] + s)
  {
    assert ([I] + s)[1..] == s;
  }

  // ---------------------------------------------------------------------
  // Uniqueness of the canonical form
  // ---------------------------------------------------------------------

  /** `A` starts before `B`: some point at the start of `A` precedes all of `B`. */
  predicate StartsBefore(A: Interval, B: Interval) {
    Lt(A.lo, B.lo) || (Eq(A.lo, B.lo) && A.lc && !B.lc)
  }

  /** `A` ends before `B`: some point at the end of `B` follows all of `A`. */
  predicate EndsBefore(A: Interval, B: Interval) {
    Lt(A.hi, B.hi) || (Eq(A.hi, B.hi) && !A.rc && B.rc)
  }

  ghost predicate SamePoints(s: seq<Interval>, t: seq<Interval>) {
    forall x :: Mem(s, x) <==> Mem(t, x)
  }

  /** A point at the start of `s` that `t` lacks, when `s` starts before `t`. */
  lemma StartWitness(s: seq<Interval>, t: seq<Interval>)
    requires Separated(s) && Separated(t) && |s| > 0 && |t| > 0
    ensures StartsBefore(s[0], t[0]) ==> exists p :: Mem(s, p) && !Mem(t, p)
  {
    var A, B := s[0], t[0];
    if StartsBefore(A, B) {
      var p := if A.lc then A.lo else Between(A.lo, Min(A.hi, B.lo));
      assert Contains(A, p);
      assert !AfterStart(p, B.lo, B.lc);
      if Mem(t, p) {
        MemLowerBound(t, p);
      }
      assert Mem(s, p) && !Mem(t, p);
    }
  }

  /** A point at the end of `t` that `s` lacks, when both start alike and `s` ends first. */
  lemma EndWitness(s: seq<Interval>, t: seq<Interval>)
    requires Separated(s) && Separated(t) && |s| > 0 && |t| > 0
    requires s[0].lo == t[0].lo && s[0].lc == t[0].lc
    ensures EndsBefore(s[0], t[0]) ==> exists p :: Mem(t, p) && !Mem(s, p)
  {
    var A, B := s[0], t[0];
    if EndsBefore(A, B) {
      var p: Bound;
      if !A.rc {
        p := A.hi;
        assert Lt(A.lo, A.hi);
      } else {
        var m := if |s| > 1 then Min(B.hi, s[1].lo) else B.hi;
        assert Lt(A.hi, m);
        p := Between(A.hi, m);
        if |s| > 1 && Mem(s[1..], p) {
          MemLowerBound(s[1..], p);
        }
      }
      ContainsSplit(B, p);
      assert Contains(B, p);
      assert !Contains(A, p);
      if Mem(s[1..], p) {
        TailAbove(s, p);
      }
      assert Mem(t, p) && !Mem(s, p);
    }
  }

  /** A separated list has a point exactly when it is not empty. */
  lemma HasPoint(s: seq<Interval>)
    requires Separated(s)
    ensures |s| > 0 ==> exists p :: Mem(s, p)
  {
    if |s| > 0 {
      var w := Witness(s[0]);
      assert Mem(s, w);
    }
  }

  lemma HeadsEqual(s: seq<Interval>, t: seq<Interval>)
    requires Separated(s) && Separated(t) && |s| > 0 && |t| > 0
    requires SamePoints(s, t)
    ensures s[0] == t[0]
  {
    StartWitness(s, t);
    StartWitness(t, s);
    EndWitness(s, t);
    EndWitness(t, s);
  }

  /** Two separated lists with the same points are the same list. */
  lemma {:induction false} Uniqueness(s: seq<Interval>, t: seq<Interval>)
    requires Separated(s) && Separated(t)
    requires SamePoints(s, t)
    ensures s == t
    decreases |s|
  {
    HasPoint(s);
    HasPoint(t);
    if |s| > 0 && |t| > 0 {
      HeadsEqual(s, t);
      forall x ensures Mem(s[1..], x) <==> Mem(t[1..], x) {
        if Mem(s[1..], x) {
          TailAbove(s, x);
          assert Mem(s, x);
        }
        if Mem(t[1..], x) {
          TailAbove(t, x);
          assert Mem(t, x);
        }
      }
      Uniqueness(s[1..], t[1..]);
      assert s == [s[0]] + s[1..];
      assert t == [t[0]] + t[1..];
    }
  }

  /**
   * The canonical form is unique: two non-NaN canonical unions containing the
   * same points are identical.
   */
  lemma CanonicalUnique(A: IntervalUnion, B: IntervalUnion)
    requires Canonical(A) && Canonical(B) && !IsNaNUnion(A) && !IsNaNUnion(B)
    requires forall x :: Mem(A.intervals, x) <==> Mem(B.intervals, x)
    ensures A == B
  {
    Uniqueness(A.intervals, B.intervals);
  }
}
