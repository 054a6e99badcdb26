/**
 * Queries on a canonical interval union: point membership by binary search
 * over the right bounds (`operator()`), and the comparisons `==` and `!=`.
 */
module UnionQueries {
  import opened Bounds
  import opened Intervals
  import opened IntervalUnions

  /** In a separated list the right bounds strictly increase. */
  lemma EndsIncrease(s: seq<Interval>, i: nat, j: nat)
    requires Separated(s) && i < j < |s|
    ensures Lt(s[i].hi, s[j].hi)
  {
    SeparatedPair(s, i, j);
    SeparatedProper(s);
  }

  /**
   * When every interval before `i` ends below `x` and `s[i]` does not, only
   * `s[i]` can contain `x`.
   */
  lemma LowerBoundDecides(s: seq<Interval>, i: nat, x: Bound)
    requires Separated(s) && i < |s|
    requires forall k :: 0 <= k < i ==> Lt(s[k].hi, x)
    requires !Lt(s[i].hi, x)
    ensures Mem(s, x) <==> Contains(s[i], x)
  {
    MemIndex(s, x);
    SeparatedProper(s);
    if Mem(s, x) {
      var k :| 0 <= k < |s| && Contains(s[k], x);
      ContainsSplit(s[k], x);
      if k > i {
        SeparatedPair(s, i, k);
        Trichotomy(s[i].hi, x);
      }
    }
  }

  /** When every interval ends below `x`, none contains it. */
  lemma AllBelow(s: seq<Interval>, x: Bound)
    requires Separated(s)
    requires forall k :: 0 <= k < |s| ==> Lt(s[k].hi, x)
    ensures !Mem(s, x)
  {
    MemIndex(s, x);
    SeparatedProper(s);
    if Mem(s, x) {
      var k :| 0 <= k < |s| && Contains(s[k], x);
      ContainsSplit(s[k], x);
      Trichotomy(s[k].hi, x);
    }
  }

  /**
   * `A(x)`: find the first interval whose right bound is not below `x`
   * (`std::lower_bound`) and test `x` against it; past the end the answer is
   * no.
   */
  method Lookup(A: IntervalUnion, x: Bound) returns (r: bool)
    requires Canonical(A)
    ensures r <==> Mem(A.intervals, x)
  {
    var s := A.intervals;
    var lo, hi := 0, |s|;
    while lo < hi
      invariant 0 <= lo <= hi <= |s|
      invariant forall k :: 0 <= k < lo ==> Lt(s[k].hi, x)
      invariant forall k :: hi <= k < |s| ==> !Lt(s[k].hi, x)
      decreases hi - lo
    {
      var mid := (lo + hi) / 2;
      if Lt(s[mid].hi, x) {
        if Separated(s) {
          forall k | 0 <= k < mid ensures Lt(s[k].hi, x) {
            EndsIncrease(s, k, mid);
            LtTrans(s[k].hi, s[mid].hi, x);
          }
        }
        lo := mid + 1;
      } else {
        if Separated(s) {
          forall k | mid < k < |s| ensures !Lt(s[k].hi, x) {
            EndsIncrease(s, mid, k);
            if Lt(s[k].hi, x) {
              LtTrans(s[mid].hi, s[k].hi, x);
            }
          }
        }
        hi := mid;
      }
    }
    if lo == |s| {
      AllBelow(s, x);
      r := false;
    } else {
      if s == [NaNInterval] {
        NothingInEmpty(s[0], x);
      } else {
        LowerBoundDecides(s, lo, x);
      }
      r := Contains(s[lo], x);
    }
  }

  /**
   * `A == B`: false if either side is NaN or the sizes differ, otherwise the
   * intervals compared pairwise with the interval `!=`. On canonical unions
   * this is structural equality, and hence equality of the point sets.
   */
  method Equals(A: IntervalUnion, B: IntervalUnion) returns (eq: bool)
    requires Canonical(A) && Canonical(B)
    ensures eq <==> !IsNaNUnion(A) && !IsNaNUnion(B) && A == B
    ensures eq <==> !IsNaNUnion(A) && !IsNaNUnion(B) && SamePoints(A.intervals, B.intervals)
  {
    if !IsNaNUnion(A) && !IsNaNUnion(B) && SamePoints(A.intervals, B.intervals) {
      CanonicalUnique(A, B);
    }
    var a, b := A.intervals, B.intervals;
    if IsNaNUnion(A) || IsNaNUnion(B) || |a| != |b| {
      return false;
    }
    SeparatedProper(a);
    SeparatedProper(b);
    var i := 0;
    while i != |a|
      invariant 0 <= i <= |a|
      invariant forall k :: 0 <= k < i ==> a[k] == b[k]
      decreases |a| - i
    {
      EqualityMeaning(a[i], b[i]);
      if NotEqual(a[i], b[i]) {
        return false;
      }
      i := i + 1;
    }
    assert a == b;
    return true;
  }

  /** `A != B`: false if either side is NaN, the negation of `==` otherwise. */
  method NotEquals(A: IntervalUnion, B: IntervalUnion) returns (ne: bool)
    requires Canonical(A) && Canonical(B)
    ensures ne <==> !IsNaNUnion(A) && !IsNaNUnion(B) && A != B
  {
    if IsNaNUnion(A) || IsNaNUnion(B) {
      return false;
    }
    var eq := Equals(A, B);
    return !eq;
  }
}
