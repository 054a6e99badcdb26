/**
 * Union of two canonical interval unions: merge the two sorted lists by the
 * sort comparator (taking the left union's interval first only when it starts
 * strictly before the right one's), then coalesce the merged list in one pass.
 */
module UnionJoin {
  import opened Bounds
  import opened Intervals
  import opened IntervalUnions
  import opened Canonicalise

  /** Every interval of `s` starts no earlier than `h`. */
  predicate AllFrom(h: Interval, s: seq<Interval>) {
    forall k :: 0 <= k < |s| ==> SortLe(h, s[k])
  }

  /** A list made of the elements of `a` and `b` inherits a lower start bound common to both. */
  lemma AllFromMultiset(h: Interval, m: seq<Interval>, a: seq<Interval>, b: seq<Interval>)
    requires multiset(m) == multiset(a) + multiset(b)
    requires AllFrom(h, a) && AllFrom(h, b)
    ensures AllFrom(h, m)
  {
    forall k | 0 <= k < |m| ensures SortLe(h, m[k]) {
      assert m[k] in multiset(m);
      if m[k] in multiset(a) {
        var j :| 0 <= j < |a| && a[j] == m[k];
      } else {
        assert m[k] in multiset(b);
        var j :| 0 <= j < |b| && b[j] == m[k];
      }
    }
  }

  /** The head of a sorted list starts no later than anything after it. */
  lemma HeadFirst(s: seq<Interval>)
    requires SortedByStart(s) && |s| > 0
    ensures AllFrom(s[0], s[1..]) && SortedByStart(s[1..])
  {
    forall k | 0 <= k < |s[1..]| ensures SortLe(s[0], s[1..][k]) {
      assert s[1..][k] == s[k + 1];
    }
    forall i, j | 0 <= i < j < |s[1..]| ensures SortLe(s[1..][i], s[1..][j]) {
      assert s[1..][i] == s[i + 1] && s[1..][j] == s[j + 1];
    }
  }

  /** A bound below the head of a sorted list is below all of it. */
  lemma BelowHead(h: Interval, s: seq<Interval>)
    requires SortedByStart(s) && |s| > 0 && SortLe(h, s[0])
    ensures AllFrom(h, s)
  {
    forall k | 0 <= k < |s| ensures SortLe(h, s[k]) {
      if k > 0 {
        SortLeTrans(h, s[0], s[k]);
      }
    }
  }

  lemma AllProperTail(s: seq<Interval>)
    requires AllProper(s) && |s| > 0
    ensures AllProper(s[1..]) && Proper(s[0])
  {
    forall k | 0 <= k < |s[1..]| ensures Proper(s[1..][k]) {
      assert s[1..][k] == s[k + 1];
    }
  }

  /** The merge loop of `operator||` with the two leftover tails appended. */
  function Merge(a: seq<Interval>, b: seq<Interval>): (m: seq<Interval>)
    requires AllProper(a) && SortedByStart(a) && AllProper(b) && SortedByStart(b)
    ensures multiset(m) == multiset(a) + multiset(b)
    ensures AllProper(m) && SortedByStart(m)
    decreases |a| + |b|
  {
    if |a| == 0 then
      assert a + b == b;
      b
    else if |b| == 0 then
      a
    else
      AllProperTail(a);
      AllProperTail(b);
      HeadFirst(a);
      HeadFirst(b);
      if Less(a[0], b[0]) then
        var rest := Merge(a[1..], b);
        BelowHead(a[0], b);
        ConsOnto(a[0], rest, a[1..], b);
        assert a == [a[0]] + a[1..];
        [a[0]] + rest
      else
        var rest := Merge(a, b[1..]);
        SortLeTotal(a[0], b[0]);
        BelowHead(b[0], a);
        ConsOnto(b[0], rest, a, b[1..]);
        assert b == [b[0]] + b[1..];
        [b[0]] + rest
  }

  /** Prepending `h` to a merge of `x` and `y` that `h` starts no later than keeps the merge sorted and proper. */
  lemma ConsOnto(h: Interval, rest: seq<Interval>, x: seq<Interval>, y: seq<Interval>)
    requires Proper(h) && AllProper(rest) && SortedByStart(rest)
    requires multiset(rest) == multiset(x) + multiset(y)
    requires AllFrom(h, x) && AllFrom(h, y)
    ensures AllProper([h] + rest) && SortedByStart([h] + rest)
    ensures multiset([h] + rest) == multiset([h] + x) + multiset(y)
  {
    AllFromMultiset(h, rest, x, y);
    SortedCons(h, rest);
    forall k | 0 <= k < |[h] + rest| ensures Proper(([h] + rest)[k]) {
      if k > 0 {
        assert ([h] + rest)[k] == rest[k - 1];
      }
    }
  }

  /** `operator||`: NaN if either side is NaN, otherwise merge and coalesce. */
  function Join(A: IntervalUnion, B: IntervalUnion): (C: IntervalUnion)
    requires Canonical(A) && Canonical(B)
    ensures Canonical(C)
    ensures IsNaNUnion(C) <==> IsNaNUnion(A) || IsNaNUnion(B)
    ensures IsNaNUnion(C) ==> C == NaNUnion
    ensures !IsNaNUnion(C) ==>
      forall x :: Mem(C.intervals, x) <==> Mem(A.intervals, x) || Mem(B.intervals, x)
  {
    if IsNaNUnion(A) || IsNaNUnion(B) then NaNUnion
    else
      var a, b := A.intervals, B.intervals;
      SeparatedSorted(a);
      SeparatedSorted(b);
      var m := Merge(a, b);
      var r := CanonicaliseSorted(m);
      CanonicaliseSortedCorrect(m);
      forall x ensures Mem(r, x) <==> Mem(a, x) || Mem(b, x) {
        MemSameElements(m, a + b, x);
        MemConcat(a, b, x);
      }
      IntervalUnion(r)
  }
}
