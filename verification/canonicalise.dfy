/**
 * Building a canonical interval union from arbitrary intervals: drop the
 * empty ones (or collapse to NaN when one is NaN), sort by left end, and
 * sweep left to right merging every interval that overlaps or touches the
 * one being built.
 */
module Canonicalise {
  import opened Bounds
  import opened Intervals
  import opened IntervalUnions

  // ---------------------------------------------------------------------
  // Sorting by left end
  // ---------------------------------------------------------------------

  /** The sort comparator: `I` starts strictly before `J`. */
  predicate Less(I: Interval, J: Interval) {
    Lt(I.lo, J.lo) || (Eq(I.lo, J.lo) && I.lc && !J.lc)
  }

  /** `I` starts no later than `J` (the negation of `Less(J, I)` on points). */
  predicate SortLe(I: Interval, J: Interval) {
    Lt(I.lo, J.lo) || (Eq(I.lo, J.lo) && (I.lc || !J.lc))
  }

  predicate SortedByStart(s: seq<Interval>) {
    forall i, j :: 0 <= i < j < |s| ==> SortLe(s[i], s[j])
  }

  predicate AllProper(s: seq<Interval>) {
    forall k :: 0 <= k < |s| ==> Proper(s[k])
  }

  lemma SortLeTotal(I: Interval, J: Interval)
    requires Proper(I) && Proper(J)
    ensures SortLe(I, J) || SortLe(J, I)
    ensures SortLe(I, J) <==> !Less(J, I)
  {
  }

  lemma SortLeTrans(I: Interval, J: Interval, K: Interval)
    requires SortLe(I, J) && SortLe(J, K)
    ensures SortLe(I, K)
  {
  }

  /** A separated list is sorted by left end. */
  lemma SeparatedSorted(s: seq<Interval>)
    requires Separated(s)
    ensures SortedByStart(s) && AllProper(s)
  {
    SeparatedProper(s);
    forall i, j | 0 <= i < j < |s| ensures SortLe(s[i], s[j]) {
      SeparatedPair(s, i, j);
    }
  }

  /** Prepending an element that starts no later than every element of a sorted list. */
  lemma SortedCons(h: Interval, s: seq<Interval>)
    requires SortedByStart(s) && forall k :: 0 <= k < |s| ==> SortLe(h, s[k])
    ensures SortedByStart([h] + s)
  {
    forall i, j | 0 <= i < j < |[h] + s| ensures SortLe(([h] + s)[i], ([h] + s)[j]) {
      assert ([h] + s)[j] == s[j - 1];
      if i > 0 {
        assert ([h] + s)[i] == s[i - 1];
      }
    }
  }

  /** Every element of a list carrying the same multiset as `x` plus `t` is `x` or an element of `t`. */
  lemma MultisetElements(r: seq<Interval>, x: Interval, t: seq<Interval>, k: nat)
    requires multiset(r) == multiset(t) + multiset{x} && k < |r|
    ensures r[k] == x || exists j :: 0 <= j < |t| && t[j] == r[k]
  {
    assert r[k] in multiset(r);
    if r[k] != x {
      assert r[k] in multiset(t);
      assert r[k] in t;
    }
  }

  /** Inserts `x` after every element that starts strictly before it. */
  function Insert(x: Interval, s: seq<Interval>): (r: seq<Interval>)
    requires Proper(x) && AllProper(s) && SortedByStart(s)
    ensures multiset(r) == multiset(s) + multiset{x}
    ensures AllProper(r) && SortedByStart(r)
    decreases |s|
  {
    if |s| == 0 then [x]
    else if SortLe(x, s[0]) then
      InsertFront(x, s);
      [x] + s
    else
      var rest := Insert(x, s[1..]);
      InsertBehind(x, s, rest);
      [s[0]] + rest
  }

  lemma InsertFront(x: Interval, s: seq<Interval>)
    requires Proper(x) && AllProper(s) && SortedByStart(s) && |s| > 0 && SortLe(x, s[0])
    ensures AllProper([x] + s) && SortedByStart([x] + s)
  {
    forall j | 0 <= j < |s| ensures SortLe(x, s[j]) {
      if j > 0 { SortLeTrans(x, s[0], s[j]); }
    }
    SortedCons(x, s);
  }

  lemma InsertBehind(x: Interval, s: seq<Interval>, rest: seq<Interval>)
    requires Proper(x) && AllProper(s) && SortedByStart(s) && |s| > 0 && !SortLe(x, s[0])
    requires multiset(rest) == multiset(s[1..]) + multiset{x}
    requires AllProper(rest) && SortedByStart(rest)
    ensures multiset([s[0]] + rest) == multiset(s) + multiset{x}
    ensures AllProper([s[0]] + rest) && SortedByStart([s[0]] + rest)
  {
    SortLeTotal(x, s[0]);
    assert s == [s[0]] + s[1..];
    forall k | 0 <= k < |rest| ensures SortLe(s[0], rest[k]) {
      MultisetElements(rest, x, s[1..], k);
      if rest[k] != x {
        var j :| 0 <= j < |s[1..]| && s[1..][j] == rest[k];
        assert s[j + 1] == rest[k];
      }
    }
    SortedCons(s[0], rest);
  }

  /** Insertion sort by left end; any order the comparator allows gives the same union. */
  function Sort(s: seq<Interval>): (r: seq<Interval>)
    requires AllProper(s)
    ensures multiset(r) == multiset(s)
    ensures AllProper(r) && SortedByStart(r)
    decreases |s|
  {
    if |s| == 0 then []
    else
      assert s == [s[0]] + s[1..];
      Insert(s[0], Sort(s[1..]))
  }

  // ---------------------------------------------------------------------
  // Merging a sorted run
  // ---------------------------------------------------------------------

  /** The intervals overlap, or touch at a bound where one of them is closed. */
  predicate Joinable(I: Interval, J: Interval) {
    (Lt(I.lo, J.hi) && Lt(J.lo, I.hi))
    || (Eq(I.hi, J.lo) && (I.rc || J.lc))
    || (Eq(J.hi, I.lo) && (J.rc || I.lc))
  }

  /** The smallest interval covering both: what `I` becomes when `J` is merged into it. */
  function Hull(I: Interval, J: Interval): Interval {
    Interval(
      if Lt(I.lo, J.lo) then I.lc else if Eq(I.lo, J.lo) then I.lc || J.lc else J.lc,
      Min(I.lo, J.lo),
      Max(I.hi, J.hi),
      if Lt(I.hi, J.hi) then J.rc else if Eq(I.hi, J.hi) then I.rc || J.rc else I.rc)
  }

  /** Merging joinable intervals loses and gains no point. */
  lemma HullContains(I: Interval, J: Interval)
    requires Proper(I) && Proper(J) && Joinable(I, J)
    ensures Proper(Hull(I, J))
    ensures forall x :: Contains(Hull(I, J), x) <==> Contains(I, x) || Contains(J, x)
  {
    var H := Hull(I, J);
    forall x ensures Contains(H, x) <==> Contains(I, x) || Contains(J, x) {
      ContainsSplit(I, x);
      ContainsSplit(J, x);
      ContainsSplit(H, x);
    }
  }

  /** When `I` starts no later than `J`, merging keeps the start of `I`. */
  lemma HullStart(I: Interval, J: Interval)
    requires Proper(I) && Proper(J) && SortLe(I, J)
    ensures Hull(I, J).lo == I.lo && Hull(I, J).lc == I.lc
  {
  }

  /** In sorted order, intervals that cannot be merged are separated. */
  lemma NotJoinableSep(I: Interval, J: Interval)
    requires Proper(I) && Proper(J) && SortLe(I, J) && !Joinable(I, J)
    ensures Sep(I, J)
  {
  }

  /**
   * The sweep over a sorted run: `w` is the interval being built, `rest` the
   * intervals still to read.
   */
  function Coalesce(w: Interval, rest: seq<Interval>): seq<Interval>
    decreases |rest|
  {
    if |rest| == 0 then [w]
    else if !Joinable(w, rest[0]) then [w] + Coalesce(rest[0], rest[1..])
    else Coalesce(Hull(w, rest[0]), rest[1..])
  }

  /** Merging a sorted, non-empty run; the empty run stays empty. */
  function CanonicaliseSorted(s: seq<Interval>): seq<Interval> {
    if |s| == 0 then [] else Coalesce(s[0], s[1..])
  }

  lemma SortedTail(w: Interval, rest: seq<Interval>)
    requires SortedByStart([w] + rest)
    ensures SortedByStart(rest)
    ensures forall k :: 0 <= k < |rest| ==> SortLe(w, rest[k])
  {
    forall i, j | 0 <= i < j < |rest| ensures SortLe(rest[i], rest[j]) {
      assert rest[i] == ([w] + rest)[i + 1];
      assert rest[j] == ([w] + rest)[j + 1];
    }
    forall k | 0 <= k < |rest| ensures SortLe(w, rest[k]) {
      assert ([w] + rest)[0] == w;
      assert rest[k] == ([w] + rest)[k + 1];
    }
  }

  lemma {:induction false} CoalesceCorrect(w: Interval, rest: seq<Interval>)
    requires Proper(w) && AllProper(rest) && SortedByStart([w] + rest)
    ensures Separated(Coalesce(w, rest))
    ensures |Coalesce(w, rest)| > 0
    ensures Coalesce(w, rest)[0].lo == w.lo && Coalesce(w, rest)[0].lc == w.lc
    ensures forall x :: Mem(Coalesce(w, rest), x) <==> Contains(w, x) || Mem(rest, x)
    decreases |rest|
  {
    if |rest| > 0 {
      SortedTail(w, rest);
      var R := rest[0];
      assert [R] + rest[1..] == rest;
      if !Joinable(w, R) {
        NotJoinableSep(w, R);
        CoalesceCorrect(R, rest[1..]);
        var tail := Coalesce(R, rest[1..]);
        SeparatedCons(w, tail);
        forall x ensures Mem([w] + tail, x) <==> Contains(w, x) || Mem(rest, x) {
          MemConcat([w], tail, x);
        }
      } else {
        HullContains(w, R);
        HullStart(w, R);
        var H := Hull(w, R);
        assert SortedByStart([H] + rest[1..]) by {
          forall i, j | 0 <= i < j < |[H] + rest[1..]|
            ensures SortLe(([H] + rest[1..])[i], ([H] + rest[1..])[j])
          {
            assert ([H] + rest[1..])[j] == rest[j];
            if i > 0 {
              assert ([H] + rest[1..])[i] == rest[i];
            }
          }
        }
        assert AllProper(rest[1..]) by {
          forall k | 0 <= k < |rest[1..]| ensures Proper(rest[1..][k]) {
            assert rest[1..][k] == rest[k + 1];
          }
        }
        CoalesceCorrect(H, rest[1..]);
      }
    }
  }

  /** A sorted run of proper intervals merges into a canonical list with the same points. */
  lemma CanonicaliseSortedCorrect(s: seq<Interval>)
    requires AllProper(s) && SortedByStart(s)
    ensures Separated(CanonicaliseSorted(s))
    ensures SamePoints(CanonicaliseSorted(s), s)
  {
    if |s| > 0 {
      assert s == [s[0]] + s[1..];
      assert AllProper(s[1..]) by {
        forall k | 0 <= k < |s[1..]| ensures Proper(s[1..][k]) {
          assert s[1..][k] == s[k + 1];
        }
      }
      CoalesceCorrect(s[0], s[1..]);
    }
  }

  /**
   * The in-place sweep: a write cursor `w` trails a read cursor `r`; a read
   * interval either merges into the one under the write cursor or is copied
   * to the next write position. The list is then truncated after `w`.
   */
  method CanonicaliseSortedInPlace(s: seq<Interval>) returns (r: seq<Interval>)
    ensures r == CanonicaliseSorted(s)
    ensures AllProper(s) && SortedByStart(s) ==> Separated(r) && SamePoints(r, s)
  {
    if |s| == 0 {
      return [];
    }
    var a := s;
    var w := 0;
    var rd := 1;
    while rd < |a|
      invariant |a| == |s| && 0 <= w < rd <= |a|
      invariant a[rd..] == s[rd..]
      invariant a[..w] + Coalesce(a[w], s[rd..]) == CanonicaliseSorted(s)
      decreases |a| - rd
    {
      SweepStep(a, s, w, rd);
      if !Joinable(a[w], a[rd]) {
        a := a[w + 1 := a[rd]];
        w := w + 1;
      } else {
        a := a[w := Hull(a[w], a[rd])];
      }
      rd := rd + 1;
    }
    r := a[..w + 1];
    assert r == a[..w] + [a[w]];
    if AllProper(s) && SortedByStart(s) {
      CanonicaliseSortedCorrect(s);
    }
  }

  /** One step of the in-place sweep keeps the sweep's invariant, whether it copies or merges. */
  lemma SweepStep(a: seq<Interval>, s: seq<Interval>, w: nat, rd: nat)
    requires |a| == |s| && w < rd < |a| && a[rd..] == s[rd..]
    requires a[..w] + Coalesce(a[w], s[rd..]) == CanonicaliseSorted(s)
    ensures !Joinable(a[w], a[rd]) ==>
      var a2 := a[w + 1 := a[rd]];
      a2[rd + 1..] == s[rd + 1..] && a2[..w + 1] + Coalesce(a2[w + 1], s[rd + 1..]) == CanonicaliseSorted(s)
    ensures Joinable(a[w], a[rd]) ==>
      var a2 := a[w := Hull(a[w], a[rd])];
      a2[rd + 1..] == s[rd + 1..] && a2[..w] + Coalesce(a2[w], s[rd + 1..]) == CanonicaliseSorted(s)
  {
    assert a[rd] == s[rd];
    CoalesceUnfold(a[w], s, rd);
    var prefix := a[..w];
    if !Joinable(a[w], a[rd]) {
      var a2 := a[w + 1 := a[rd]];
      assert a2[..w + 1] == prefix + [a[w]];
      assert a2[rd + 1..] == s[rd + 1..];
      assert prefix + [a[w]] + Coalesce(a2[w + 1], s[rd + 1..]) == prefix + ([a[w]] + Coalesce(a2[w + 1], s[rd + 1..]));
    } else {
      var a2 := a[w := Hull(a[w], a[rd])];
      assert a2[..w] == prefix;
      assert a2[rd + 1..] == s[rd + 1..];
    }
  }

  lemma CoalesceUnfold(w: Interval, s: seq<Interval>, rd: nat)
    requires rd < |s|
    ensures Coalesce(w, s[rd..]) ==
      if !Joinable(w, s[rd]) then [w] + Coalesce(s[rd], s[rd + 1..])
      else Coalesce(Hull(w, s[rd]), s[rd + 1..])
  {
    assert s[rd..][0] == s[rd];
    assert s[rd..][1..] == s[rd + 1..];
  }

  // ---------------------------------------------------------------------
  // Constructors
  // ---------------------------------------------------------------------

  predicate AllWellFormed(l: seq<Interval>) {
    forall k :: 0 <= k < |l| ==> WellFormed(l[k])
  }

  predicate HasNaN(l: seq<Interval>) {
    exists k :: 0 <= k < |l| && IsNaN(l[k])
  }

  /** What the list constructor collects: a NaN interval it met, or the non-empty intervals. */
  datatype Gathered = FoundNaN(nan: Interval) | Kept(proper: seq<Interval>)

  function Gather(l: seq<Interval>): (g: Gathered)
    requires AllWellFormed(l)
    ensures g.FoundNaN? <==> HasNaN(l)
    ensures g.FoundNaN? ==> g.nan == NaNInterval
    ensures g.Kept? ==> AllProper(g.proper) && SamePoints(g.proper, l)
    decreases |l|
  {
    if |l| == 0 then Kept([])
    else if IsNaN(l[0]) then FoundNaN(l[0])
    else
      var rest := Gather(l[1..]);
      GatherStep(l, rest);
      if rest.FoundNaN? then rest
      else if IsEmpty(l[0]) then rest
      else Kept([l[0]] + rest.proper)
  }

  lemma GatherStep(l: seq<Interval>, rest: Gathered)
    requires AllWellFormed(l) && |l| > 0 && !IsNaN(l[0])
    requires rest.FoundNaN? <==> HasNaN(l[1..])
    requires rest.Kept? ==> AllProper(rest.proper) && SamePoints(rest.proper, l[1..])
    ensures HasNaN(l) <==> HasNaN(l[1..])
    ensures rest.Kept? && IsEmpty(l[0]) ==> SamePoints(rest.proper, l)
    ensures rest.Kept? && !IsEmpty(l[0]) ==>
      AllProper([l[0]] + rest.proper) && SamePoints([l[0]] + rest.proper, l)
  {
    if HasNaN(l) {
      var k :| 0 <= k < |l| && IsNaN(l[k]);
      assert l[1..][k - 1] == l[k];
    }
    if HasNaN(l[1..]) {
      var k :| 0 <= k < |l[1..]| && IsNaN(l[1..][k]);
      assert l[k + 1] == l[1..][k];
    }
    if rest.Kept? {
      forall x ensures Mem([l[0]] + rest.proper, x) <==> Mem(l, x) {
        MemConcat([l[0]], rest.proper, x);
      }
      assert IsEmpty(l[0]) ==> l[0] == Empty;
      forall k | 0 <= k < |[l[0]] + rest.proper| && !IsEmpty(l[0])
        ensures Proper(([l[0]] + rest.proper)[k])
      {
        if k > 0 {
          assert ([l[0]] + rest.proper)[k] == rest.proper[k - 1];
        }
      }
    }
  }

  /**
   * The constructor from a list of intervals: a NaN interval makes the whole
   * union NaN; otherwise the empty intervals are dropped and the rest sorted
   * and merged. The result is canonical and has exactly the listed points.
   */
  function FromIntervals(l: seq<Interval>): (A: IntervalUnion)
    requires AllWellFormed(l)
    ensures Canonical(A)
    ensures HasNaN(l) <==> IsNaNUnion(A)
    ensures HasNaN(l) ==> A == NaNUnion
    ensures !HasNaN(l) ==> SamePoints(A.intervals, l)
  {
    match Gather(l)
    case FoundNaN(I) => IntervalUnion([I])
    case Kept(p) =>
      var sorted := Sort(p);
      CanonicaliseSortedCorrect(sorted);
      forall x ensures Mem(sorted, x) <==> Mem(p, x) {
        MemSameElements(sorted, p, x);
      }
      var r := CanonicaliseSorted(sorted);
      SeparatedProper(r);
      IntervalUnion(r)
  }

  /**
   * `std::sort` may order intervals with equal left ends either way; every
   * order it may choose is merged into the same canonical list.
   */
  lemma SortChoiceIrrelevant(p: seq<Interval>, q: seq<Interval>)
    requires AllProper(p) && multiset(q) == multiset(p) && SortedByStart(q)
    ensures CanonicaliseSorted(q) == CanonicaliseSorted(Sort(p))
  {
    var sorted := Sort(p);
    assert AllProper(q) by {
      forall k | 0 <= k < |q| ensures Proper(q[k]) {
        assert q[k] in multiset(p);
        var j :| 0 <= j < |p| && p[j] == q[k];
      }
    }
    CanonicaliseSortedCorrect(sorted);
    CanonicaliseSortedCorrect(q);
    forall x ensures Mem(sorted, x) <==> Mem(q, x) {
      MemSameElements(sorted, q, x);
    }
    Uniqueness(CanonicaliseSorted(q), CanonicaliseSorted(sorted));
  }

  /** The constructor from one interval: kept unless it is empty (a NaN interval is kept). */
  function FromInterval(I: Interval): (A: IntervalUnion)
    requires WellFormed(I)
    ensures Canonical(A)
    ensures IsNaN(I) <==> IsNaNUnion(A)
    ensures IsNaN(I) ==> A == NaNUnion
    ensures forall x :: Mem(A.intervals, x) <==> Contains(I, x)
  {
    if IsEmpty(I) then IntervalUnion([])
    else
      assert [I][1..] == [];
      assert IsNaN(I) ==> I == NaNInterval;
      assert !IsNaN(I) ==> Proper(I) && Separated([I][1..]);
      IntervalUnion([I])
  }
}
