/**
 * `FiniteSet<T>` over an integer element type: a vector kept sorted
 * ascending with no repeated value. Every constructor copies its elements
 * and then sorts and drops repeats; `&&` and `||` between two finite sets
 * are the standard library's merge walks (`set_intersection`, `set_union`).
 */
module FiniteSets {
  import opened NamedSets

  /** The element type: a signed or an unsigned integer type. */
  datatype ElemKind = Signed | Unsigned

  /** A finite set: its element type and its storage vector. */
  datatype FiniteSet = FiniteSet(kind: ElemKind, storage: seq<int>)

  predicate Sorted(s: seq<int>) {
    forall i, j :: 0 <= i < j < |s| ==> s[i] <= s[j]
  }

  predicate StrictlySorted(s: seq<int>) {
    forall i, j :: 0 <= i < j < |s| ==> s[i] < s[j]
  }

  /** Every element is a value of the element type. */
  predicate InRange(kind: ElemKind, s: seq<int>) {
    kind == Unsigned ==> forall k :: 0 <= k < |s| ==> s[k] >= 0
  }

  /** The class invariant: storage sorted ascending without repeats. */
  predicate Valid(F: FiniteSet) {
    StrictlySorted(F.storage) && InRange(F.kind, F.storage)
  }

  function Elements(s: seq<int>): set<int> {
    set x | x in s
  }

  // ---------------------------------------------------------------------
  // Construction: make_sorted_unique
  // ---------------------------------------------------------------------

  /** One step of the sort: place `x` into a sorted sequence. */
  function InsertSorted(x: int, s: seq<int>): (r: seq<int>)
    requires Sorted(s)
    ensures Sorted(r) && multiset(r) == multiset(s) + multiset{x}
  {
    if |s| == 0 then [x]
    else if x <= s[0] then [x] + s
    else
      var t := InsertSorted(x, s[1..]);
      InsertStep(x, s, t);
      [s[0]] + t
  }

  /** Placing `x` behind the head of `s` keeps the head first and the values counted. */
  lemma InsertStep(x: int, s: seq<int>, t: seq<int>)
    requires Sorted(s) && |s| > 0 && s[0] < x
    requires Sorted(t) && multiset(t) == multiset(s[1..]) + multiset{x}
    ensures Sorted([s[0]] + t) && multiset([s[0]] + t) == multiset(s) + multiset{x}
  {
    assert s == [s[0]] + s[1..];
    forall k | 0 <= k < |t| ensures s[0] <= t[k] {
      assert t[k] in multiset(t);
      if t[k] != x {
        assert t[k] in multiset(s[1..]);
        var j :| 0 <= j < |s[1..]| && s[1..][j] == t[k];
        assert s[j + 1] == t[k];
      }
    }
  }

  /** `std::sort`: a sorted permutation. */
  function Sort(c: seq<int>): (r: seq<int>)
    ensures Sorted(r) && multiset(r) == multiset(c)
  {
    if |c| == 0 then []
    else
      assert c == [c[0]] + c[1..];
      InsertSorted(c[0], Sort(c[1..]))
  }

  /** `std::unique` followed by `erase`: keep one value of each run of equal values. */
  function Unique(s: seq<int>): (r: seq<int>)
    ensures forall x :: x in r <==> x in s
    ensures forall i :: 0 <= i < |r| - 1 ==> r[i] != r[i + 1]
    ensures Sorted(s) ==> StrictlySorted(r)
    ensures |r| <= |s|
    ensures |s| > 0 ==> |r| > 0 && r[0] == s[0]
  {
    if |s| <= 1 then s
    else if s[0] == s[1] then
      var t := Unique(s[1..]);
      assert forall x :: x in s <==> x == s[0] || x in s[1..];
      t
    else
      var t := Unique(s[1..]);
      assert forall x :: x in s <==> x == s[0] || x in s[1..];
      assert Sorted(s) ==> forall k :: 0 <= k < |t| ==> s[0] < t[k] by {
        if Sorted(s) {
          forall k | 0 <= k < |t| ensures s[0] < t[k] {
            assert t[k] in s[1..];
            var j :| 0 <= j < |s[1..]| && s[1..][j] == t[k];
            assert s[1] <= s[j + 1];
          }
        }
      }
      [s[0]] + t
  }

  /**
   * Every constructor: copy the elements, then sort them and drop repeated
   * values. `kind` is the element type the elements already belong to.
   */
  function Make(kind: ElemKind, c: seq<int>): (F: FiniteSet)
    requires InRange(kind, c)
    ensures Valid(F) && F.kind == kind
    ensures forall x :: x in F.storage <==> x in c
    ensures |F.storage| <= |c|
  {
    var sorted := Sort(c);
    SortSameElements(c);
    var s := Unique(sorted);
    assert InRange(kind, s) by {
      if kind == Unsigned {
        forall k | 0 <= k < |s| ensures s[k] >= 0 {
          assert s[k] in c;
          var j :| 0 <= j < |c| && c[j] == s[k];
        }
      }
    }
    FiniteSet(kind, s)
  }

  /** Sorting keeps the length and the values. */
  lemma SortSameElements(c: seq<int>)
    ensures |Sort(c)| == |c|
    ensures forall x :: x in Sort(c) <==> x in c
  {
    var sorted := Sort(c);
    forall x ensures x in sorted <==> x in c {
      assert x in sorted <==> x in multiset(sorted);
      assert x in c <==> x in multiset(c);
    }
    assert |sorted| == |multiset(sorted)| == |multiset(c)| == |c|;
  }

  /** In a strictly sorted sequence the head is the least element. */
  lemma HeadLeast(s: seq<int>)
    requires StrictlySorted(s) && |s| > 0
    ensures forall x :: x in s <==> x == s[0] || x in s[1..]
    ensures forall x :: x in s[1..] ==> s[0] < x
    ensures StrictlySorted(s[1..])
  {
    assert s == [s[0]] + s[1..];
    forall x | x in s[1..] ensures s[0] < x {
      var j :| 0 <= j < |s[1..]| && s[1..][j] == x;
      assert s[j + 1] == x;
    }
    forall i, j | 0 <= i < j < |s[1..]| ensures s[1..][i] < s[1..][j] {
      assert s[1..][i] == s[i + 1] && s[1..][j] == s[j + 1];
    }
  }

  /** Putting a value below every element in front keeps a sequence strictly sorted. */
  lemma StrictCons(h: int, s: seq<int>)
    requires StrictlySorted(s)
    requires forall x :: x in s ==> h < x
    ensures StrictlySorted([h] + s)
  {
    forall i, j | 0 <= i < j < |[h] + s| ensures ([h] + s)[i] < ([h] + s)[j] {
      if i == 0 {
        assert ([h] + s)[j] == s[j - 1];
        assert s[j - 1] in s;
      } else {
        assert ([h] + s)[i] == s[i - 1] && ([h] + s)[j] == s[j - 1];
      }
    }
  }

  /** Two sequences with the same values are empty together. */
  lemma SameElementsEmpty(s: seq<int>, t: seq<int>)
    requires forall x :: x in s <==> x in t
    ensures |s| == 0 <==> |t| == 0
  {
    if |s| > 0 {
      var y := s[0];
      assert y in s;
    }
    if |t| > 0 {
      var y := t[0];
      assert y in t;
    }
  }

  /** A strictly sorted sequence is determined by its elements. */
  lemma {:induction false} StrictlySortedUnique(s: seq<int>, t: seq<int>)
    requires StrictlySorted(s) && StrictlySorted(t)
    requires forall x :: x in s <==> x in t
    ensures s == t
    decreases |s|
  {
    if |s| == 0 || |t| == 0 {
      SameElementsEmpty(s, t);
    } else {
      HeadLeast(s);
      HeadLeast(t);
      assert s[0] in t && t[0] in s;
      assert s[0] == t[0];
      forall x ensures x in s[1..] <==> x in t[1..] {
      }
      StrictlySortedUnique(s[1..], t[1..]);
      assert s == [s[0]] + s[1..] && t == [t[0]] + t[1..];
    }
  }

  /** Constructing from a valid storage gives it back unchanged. */
  lemma MakeKeepsValid(F: FiniteSet)
    requires Valid(F)
    ensures Make(F.kind, F.storage) == F
  {
    StrictlySortedUnique(Make(F.kind, F.storage).storage, F.storage);
  }

  /** The constructed set depends only on which values the input holds: not on their order or repetition. */
  lemma MakeOnlyElements(kind: ElemKind, c: seq<int>, d: seq<int>)
    requires InRange(kind, c) && InRange(kind, d)
    requires forall x :: x in c <==> x in d
    ensures Make(kind, c) == Make(kind, d)
  {
    StrictlySortedUnique(Make(kind, c).storage, Make(kind, d).storage);
  }

  // ---------------------------------------------------------------------
  // Merge walks
  // ---------------------------------------------------------------------

  /** `std::set_intersection` on two strictly sorted ranges. */
  function IntersectWalk(a: seq<int>, b: seq<int>): (r: seq<int>)
    requires StrictlySorted(a) && StrictlySorted(b)
    ensures StrictlySorted(r)
    ensures forall x :: x in r <==> x in a && x in b
    decreases |a| + |b|
  {
    if |a| == 0 || |b| == 0 then []
    else
      HeadLeast(a);
      HeadLeast(b);
      if a[0] < b[0] then IntersectWalk(a[1..], b)
      else if !(b[0] < a[0]) then
        var t := IntersectWalk(a[1..], b[1..]);
        StrictCons(a[0], t);
        [a[0]] + t
      else IntersectWalk(a, b[1..])
  }

  /** `std::set_union` on two strictly sorted ranges. */
  function UnionWalk(a: seq<int>, b: seq<int>): (r: seq<int>)
    requires StrictlySorted(a) && StrictlySorted(b)
    ensures StrictlySorted(r)
    ensures forall x :: x in r <==> x in a || x in b
    decreases |a| + |b|
  {
    if |a| == 0 then b
    else if |b| == 0 then a
    else
      HeadLeast(a);
      HeadLeast(b);
      if b[0] < a[0] then
        var t := UnionWalk(a, b[1..]);
        StrictCons(b[0], t);
        [b[0]] + t
      else if !(a[0] < b[0]) then
        var t := UnionWalk(a[1..], b[1..]);
        StrictCons(a[0], t);
        [a[0]] + t
      else
        var t := UnionWalk(a[1..], b);
        StrictCons(a[0], t);
        [a[0]] + t
  }

  /** `2^32`: one more than the largest `unsigned`. */
  const TwoTo32: int := 0x1_0000_0000

  /**
   * A value as `operator<` sees it. When an `int` meets an `unsigned`, the
   * `int` is converted to `unsigned`, so a negative value counts modulo
   * `2^32`; within one element type nothing is converted.
   */
  function CompareKey(mixed: bool, x: int): (k: int)
    ensures x >= 0 || !mixed ==> k == x
    ensures mixed && x < 0 ==> k == x + TwoTo32
  {
    if mixed && x < 0 then x + TwoTo32 else x
  }

  /** `x` compares equal to an element of `b`: the same value, or, across signedness, one `2^32` apart. */
  predicate MatchesIn(mixed: bool, x: int, b: seq<int>) {
    x in b || (mixed && (x + TwoTo32 in b || x - TwoTo32 in b))
  }

  /**
   * `std::set_intersection` as the code runs it: both ranges walked with
   * the converted comparison, emitting the left element when neither
   * compares less. When the conversion breaks the sorted order of a range,
   * the walk still runs, and loses elements.
   */
  function IntersectMixedWalk(a: seq<int>, b: seq<int>, mixed: bool): (r: seq<int>)
    ensures forall x :: x in r ==> x in a
    ensures forall x :: x in r ==> MatchesIn(mixed, x, b)
    ensures StrictlySorted(a) ==> StrictlySorted(r)
    decreases |a| + |b|
  {
    if |a| == 0 || |b| == 0 then []
    else
      var ka, kb := CompareKey(mixed, a[0]), CompareKey(mixed, b[0]);
      if ka < kb then
        var t := IntersectMixedWalk(a[1..], b, mixed);
        assert forall x :: x in a[1..] ==> x in a;
        assert StrictlySorted(a) ==> StrictlySorted(a[1..]);
        t
      else if !(kb < ka) then
        var t := IntersectMixedWalk(a[1..], b[1..], mixed);
        assert forall x :: x in a[1..] ==> x in a;
        assert forall x :: x in b[1..] ==> x in b;
        assert StrictlySorted(a) ==> StrictlySorted([a[0]] + t) by {
          if StrictlySorted(a) {
            HeadLeast(a);
            StrictCons(a[0], t);
          }
        }
        [a[0]] + t
      else
        var t := IntersectMixedWalk(a, b[1..], mixed);
        assert forall x :: x in b[1..] ==> x in b;
        t
  }

  /** Every value of `s` compares as itself. */
  predicate KeysExact(mixed: bool, s: seq<int>) {
    forall k :: 0 <= k < |s| ==> CompareKey(mixed, s[k]) == s[k]
  }

  /** Where no value is converted, the walk as the code runs it is the walk over mathematical integers. */
  lemma {:induction false} MixedWalkExact(a: seq<int>, b: seq<int>, mixed: bool)
    requires StrictlySorted(a) && StrictlySorted(b) && KeysExact(mixed, a) && KeysExact(mixed, b)
    ensures IntersectMixedWalk(a, b, mixed) == IntersectWalk(a, b)
    decreases |a| + |b|
  {
    if |a| > 0 && |b| > 0 {
      assert CompareKey(mixed, a[0]) == a[0] && CompareKey(mixed, b[0]) == b[0];
      assert KeysExact(mixed, a[1..]) && KeysExact(mixed, b[1..]) by {
        forall k | 0 <= k < |a[1..]| ensures CompareKey(mixed, a[1..][k]) == a[1..][k] {
          assert a[1..][k] == a[k + 1];
        }
        forall k | 0 <= k < |b[1..]| ensures CompareKey(mixed, b[1..][k]) == b[1..][k] {
          assert b[1..][k] == b[k + 1];
        }
      }
      HeadLeast(a);
      HeadLeast(b);
      if a[0] < b[0] {
        MixedWalkExact(a[1..], b, mixed);
      } else if !(b[0] < a[0]) {
        MixedWalkExact(a[1..], b[1..], mixed);
      } else {
        MixedWalkExact(a, b[1..], mixed);
      }
    }
  }

  /**
   * The elements of `F` and `G` compare as mathematical integers: the two
   * have the same element type, or no element of either is negative.
   */
  predicate OrdersAgree(F: FiniteSet, G: FiniteSet) {
    F.kind == G.kind
    || ((forall k :: 0 <= k < |F.storage| ==> F.storage[k] >= 0)
        && (forall k :: 0 <= k < |G.storage| ==> G.storage[k] >= 0))
  }

  /**
   * `F && G` for two finite sets; the result has the left operand's
   * element type. Where the comparisons agree with the integers it holds
   * exactly the common elements; otherwise only elements of `F` that
   * match an element of `G` modulo `2^32`.
   */
  function Intersect(F: FiniteSet, G: FiniteSet): (H: FiniteSet)
    requires Valid(F) && Valid(G)
    ensures Valid(H) && H.kind == F.kind
    ensures forall x :: x in H.storage ==> x in F.storage
    ensures forall x :: x in H.storage ==> MatchesIn(F.kind != G.kind, x, G.storage)
    ensures OrdersAgree(F, G) ==> forall x :: x in H.storage <==> x in F.storage && x in G.storage
  {
    var mixed := F.kind != G.kind;
    var s := IntersectMixedWalk(F.storage, G.storage, mixed);
    assert OrdersAgree(F, G) ==> s == IntersectWalk(F.storage, G.storage) by {
      if OrdersAgree(F, G) {
        MixedWalkExact(F.storage, G.storage, mixed);
      }
    }
    assert InRange(F.kind, s) by {
      if F.kind == Unsigned {
        forall k | 0 <= k < |s| ensures s[k] >= 0 {
          assert s[k] in F.storage;
        }
      }
    }
    FiniteSet(F.kind, s)
  }

  /**
   * Mixing signedness loses common elements: `{-1, 5} && {5u}` compares
   * `-1` as `2^32 - 1`, so the right range runs out before `5` is met,
   * and the same happens with the operands swapped.
   */
  lemma MixedSignsLoseElements()
    ensures var F, G := FiniteSet(Signed, [-1, 5]), FiniteSet(Unsigned, [5]);
      Valid(F) && Valid(G) && 5 in F.storage && 5 in G.storage
      && Intersect(F, G).storage == [] && Intersect(G, F).storage == []
  {
    var F, G := FiniteSet(Signed, [-1, 5]), FiniteSet(Unsigned, [5]);
    assert CompareKey(true, -1) == TwoTo32 - 1;
    assert IntersectMixedWalk(F.storage, G.storage, true) == IntersectMixedWalk(F.storage, G.storage[1..], true);
    assert IntersectMixedWalk(G.storage, F.storage, true) == IntersectMixedWalk(G.storage[1..], F.storage, true);
  }

  /**
   * The element type of a union: unsigned when both are, signed otherwise
   * (elements are compared as mathematical integers).
   */
  function CommonKind(a: ElemKind, b: ElemKind): ElemKind {
    if a == Unsigned && b == Unsigned then Unsigned else Signed
  }

  /** `F || G` for two finite sets. */
  function Union(F: FiniteSet, G: FiniteSet): (H: FiniteSet)
    requires Valid(F) && Valid(G)
    ensures Valid(H) && H.kind == CommonKind(F.kind, G.kind)
    ensures forall x :: x in H.storage <==> x in F.storage || x in G.storage
  {
    var s := UnionWalk(F.storage, G.storage);
    var kind := CommonKind(F.kind, G.kind);
    assert InRange(kind, s) by {
      if kind == Unsigned {
        forall k | 0 <= k < |s| ensures s[k] >= 0 {
          assert s[k] in F.storage || s[k] in G.storage;
        }
      }
    }
    FiniteSet(kind, s)
  }

  // ---------------------------------------------------------------------
  // Size
  // ---------------------------------------------------------------------

  /** `size()`: the length of the storage. */
  function Size(F: FiniteSet): nat {
    |F.storage|
  }

  /** The length of a strictly sorted sequence is the number of values it holds. */
  lemma {:induction false} DistinctLength(s: seq<int>)
    requires StrictlySorted(s)
    ensures |Elements(s)| == |s|
    decreases |s|
  {
    if |s| > 0 {
      HeadLeast(s);
      DistinctLength(s[1..]);
      assert Elements(s) == {s[0]} + Elements(s[1..]);
      assert s[0] !in Elements(s[1..]);
    } else {
      assert Elements(s) == {};
    }
  }

  /** `size()` counts the distinct elements of the set. */
  lemma SizeCountsElements(F: FiniteSet)
    requires Valid(F)
    ensures Size(F) == |Elements(F.storage)|
  {
    DistinctLength(F.storage);
  }

  /** Sizes of `&&` and `||` add up to the sizes of the operands. */
  lemma InclusionExclusion(F: FiniteSet, G: FiniteSet)
    requires Valid(F) && Valid(G) && OrdersAgree(F, G)
    ensures Size(Intersect(F, G)) + Size(Union(F, G)) == Size(F) + Size(G)
    ensures Size(Intersect(F, G)) <= Size(F) && Size(F) <= Size(Union(F, G))
  {
    var I, U := Intersect(F, G), Union(F, G);
    SizeCountsElements(F);
    SizeCountsElements(G);
    SizeCountsElements(I);
    SizeCountsElements(U);
    var a, b := Elements(F.storage), Elements(G.storage);
    assert Elements(I.storage) == a * b;
    assert Elements(U.storage) == a + b;
    CardinalitySplit(a, b);
  }

  /** Counting the elements of two sets through their intersection and union. */
  lemma CardinalitySplit(a: set<int>, b: set<int>)
    ensures |a * b| + |a + b| == |a| + |b|
    ensures |a * b| <= |a| <= |a + b|
  {
    assert a == (a * b) + (a - b) && (a * b) * (a - b) == {};
    assert a + b == a + (b - a) && a * (b - a) == {};
  }

  // ---------------------------------------------------------------------
  // Finite sets against the named sets and other set types
  // ---------------------------------------------------------------------

  /** The elements of a signed set that are at least zero, in order. */
  function KeepNatural(s: seq<int>): (r: seq<int>)
    ensures forall x :: x in r <==> x in s && x >= 0
    ensures |r| <= |s|
  {
    if |s| == 0 then []
    else
      assert forall x :: x in s <==> x == s[0] || x in s[1..] by {
        assert s == [s[0]] + s[1..];
      }
      if s[0] >= 0 then [s[0]] + KeepNatural(s[1..]) else KeepNatural(s[1..])
  }

  /** How many elements come before the first non-negative one. */
  function CountNegative(s: seq<int>): (j: nat)
    ensures j <= |s|
    ensures forall k :: 0 <= k < j ==> s[k] < 0
    ensures j < |s| ==> s[j] >= 0
  {
    if |s| == 0 || s[0] >= 0 then 0 else 1 + CountNegative(s[1..])
  }

  /** On a sorted storage the kept elements are a suffix: everything from the first non-negative element on. */
  lemma {:induction false} KeepNaturalSuffix(s: seq<int>)
    requires StrictlySorted(s)
    ensures KeepNatural(s) == s[CountNegative(s)..]
    decreases |s|
  {
    if |s| == 0 {
    } else if s[0] >= 0 {
      forall k | 0 <= k < |s| ensures s[k] >= 0 {
        if k > 0 {
          assert s[0] < s[k];
        }
      }
      KeepAll(s);
    } else {
      HeadLeast(s);
      KeepNaturalSuffix(s[1..]);
      assert s[1..][CountNegative(s[1..])..] == s[CountNegative(s)..];
    }
  }

  /** The non-negative elements of a valid set form a valid set of the same type. */
  function NonNegativePart(F: FiniteSet): (H: FiniteSet)
    requires Valid(F)
    ensures Valid(H) && H.kind == F.kind
    ensures forall x :: x in H.storage <==> x in F.storage && x >= 0
  {
    var s := KeepNatural(F.storage);
    KeepNaturalSuffix(F.storage);
    var j := CountNegative(F.storage);
    assert StrictlySorted(s) by {
      forall a, b | 0 <= a < b < |s| ensures s[a] < s[b] {
        assert s[a] == F.storage[j + a] && s[b] == F.storage[j + b];
      }
    }
    assert InRange(F.kind, s);
    FiniteSet(F.kind, s)
  }

  /** Every point of an unsigned set is a natural number. */
  lemma UnsignedNatural(F: FiniteSet, x: real)
    requires Valid(F) && F.kind == Unsigned && InFinite(F, x)
    ensures InNamed(Naturals, x)
  {
    var k :| 0 <= k < |F.storage| && F.storage[k] == x.Floor;
  }

  /** When every element is non-negative nothing is dropped. */
  lemma {:induction false} KeepAll(s: seq<int>)
    requires forall k :: 0 <= k < |s| ==> s[k] >= 0
    ensures KeepNatural(s) == s
    decreases |s|
  {
    if |s| > 0 {
      assert forall k :: 0 <= k < |s[1..]| ==> s[1..][k] >= 0 by {
        forall k | 0 <= k < |s[1..]| ensures s[1..][k] >= 0 {
          assert s[1..][k] == s[k + 1];
        }
      }
      KeepAll(s[1..]);
      assert s == [s[0]] + s[1..];
    }
  }

  /** The right operand of `&&` or `||` as the overloads see it. */
  datatype Operand = FiniteOperand(G: FiniteSet) | NamedOperand(n: Named) | OtherSet

  /** What an operator returns: a finite set, a named set, or `none()`. */
  datatype Outcome = FiniteResult(F: FiniteSet) | NamedResult(n: Named) | NoneSet

  /** The result of `||` where C++ may offer no operator at all. */
  datatype UnionOutcome = NoOperator | Resolved(o: Outcome)

  /** The real `x` is an element of `F`. */
  predicate InFinite(F: FiniteSet, x: real) {
    IsWhole(x) && x.Floor in F.storage
  }

  /** The points of an operand. A set of another element type shares no value with `T`. */
  predicate InOperand(rhs: Operand, x: real) {
    match rhs
    case FiniteOperand(G) => InFinite(G, x)
    case NamedOperand(n) => InNamed(n, x)
    case OtherSet => false
  }

  predicate InOutcome(o: Outcome, x: real) {
    match o
    case FiniteResult(F) => InFinite(F, x)
    case NamedResult(n) => InNamed(n, x)
    case NoneSet => false
  }

  predicate ValidOperand(rhs: Operand) {
    rhs.FiniteOperand? ==> Valid(rhs.G)
  }

  /**
   * `F && rhs` on a non-const `F`: the finite-set merge walk; against the
   * naturals the set itself when unsigned and its non-negative elements when
   * signed; against the integers and the reals the set itself; against any
   * other set type `none()`.
   */
  function And(F: FiniteSet, rhs: Operand): (o: Outcome)
    requires Valid(F) && ValidOperand(rhs)
    ensures forall x :: InOutcome(o, x) ==> InFinite(F, x)
    ensures !rhs.FiniteOperand? || OrdersAgree(F, rhs.G) ==>
      forall x :: InOutcome(o, x) <==> InFinite(F, x) && InOperand(rhs, x)
    ensures o.FiniteResult? ==> Valid(o.F) && o.F.kind == F.kind
  {
    match rhs
    case FiniteOperand(G) => FiniteResult(Intersect(F, G))
    case NamedOperand(Naturals) =>
      if F.kind == Unsigned then
        forall x | InFinite(F, x) ensures InNamed(Naturals, x) {
          UnsignedNatural(F, x);
        }
        FiniteResult(F)
      else
        FiniteResult(NonNegativePart(F))
    case NamedOperand(Integers) => FiniteResult(F)
    case NamedOperand(Reals) => FiniteResult(F)
    case OtherSet => NoneSet
  }

  /**
   * `F && rhs` on a const `F`. The overloads for the named sets are
   * non-const members, so only the finite-set walk and the generic
   * `none()` overload remain.
   */
  function AndConst(F: FiniteSet, rhs: Operand): (o: Outcome)
    requires Valid(F) && ValidOperand(rhs)
    ensures rhs.FiniteOperand? ==> o == And(F, rhs)
    ensures !rhs.FiniteOperand? ==> forall x :: !InOutcome(o, x)
  {
    match rhs
    case FiniteOperand(G) => FiniteResult(Intersect(F, G))
    case _ => NoneSet
  }

  /** On a const set, `&&` with the naturals loses every element: `{1} && N` is `none()`. */
  lemma ConstAndLosesElements()
    ensures var F := FiniteSet(Signed, [1]);
      AndConst(F, NamedOperand(Naturals)) == NoneSet
      && InFinite(F, 1.0) && InNamed(Naturals, 1.0)
      && !InOutcome(AndConst(F, NamedOperand(Naturals)), 1.0)
      && InOutcome(And(F, NamedOperand(Naturals)), 1.0)
  {
    var F := FiniteSet(Signed, [1]);
    assert IsWhole(1.0) && 1.0.Floor == 1;
    assert F.storage[0] == 1;
  }

  /**
   * `F || rhs` on a non-const `F`: the finite-set merge walk; against the
   * naturals the naturals when `F` is unsigned (no operator when signed);
   * against the integers and the reals the named set; no operator against
   * any other set type.
   */
  function Or(F: FiniteSet, rhs: Operand): (u: UnionOutcome)
    requires Valid(F) && ValidOperand(rhs)
    ensures u.Resolved? ==> forall x :: InOutcome(u.o, x) <==> InFinite(F, x) || InOperand(rhs, x)
    ensures u.NoOperator? <==> rhs.OtherSet? || (rhs == NamedOperand(Naturals) && F.kind == Signed)
  {
    match rhs
    case FiniteOperand(G) => Resolved(FiniteResult(Union(F, G)))
    case NamedOperand(Naturals) =>
      if F.kind == Unsigned then
        forall x | InFinite(F, x) ensures InNamed(Naturals, x) {
          UnsignedNatural(F, x);
        }
        Resolved(NamedResult(Naturals))
      else NoOperator
    case NamedOperand(n) => Resolved(NamedResult(n))
    case OtherSet => NoOperator
  }

  // ---------------------------------------------------------------------
  // Printing
  // ---------------------------------------------------------------------

  /** Output is a sequence of characters and printed element values. */
  datatype Out = Char(c: char) | Value(v: int)

  /** `operator<<`: `{`, the elements separated by `, `, then `}`. */
  method Print(F: FiniteSet) returns (out: seq<Out>)
    ensures |out| == if |F.storage| == 0 then 2 else 3 * |F.storage|
    ensures out[0] == Char('{') && out[|out| - 1] == Char('}')
    ensures forall k :: 0 <= k < |F.storage| ==> out[3 * k + 1] == Value(F.storage[k])
    ensures forall k :: 1 <= k < |F.storage| ==> out[3 * k - 1] == Char(',') && out[3 * k] == Char(' ')
  {
    var s := F.storage;
    out := [Char('{')];
    if |s| > 0 {
      out := out + [Value(s[0])];
      var i := 1;
      while i < |s|
        invariant 1 <= i <= |s|
        invariant |out| == 3 * i - 1
        invariant out[0] == Char('{')
        invariant forall k :: 0 <= k < i ==> out[3 * k + 1] == Value(s[k])
        invariant forall k :: 1 <= k < i ==> out[3 * k - 1] == Char(',') && out[3 * k] == Char(' ')
      {
        out := out + [Char(','), Char(' '), Value(s[i])];
        i := i + 1;
      }
    }
    out := out + [Char('}')];
  }
}
