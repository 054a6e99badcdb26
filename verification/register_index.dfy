/**
 * Index arithmetic of the function register: an argument tuple `t` over
 * dimension sizes `s` is stored at the row-major offset
 * Σ t[k]·∏_{j>k} s[j], so the last index varies fastest and the size of
 * dimension 0 never enters the computation.
 */
module RegisterIndex {

  /** The product of the sizes: the number of slots. */
  function Prod(s: seq<nat>): nat {
    if |s| == 0 then 1 else s[0] * Prod(s[1..])
  }

  /** Every index of `t` is below the size of its dimension. */
  predicate Fits(t: seq<nat>, s: seq<nat>) {
    |t| == |s| && forall k :: 0 <= k < |s| ==> t[k] < s[k]
  }

  /** Each size of `s` is at most the corresponding size of `s2`. */
  predicate NoSmaller(s: seq<nat>, s2: seq<nat>) {
    |s| == |s2| && forall k :: 0 <= k < |s| ==> s[k] <= s2[k]
  }

  /** The flat offset of tuple `t`. */
  function Offset(s: seq<nat>, t: seq<nat>): nat
    requires |t| == |s|
  {
    if |s| == 0 then 0 else t[0] * Prod(s[1..]) + Offset(s[1..], t[1..])
  }

  /** The tuple stored at offset `f`: the inverse of `Offset`. */
  function Indices(s: seq<nat>, f: nat): (t: seq<nat>)
    requires Prod(s) > 0
    ensures |t| == |s|
  {
    if |s| == 0 then []
    else
      ProdPositive(s);
      var p := Prod(s[1..]);
      [f / p] + Indices(s[1..], f % p)
  }

  // ---------------------------------------------------------------------
  // Arithmetic helpers
  // ---------------------------------------------------------------------

  lemma MulLe(x: nat, y: nat, b: nat)
    requires x <= y
    ensures x * b <= y * b
  {
  }

  /** A strictly larger factor adds at least one more `b`. */
  lemma MulLess(x: nat, y: nat, b: nat)
    requires x < y
    ensures x * b + b <= y * b
  {
    MulLe(x + 1, y, b);
    assert (x + 1) * b == x * b + b;
  }

  /** Dividing a remainder below `si * p` by `p` gives an index below `si`. */
  lemma PeelStep(si: nat, p: nat, rem: nat)
    requires si > 0 && p > 0 && rem < si * p
    ensures (si * p) / si == p
    ensures rem / p < si
    ensures rem - (rem / p) * p == rem % p
  {
    DivMod(p, si, 0);
    if rem / p >= si {
      MulLe(si, rem / p, p);
    }
  }

  /** Euclidean division recovers the quotient and the remainder it was built from. */
  lemma DivMod(a: nat, b: nat, c: nat)
    requires 0 < b && c < b
    ensures (a * b + c) / b == a && (a * b + c) % b == c
  {
    var f := a * b + c;
    var q, r := f / b, f % b;
    assert f == q * b + r;
    if q > a {
      MulLess(a, q, b);
    } else if q < a {
      MulLess(q, a, b);
    }
  }

  /** Euclidean division by a positive divisor: quotient times divisor plus remainder. */
  lemma Euclid(f: nat, p: nat)
    requires p > 0
    ensures f == (f / p) * p + f % p && f % p < p
  {
  }

  /** A positive product of sizes means every size is positive. */
  lemma ProdPositive(s: seq<nat>)
    requires Prod(s) > 0 && |s| > 0
    ensures s[0] > 0 && Prod(s[1..]) > 0
  {
  }

  /** Every size positive means a positive product. */
  lemma {:induction false} AllPositive(s: seq<nat>)
    requires forall k :: 0 <= k < |s| ==> s[k] > 0
    ensures Prod(s) > 0
    decreases |s|
  {
    if |s| > 0 {
      AllPositive(s[1..]);
    }
  }

  /** Growing sizes grow the product. */
  lemma {:induction false} ProdMonotone(s: seq<nat>, s2: seq<nat>)
    requires NoSmaller(s, s2)
    ensures Prod(s) <= Prod(s2)
    decreases |s|
  {
    if |s| > 0 {
      ProdMonotone(s[1..], s2[1..]);
      MulLe(s[0], s2[0], Prod(s[1..]));
      assert s2[0] * Prod(s[1..]) <= s2[0] * Prod(s2[1..]);
    }
  }

  lemma FitsTail(t: seq<nat>, s: seq<nat>)
    requires Fits(t, s) && |s| > 0
    ensures Fits(t[1..], s[1..])
  {
  }

  // ---------------------------------------------------------------------
  // Offsets and tuples
  // ---------------------------------------------------------------------

  /** A fitting tuple has an offset below the number of slots. */
  lemma {:induction false} OffsetBound(s: seq<nat>, t: seq<nat>)
    requires Fits(t, s)
    ensures Offset(s, t) < Prod(s)
    decreases |s|
  {
    if |s| > 0 {
      FitsTail(t, s);
      OffsetBound(s[1..], t[1..]);
      MulLess(t[0], s[0], Prod(s[1..]));
    }
  }

  /** The size of dimension 0 is never read. */
  lemma OffsetIgnoresFirst(s: seq<nat>, t: seq<nat>, m: nat)
    requires |t| == |s| > 0
    ensures Offset(s[0 := m], t) == Offset(s, t)
  {
    assert s[0 := m][1..] == s[1..];
  }

  /** An offset below the number of slots names a fitting tuple stored there. */
  lemma {:induction false} IndicesRoundTrip(s: seq<nat>, f: nat)
    requires f < Prod(s)
    ensures Fits(Indices(s, f), s)
    ensures Offset(s, Indices(s, f)) == f
    decreases |s|
  {
    if |s| > 0 {
      ProdPositive(s);
      var p := Prod(s[1..]);
      var q, r := f / p, f % p;
      Euclid(f, p);
      var t := Indices(s, f);
      assert t == [q] + Indices(s[1..], r);
      assert t[1..] == Indices(s[1..], r);
      IndicesRoundTrip(s[1..], r);
      if q >= s[0] {
        MulLe(s[0], q, p);
        assert false;
      }
      assert Offset(s, t) == q * p + Offset(s[1..], t[1..]);
    }
  }

  /** A fitting tuple is recovered from its offset. */
  lemma {:induction false} OffsetRoundTrip(s: seq<nat>, t: seq<nat>)
    requires Fits(t, s)
    ensures Prod(s) > 0
    ensures Indices(s, Offset(s, t)) == t
    decreases |s|
  {
    AllPositive(s);
    if |s| > 0 {
      FitsTail(t, s);
      OffsetRoundTrip(s[1..], t[1..]);
      OffsetBound(s[1..], t[1..]);
      var p := Prod(s[1..]);
      var f := Offset(s, t);
      DivMod(t[0], p, Offset(s[1..], t[1..]));
      assert Indices(s, f) == [t[0]] + Indices(s[1..], Offset(s[1..], t[1..]));
      assert t == [t[0]] + t[1..];
    }
  }

  /** Different fitting tuples have different offsets. */
  lemma OffsetInjective(s: seq<nat>, t: seq<nat>, u: seq<nat>)
    requires Fits(t, s) && Fits(u, s) && Offset(s, t) == Offset(s, u)
    ensures t == u
  {
    OffsetRoundTrip(s, t);
    OffsetRoundTrip(s, u);
  }

  /** Growing the sizes never moves a tuple to a lower offset. */
  lemma {:induction false} OffsetGrows(s: seq<nat>, s2: seq<nat>, t: seq<nat>)
    requires NoSmaller(s, s2) && |t| == |s|
    ensures Offset(s, t) <= Offset(s2, t)
    decreases |s|
  {
    if |s| > 0 {
      OffsetGrows(s[1..], s2[1..], t[1..]);
      ProdMonotone(s[1..], s2[1..]);
      assert t[0] * Prod(s[1..]) <= t[0] * Prod(s2[1..]);
    }
  }

  /** Growing the sizes keeps the order of the offsets of tuples that fit the old sizes. */
  lemma {:induction false} OffsetOrder(s: seq<nat>, s2: seq<nat>, t: seq<nat>, u: seq<nat>)
    requires NoSmaller(s, s2) && Fits(t, s) && Fits(u, s)
    requires Offset(s, t) < Offset(s, u)
    ensures Offset(s2, t) < Offset(s2, u)
    decreases |s|
  {
    var p, p2 := Prod(s[1..]), Prod(s2[1..]);
    FitsTail(t, s);
    FitsTail(u, s);
    if t[0] < u[0] {
      assert Fits(t[1..], s2[1..]);
      OffsetBound(s2[1..], t[1..]);
      MulLess(t[0], u[0], p2);
    } else if t[0] == u[0] {
      OffsetOrder(s[1..], s2[1..], t[1..], u[1..]);
    } else {
      OffsetBound(s[1..], u[1..]);
      MulLess(u[0], t[0], p);
    }
  }

  // ---------------------------------------------------------------------
  // The two index conversions as written
  // ---------------------------------------------------------------------

  /** `get_function_index`: accumulate from the last index, multiplying by each size on the way. */
  method FunctionIndex(s: seq<nat>, t: seq<nat>) returns (f: nat)
    requires |t| == |s|
    ensures f == Offset(s, t)
    ensures Fits(t, s) ==> f < Prod(s) && Indices(s, f) == t
  {
    var d := |s|;
    f := 0;
    var multiplier: nat := 1;
    var i := 0;
    while i != d
      invariant 0 <= i <= d
      invariant f == Offset(s[d - i..], t[d - i..])
      invariant multiplier == Prod(s[d - i..])
      decreases d - i
    {
      var k := d - 1 - i;
      assert s[k..][1..] == s[k + 1..] && t[k..][1..] == t[k + 1..];
      f := f + multiplier * t[k];
      multiplier := multiplier * s[k];
      i := i + 1;
    }
    assert s[0..] == s && t[0..] == t;
    if Fits(t, s) {
      OffsetBound(s, t);
      OffsetRoundTrip(s, t);
    }
  }

  /** The offset contributed by the first `i` indices of `t`. */
  function Head(s: seq<nat>, t: seq<nat>, i: nat): nat
    requires |t| == |s| && i <= |s|
  {
    if i == 0 then 0 else Head(s, t, i - 1) + t[i - 1] * Prod(s[i..])
  }

  /** The offset splits into the part of the first `i` indices and the offset of the rest. */
  lemma {:induction false} HeadSplit(s: seq<nat>, t: seq<nat>, i: nat)
    requires |t| == |s| && i < |s|
    ensures Head(s, t, i) + Offset(s[i..], t[i..]) == Head(s, t, i + 1) + Offset(s[i + 1..], t[i + 1..])
  {
    assert s[i..][1..] == s[i + 1..] && t[i..][1..] == t[i + 1..];
  }

  /**
   * `get_argument_indices`: start from the product of all sizes, divide by
   * each size in turn, and peel off one index per dimension.
   */
  method ArgumentIndices(s: seq<nat>, f: nat) returns (t: seq<nat>)
    requires f < Prod(s)
    ensures t == Indices(s, f)
    ensures Fits(t, s) && Offset(s, t) == f
  {
    var d := |s|;
    var divider := Prod(s);
    var remainder := f;
    t := seq(d, k => 0);
    var i := 0;
    assert s[0..] == s;
    while i != d
      invariant 0 <= i <= d && |t| == d
      invariant divider == Prod(s[i..]) && remainder < divider
      invariant forall k :: 0 <= k < i ==> t[k] < s[k]
      invariant f == Head(s, t, i) + remainder
      decreases d - i
    {
      assert s[i..][1..] == s[i + 1..] && s[i..][0] == s[i];
      ProdPositive(s[i..]);
      var p := Prod(s[i + 1..]);
      PeelStep(s[i], p, remainder);
      divider := divider / s[i];
      var ai := remainder / divider;
      var rest := remainder - ai * divider;
      var t' := t[i := ai];
      assert Head(s, t', i) == Head(s, t, i) by {
        HeadPrefix(s, t, t', i);
      }
      t := t';
      remainder := rest;
      i := i + 1;
    }
    assert Fits(t, s);
    HeadWhole(s, t);
    IndicesRoundTrip(s, f);
    OffsetInjective(s, t, Indices(s, f));
  }

  /** `Head` reads only the first `i` indices. */
  lemma {:induction false} HeadPrefix(s: seq<nat>, t: seq<nat>, u: seq<nat>, i: nat)
    requires |t| == |s| && |u| == |s| && i <= |s|
    requires forall k :: 0 <= k < i ==> t[k] == u[k]
    ensures Head(s, t, i) == Head(s, u, i)
    decreases i
  {
    if i > 0 {
      HeadPrefix(s, t, u, i - 1);
    }
  }

  /** The head over all indices is the whole offset. */
  lemma {:induction false} HeadWhole(s: seq<nat>, t: seq<nat>)
    requires |t| == |s|
    ensures Head(s, t, |s|) == Offset(s, t)
  {
    var i := 0;
    assert s[0..] == s && t[0..] == t;
    while i < |s|
      invariant 0 <= i <= |s|
      invariant Head(s, t, i) + Offset(s[i..], t[i..]) == Offset(s, t)
    {
      HeadSplit(s, t, i);
      i := i + 1;
    }
  }
}
