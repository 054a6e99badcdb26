/**
 * The function register: an N-dimensional table of entries (function
 * pointers in the library) stored row-major in one flat vector, with a
 * default entry. Registering an entry at a tuple that does not fit grows
 * every overflowing dimension by doubling; storage is then either extended
 * (only dimension 0 grew) or rebuilt so that every old entry sits at its
 * tuple's new offset.
 */
module FunctionRegisters {
  import opened RegisterIndex

  datatype Register<E> = Register(sizes: seq<nat>, default: E, entries: seq<E>)

  /** The storage has one slot per tuple of the sizes. */
  predicate Valid<E>(R: Register<E>) {
    |R.sizes| >= 1 && |R.entries| == Prod(R.sizes)
  }

  /** What the register holds for tuple `t`: its slot when it fits, otherwise the default. */
  function Get<E>(R: Register<E>, t: seq<nat>): E
    requires Valid(R) && |t| == |R.sizes|
  {
    if Fits(t, R.sizes) then
      OffsetBound(R.sizes, t);
      R.entries[Offset(R.sizes, t)]
    else R.default
  }

  /** The constructor: one default entry per tuple of `sizes` (all sizes zero gives the empty register). */
  function New<E>(sizes: seq<nat>, default: E): (R: Register<E>)
    requires |sizes| >= 1
    ensures Valid(R) && R.sizes == sizes && R.default == default
    ensures forall t :: |t| == |sizes| ==> Get(R, t) == default
  {
    var R := Register(sizes, default, seq(Prod(sizes), _ => default));
    forall t | |t| == |sizes| && Fits(t, sizes) ensures Get(R, t) == default {
      OffsetBound(sizes, t);
    }
    R
  }

  /**
   * `execute_function`: the entry at the flat offset of `t` when that
   * offset is inside the storage, the default otherwise. Only an overflow in
   * dimension 0 is sure to land past the end of the storage.
   */
  function Lookup<E>(R: Register<E>, t: seq<nat>): (e: E)
    requires Valid(R) && |t| == |R.sizes|
    ensures (forall k :: 1 <= k < |t| ==> t[k] < R.sizes[k]) ==> e == Get(R, t)
  {
    var f := Offset(R.sizes, t);
    assert (forall k :: 1 <= k < |t| ==> t[k] < R.sizes[k]) && !Fits(t, R.sizes) ==> f >= |R.entries| by {
      if (forall k :: 1 <= k < |t| ==> t[k] < R.sizes[k]) && !Fits(t, R.sizes) {
        FirstOverflowPastEnd(R.sizes, t);
      }
    }
    assert Fits(t, R.sizes) ==> f < |R.entries| by {
      if Fits(t, R.sizes) {
        OffsetBound(R.sizes, t);
      }
    }
    if f < |R.entries| then R.entries[f] else R.default
  }

  /** A tuple that overflows only in dimension 0 has an offset past the last slot. */
  lemma FirstOverflowPastEnd(s: seq<nat>, t: seq<nat>)
    requires |t| == |s| >= 1 && t[0] >= s[0]
    requires forall k :: 1 <= k < |t| ==> t[k] < s[k]
    ensures Offset(s, t) >= Prod(s)
  {
    MulLe(s[0], t[0], Prod(s[1..]));
  }

  /** With sizes {2,2}, the out-of-range tuple (0,2) reads the slot of (1,0). */
  lemma LookupAliases()
    ensures var R := Put(New([2, 2], 0), [1, 0], 7);
      Lookup(R, [0, 2]) == 7 && Get(R, [0, 2]) == 0
  {
    var R0 := New([2, 2], 0);
    assert Prod([2, 2]) == 4 by {
      assert [2, 2][1..] == [2] && [2][1..] == [];
    }
    assert Offset([2, 2], [1, 0]) == 2 && Offset([2, 2], [0, 2]) == 2 by {
      assert [2, 2][1..] == [2] && [1, 0][1..] == [0] && [0, 2][1..] == [2];
    }
    assert Fits([1, 0], [2, 2]) && !Fits([0, 2], [2, 2]);
    assert !Overflows(R0.sizes, [1, 0]);
    assert ExpandIfNeeded(R0, [1, 0]) == R0;
  }

  // ---------------------------------------------------------------------
  // Growth
  // ---------------------------------------------------------------------

  function Pow2(k: nat): nat {
    if k == 0 then 1 else 2 * Pow2(k - 1)
  }

  /** Doubling the base is one more doubling of the power. */
  lemma DoubleFactor(n: nat, k: nat)
    ensures 2 * n * Pow2(k) == n * Pow2(k + 1)
  {
    assert Pow2(k + 1) == 2 * Pow2(k);
    assert 2 * n * Pow2(k) == n * (2 * Pow2(k));
  }

  /** Double `n` until index `i` fits. */
  function Grow(n: nat, i: nat): (r: nat)
    requires n >= 1
    ensures r > i && r >= n
    ensures exists k: nat :: r == n * Pow2(k)
    ensures r == n || r / 2 <= i
    decreases i + 1 - n
  {
    if i < n then
      assert n == n * Pow2(0);
      n
    else
      var r := Grow(2 * n, i);
      var k: nat :| r == 2 * n * Pow2(k);
      DoubleFactor(n, k);
      assert r == 2 * n || r / 2 <= i;
      r
  }

  /** `get_storage_supply`: the size of a dimension, at least 1, doubled until the index fits. */
  function Supply(s: nat, i: nat): (r: nat)
    ensures r > i && r >= s && r >= 1
    ensures i < s ==> r == s
    ensures exists k: nat :: r == (if s > 1 then s else 1) * Pow2(k)
    ensures r == (if s > 1 then s else 1) || r / 2 <= i
  {
    Grow(if s > 1 then s else 1, i)
  }

  /** The index of some dimension other than 0 does not fit. */
  predicate Overflows(s: seq<nat>, t: seq<nat>) {
    exists i :: 1 <= i < |s| && i < |t| && t[i] >= s[i]
  }

  /** The sizes after a full expansion: every dimension supplied for its index. */
  function GrownSizes(s: seq<nat>, t: seq<nat>): (s2: seq<nat>)
    requires |t| == |s|
    ensures NoSmaller(s, s2) && Fits(t, s2)
  {
    seq(|s|, j requires 0 <= j < |s| => Supply(s[j], t[j]))
  }

  /**
   * What slot `p` of the new storage holds once every old entry at an
   * offset of at least `lo` has been moved to its tuple's new offset.
   */
  function Pending<E>(s: seq<nat>, s2: seq<nat>, entries: seq<E>, default: E, lo: nat, p: nat): E
    requires |s| == |s2| && |entries| == Prod(s) && p < Prod(s2)
  {
    var t := Indices(s2, p);
    if Fits(t, s) && Offset(s, t) >= lo then
      OffsetBound(s, t);
      entries[Offset(s, t)]
    else default
  }

  /** The storage for the sizes `s2`: each old entry at its tuple's new offset, the default elsewhere. */
  function Reflow<E>(s: seq<nat>, s2: seq<nat>, entries: seq<E>, default: E): (r: seq<E>)
    requires |s| == |s2| && |entries| == Prod(s)
    ensures |r| == Prod(s2)
  {
    seq(Prod(s2), p requires 0 <= p < Prod(s2) => Pending(s, s2, entries, default, 0, p))
  }

  /** `expand_storage` with new sizes for every dimension. */
  function ExpandAll<E>(R: Register<E>, s2: seq<nat>): (R2: Register<E>)
    requires Valid(R) && NoSmaller(R.sizes, s2)
    ensures Valid(R2) && R2.sizes == s2 && R2.default == R.default
    ensures forall t :: |t| == |s2| ==> Get(R2, t) == Get(R, t)
  {
    var R2 := Register(s2, R.default, Reflow(R.sizes, s2, R.entries, R.default));
    forall t | |t| == |s2| ensures Get(R2, t) == Get(R, t) {
      ReflowKeeps(R.sizes, s2, R.entries, R.default, t);
    }
    R2
  }

  /** After a reflow every tuple reads what it read before. */
  lemma ReflowKeeps<E>(s: seq<nat>, s2: seq<nat>, entries: seq<E>, default: E, t: seq<nat>)
    requires NoSmaller(s, s2) && |entries| == Prod(s) && |t| == |s| >= 1
    ensures Get(Register(s2, default, Reflow(s, s2, entries, default)), t)
         == Get(Register(s, default, entries), t)
  {
    if Fits(t, s2) {
      OffsetBound(s2, t);
      OffsetRoundTrip(s2, t);
    }
  }

  /** `std::vector::resize`: truncate, or pad with `fill`. */
  function Resize<E>(v: seq<E>, n: nat, fill: E): (r: seq<E>)
    ensures |r| == n
    ensures forall k :: 0 <= k < n ==> r[k] == if k < |v| then v[k] else fill
  {
    if n <= |v| then v[..n] else v + seq(n - |v|, _ => fill)
  }

  /** `expand_storage` for dimension 0 only: the offsets do not change, so the storage is only extended. */
  function ExpandFirst<E>(R: Register<E>, n0: nat): (R2: Register<E>)
    requires Valid(R)
    ensures Valid(R2) && R2.sizes == R.sizes[0 := n0]
  {
    var s2 := R.sizes[0 := n0];
    assert s2[1..] == R.sizes[1..];
    Register(s2, R.default, Resize(R.entries, n0 * Prod(R.sizes[1..]), R.default))
  }

  /** Growing dimension 0 by extending the storage gives exactly the full reflow. */
  lemma FastPathIsReflow<E>(R: Register<E>, n0: nat)
    requires Valid(R) && n0 >= R.sizes[0]
    ensures NoSmaller(R.sizes, R.sizes[0 := n0])
    ensures ExpandFirst(R, n0) == ExpandAll(R, R.sizes[0 := n0])
  {
    var s, s2 := R.sizes, R.sizes[0 := n0];
    assert s2[1..] == s[1..];
    ProdMonotone(s, s2);
    var a, b := ExpandFirst(R, n0).entries, ExpandAll(R, s2).entries;
    forall p | 0 <= p < |a| ensures a[p] == b[p] {
      var t := Indices(s2, p);
      IndicesRoundTrip(s2, p);
      OffsetIgnoresFirst(s2, t, s[0]);
      assert s2[0 := s[0]] == s;
      if p < Prod(s) {
        IndicesRoundTrip(s, p);
        OffsetIgnoresFirst(s, Indices(s, p), n0);
        OffsetInjective(s2, t, Indices(s, p));
      } else if Fits(t, s) {
        OffsetBound(s, t);
      }
    }
  }

  /**
   * `expand_storage_if_out_of_bounds`: if any dimension other than 0
   * overflows, supply every dimension and rebuild; else if dimension 0
   * overflows, supply it and extend; otherwise leave the register alone.
   */
  function ExpandIfNeeded<E>(R: Register<E>, t: seq<nat>): (R2: Register<E>)
    requires Valid(R) && |t| == |R.sizes|
    ensures Valid(R2) && Fits(t, R2.sizes) && NoSmaller(R.sizes, R2.sizes) && R2.default == R.default
    ensures forall u :: |u| == |t| ==> Get(R2, u) == Get(R, u)
  {
    if Overflows(R.sizes, t) then ExpandAll(R, GrownSizes(R.sizes, t))
    else if t[0] >= R.sizes[0] then
      var n0 := Supply(R.sizes[0], t[0]);
      FastPathIsReflow(R, n0);
      ExpandFirst(R, n0)
    else
      R
  }

  /** `register_function`: expand if needed, then store `e` at the slot of `t`. */
  function Put<E>(R: Register<E>, t: seq<nat>, e: E): (R2: Register<E>)
    requires Valid(R) && |t| == |R.sizes|
    ensures Valid(R2) && NoSmaller(R.sizes, R2.sizes) && Fits(t, R2.sizes) && R2.default == R.default
    ensures forall u :: |u| == |t| ==> Get(R2, u) == if u == t then e else Get(R, u)
  {
    var R1 := ExpandIfNeeded(R, t);
    OffsetBound(R1.sizes, t);
    var R2 := R1.(entries := R1.entries[Offset(R1.sizes, t) := e]);
    forall u | |u| == |t| ensures Get(R2, u) == if u == t then e else Get(R, u) {
      if u != t && Fits(u, R1.sizes) {
        OffsetBound(R1.sizes, u);
        if Offset(R1.sizes, u) == Offset(R1.sizes, t) {
          OffsetInjective(R1.sizes, u, t);
        }
      }
    }
    R2
  }

  /** Register a sequence of `(tuple, entry)` pairs in order. */
  function PutAll<E>(R: Register<E>, ws: seq<(seq<nat>, E)>): (R2: Register<E>)
    requires Valid(R) && forall k :: 0 <= k < |ws| ==> |ws[k].0| == |R.sizes|
    ensures Valid(R2) && |R2.sizes| == |R.sizes| && R2.default == R.default
  {
    if |ws| == 0 then R
    else
      var R1 := PutAll(R, ws[..|ws| - 1]);
      Put(R1, ws[|ws| - 1].0, ws[|ws| - 1].1)
  }

  /** The entry last written at `t`, or `default` when there is none. */
  function LastWrite<E>(ws: seq<(seq<nat>, E)>, t: seq<nat>, default: E): E {
    if |ws| == 0 then default
    else if ws[|ws| - 1].0 == t then ws[|ws| - 1].1
    else LastWrite(ws[..|ws| - 1], t, default)
  }

  /**
   * Whatever the order of registration and however the storage grows in
   * between, every tuple reads the entry last registered there, and the
   * default if none was.
   */
  lemma {:induction false} LastWriteWins<E>(sizes: seq<nat>, default: E, ws: seq<(seq<nat>, E)>, t: seq<nat>)
    requires |sizes| >= 1 && |t| == |sizes|
    requires forall k :: 0 <= k < |ws| ==> |ws[k].0| == |sizes|
    ensures Get(PutAll(New(sizes, default), ws), t) == LastWrite(ws, t, default)
    decreases |ws|
  {
    if |ws| > 0 {
      var ws' := ws[..|ws| - 1];
      assert forall k :: 0 <= k < |ws'| ==> |ws'[k].0| == |sizes|;
      LastWriteWins(sizes, default, ws', t);
    }
  }

  // ---------------------------------------------------------------------
  // The reverse swap loop of `expand_storage`
  // ---------------------------------------------------------------------

  /**
   * `expand_storage(new sizes)`: copy the storage, pad it with the default,
   * then walk the old offsets from the last down to 0, swapping each old
   * entry into its tuple's new offset.
   */
  method ExpandStorage<E>(R: Register<E>, s2: seq<nat>) returns (R2: Register<E>)
    requires Valid(R) && NoSmaller(R.sizes, s2)
    ensures R2 == ExpandAll(R, s2)
  {
    var s, entries, default := R.sizes, R.entries, R.default;
    ProdMonotone(s, s2);
    var a := Resize(entries, Prod(s2), default);
    var old_size := |entries|;
    forall p | old_size <= p < |a| ensures a[p] == Pending(s, s2, entries, default, old_size, p) {
      if Fits(Indices(s2, p), s) {
        OffsetBound(s, Indices(s2, p));
      }
    }
    var i := 0;
    while i != old_size
      invariant 0 <= i <= old_size && |a| == Prod(s2)
      invariant forall p :: 0 <= p < old_size - i ==> a[p] == entries[p]
      invariant forall p :: old_size - i <= p < |a| ==> a[p] == Pending(s, s2, entries, default, old_size - i, p)
      decreases old_size - i
    {
      var o := old_size - 1 - i;
      var t := ArgumentIndices(s, o);
      assert Fits(t, s2);
      var n := FunctionIndex(s2, t);
      Target(s, s2, o);
      var a2 := a[o := a[n]][n := a[o]];
      SwapStep(s, s2, entries, default, a, o, n, a2);
      a := a2;
      i := i + 1;
    }
    assert a == Reflow(s, s2, entries, default);
    R2 := Register(s2, default, a);
  }

  /** Where old offset `o` goes: its tuple fits both sizes, and its new offset is at `o` or above. */
  lemma Target(s: seq<nat>, s2: seq<nat>, o: nat)
    requires NoSmaller(s, s2) && o < Prod(s)
    ensures var t := Indices(s, o);
      Fits(t, s) && Offset(s, t) == o && Fits(t, s2)
      && o <= Offset(s2, t) < Prod(s2) && Indices(s2, Offset(s2, t)) == t
  {
    var t := Indices(s, o);
    IndicesRoundTrip(s, o);
    assert Fits(t, s2);
    OffsetBound(s2, t);
    OffsetGrows(s, s2, t);
    OffsetRoundTrip(s2, t);
  }

  /**
   * One swap of the loop. Offsets strictly increase and never decrease under
   * growth, so the new slot `n` of old offset `o` is at `o` or above, and
   * above `o` it still holds the default.
   */
  lemma SwapStep<E>(s: seq<nat>, s2: seq<nat>, entries: seq<E>, default: E, a: seq<E>, o: nat, n: nat, a2: seq<E>)
    requires NoSmaller(s, s2) && |entries| == Prod(s) && o < |entries| <= |a| == Prod(s2)
    requires forall p :: 0 <= p <= o ==> a[p] == entries[p]
    requires forall p :: o < p < |a| ==> a[p] == Pending(s, s2, entries, default, o + 1, p)
    requires n == Offset(s2, Indices(s, o)) && o <= n < |a|
    requires a2 == a[o := a[n]][n := a[o]]
    ensures forall p :: 0 <= p < o ==> a2[p] == entries[p]
    ensures forall p :: o <= p < |a| ==> a2[p] == Pending(s, s2, entries, default, o, p)
  {
    var t := Indices(s, o);
    Target(s, s2, o);
    forall p | o <= p < |a| ensures a2[p] == Pending(s, s2, entries, default, o, p) {
      if p == n {
        assert a2[p] == entries[o];
      } else if p == o {
        SourceSlot(s, s2, entries, default, t, o);
        assert a2[p] == a[n];
      } else {
        OtherSlot(s, s2, entries, default, t, o, p);
        assert a2[p] == a[p];
      }
    }
  }

  /** Once old offset `o` has moved, slot `o` (when it is not its own target) holds the default. */
  lemma SourceSlot<E>(s: seq<nat>, s2: seq<nat>, entries: seq<E>, default: E, t: seq<nat>, o: nat)
    requires NoSmaller(s, s2) && |entries| == Prod(s) && o < Prod(s)
    requires t == Indices(s, o) && Fits(t, s) && Offset(s, t) == o && Fits(t, s2)
    requires o < Offset(s2, t) < Prod(s2) && Indices(s2, Offset(s2, t)) == t
    ensures Pending(s, s2, entries, default, o, o) == default
    ensures Pending(s, s2, entries, default, o + 1, Offset(s2, t)) == default
  {
    var u := Indices(s2, o);
    IndicesRoundTrip(s2, o);
    if Fits(u, s) && Offset(s, u) >= o {
      if Offset(s, u) == o {
        OffsetInjective(s, u, t);
      } else {
        OffsetOrder(s, s2, t, u);
      }
    }
  }

  /** A slot other than `o` and its target is unaffected by the move of old offset `o`. */
  lemma OtherSlot<E>(s: seq<nat>, s2: seq<nat>, entries: seq<E>, default: E, t: seq<nat>, o: nat, p: nat)
    requires NoSmaller(s, s2) && |entries| == Prod(s) && p < Prod(s2)
    requires Fits(t, s) && Offset(s, t) == o && p != Offset(s2, t)
    ensures Pending(s, s2, entries, default, o, p) == Pending(s, s2, entries, default, o + 1, p)
  {
    var u := Indices(s2, p);
    IndicesRoundTrip(s2, p);
    if Fits(u, s) && Offset(s, u) == o {
      OffsetInjective(s, u, t);
    }
  }
}
