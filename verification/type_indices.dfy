/**
 * Type indices. Each base type has its own counter; the first request for
 * a (base, derived) pair reserves the counter's next value, and later
 * requests for the same pair return the memoised index.
 */
module TypeIndices {
  /** The counter of each base, and the index memoised for each (base, derived) pair. */
  datatype TypeIds<B(==), D(==)> = TypeIds(next: map<B, nat>, ids: map<(B, D), nat>)

  /** Indices are below their base's counter, and distinct under one base. */
  predicate Inv<B(==, !new), D(==)>(T: TypeIds<B, D>) {
    (forall p :: p in T.ids ==> T.ids[p] < Next(T, p.0))
    && (forall p, q :: p in T.ids && q in T.ids && p.0 == q.0 && p != q ==> T.ids[p] != T.ids[q])
  }

  /** The state before any index is handed out. */
  function NoIds<B(==, !new), D(==)>(): (T: TypeIds<B, D>)
    ensures Inv(T) && Dense(T)
    ensures forall b :: Next(T, b) == 0
  {
    TypeIds(map[], map[])
  }

  /** The value the counter of `b` hands out next. */
  function Next<B(==, !new), D(==)>(T: TypeIds<B, D>, b: B): nat {
    if b in T.next then T.next[b] else 0
  }

  /** `reserve_type_index<Base>`: hand out the counter's value and increment it. */
  function Reserve<B(==, !new), D(==)>(T: TypeIds<B, D>, b: B): (r: (TypeIds<B, D>, nat))
    ensures r.1 == Next(T, b) && Next(r.0, b) == r.1 + 1
    ensures forall c :: c != b ==> Next(r.0, c) == Next(T, c)
    ensures r.0.ids == T.ids
  {
    (T.(next := T.next[b := Next(T, b) + 1]), Next(T, b))
  }

  /** `n` successive reservations under `b`, and the indices they return. */
  function ReserveMany<B(==, !new), D(==)>(T: TypeIds<B, D>, b: B, n: nat): (r: (TypeIds<B, D>, seq<nat>))
    ensures |r.1| == n
    decreases n
  {
    if n == 0 then (T, [])
    else
      var (T1, i) := Reserve(T, b);
      var (T2, rest) := ReserveMany(T1, b, n - 1);
      (T2, [i] + rest)
  }

  /** Successive reservations return consecutive values: 0, 1, 2, … from a fresh counter. */
  lemma {:induction false} ReserveCounts<B(!new), D>(T: TypeIds<B, D>, b: B, n: nat)
    ensures forall k :: 0 <= k < n ==> ReserveMany(T, b, n).1[k] == Next(T, b) + k
    ensures Next(ReserveMany(T, b, n).0, b) == Next(T, b) + n
    decreases n
  {
    if n > 0 {
      var (T1, i) := Reserve(T, b);
      ReserveCounts(T1, b, n - 1);
    }
  }

  /** The indices handed out under `b`. */
  function IdsUnder<B(==, !new), D(==)>(T: TypeIds<B, D>, b: B): set<nat> {
    set p | p in T.ids && p.0 == b :: T.ids[p]
  }

  /** The indices under each base are exactly 0, 1, …, up to its counter. */
  ghost predicate Dense<B(!new), D>(T: TypeIds<B, D>) {
    forall b, k: nat :: k in IdsUnder(T, b) <==> k < Next(T, b)
  }

  /**
   * `get_type_index<Base, Derived>`: the memoised index of the pair, or a
   * fresh reservation from the base's counter on the first request.
   */
  function GetIndex<B(==, !new), D(==)>(T: TypeIds<B, D>, b: B, d: D): (r: (TypeIds<B, D>, nat))
    requires Inv(T)
    ensures Inv(r.0)
    ensures (b, d) in r.0.ids && r.0.ids[(b, d)] == r.1
    ensures (b, d) in T.ids ==> r.0 == T
    ensures (b, d) !in T.ids ==> r.1 == Next(T, b) && Next(r.0, b) == Next(T, b) + 1
    ensures forall p :: p in T.ids ==> p in r.0.ids && r.0.ids[p] == T.ids[p]
    ensures forall p :: p in r.0.ids && p != (b, d) ==> p in T.ids
    ensures forall c :: c != b ==> Next(r.0, c) == Next(T, c)
  {
    if (b, d) in T.ids then (T, T.ids[(b, d)])
    else
      var (T1, i) := Reserve(T, b);
      (T1.(ids := T1.ids[(b, d) := i]), i)
  }

  /** A first request extends the indices under its base by exactly the counter's old value. */
  lemma GetIndexDense<B(!new), D>(T: TypeIds<B, D>, b: B, d: D)
    requires Inv(T) && Dense(T)
    ensures Dense(GetIndex(T, b, d).0)
  {
    var T2 := GetIndex(T, b, d).0;
    if (b, d) !in T.ids {
      forall c, k: nat ensures k in IdsUnder(T2, c) <==> k < Next(T2, c) {
        if c == b {
          assert IdsUnder(T2, c) == IdsUnder(T, c) + {Next(T, b)};
        } else {
          assert IdsUnder(T2, c) == IdsUnder(T, c);
        }
      }
    }
  }

  /** Asking twice for the same pair gives the same index and changes nothing the second time. */
  lemma Memoised<B(!new), D>(T: TypeIds<B, D>, b: B, d: D)
    requires Inv(T)
    ensures var (T1, i) := GetIndex(T, b, d); GetIndex(T1, b, d) == (T1, i)
  {
  }

  /** Two different derived types under one base get different indices, whatever was asked before. */
  lemma DistinctIds<B(!new), D>(T: TypeIds<B, D>, b: B, d1: D, d2: D)
    requires Inv(T) && d1 != d2
    ensures var (T1, i1) := GetIndex(T, b, d1); GetIndex(T1, b, d2).1 != i1
  {
    var (T1, i1) := GetIndex(T, b, d1);
    var (T2, i2) := GetIndex(T1, b, d2);
    assert (b, d1) in T2.ids && T2.ids[(b, d1)] == i1;
  }

  /** Requests under one base do not change the index a request under another base returns. */
  lemma IndependentBases<B(!new), D>(T: TypeIds<B, D>, b1: B, d1: D, b2: B, d2: D)
    requires Inv(T) && b1 != b2
    ensures GetIndex(GetIndex(T, b1, d1).0, b2, d2).1 == GetIndex(T, b2, d2).1
  {
    var T1 := GetIndex(T, b1, d1).0;
    assert (b2, d2) in T1.ids <==> (b2, d2) in T.ids;
  }

  /** First requests for new derived types under one base are answered 0, 1, 2, … in order. */
  lemma FirstRequestsCount<B(!new), D>(b: B, d0: D, d1: D, d2: D)
    requires d0 != d1 && d1 != d2 && d0 != d2
    ensures var (T0, i0) := GetIndex(NoIds<B, D>(), b, d0);
      var (T1, i1) := GetIndex(T0, b, d1);
      var (T2, i2) := GetIndex(T1, b, d2);
      i0 == 0 && i1 == 1 && i2 == 2
  {
    var (T0, i0) := GetIndex(NoIds<B, D>(), b, d0);
    var (T1, i1) := GetIndex(T0, b, d1);
    assert (b, d1) !in T0.ids;
    var (T2, i2) := GetIndex(T1, b, d2);
    assert (b, d2) !in T1.ids;
  }
}
