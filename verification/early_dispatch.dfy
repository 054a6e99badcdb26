/**
 * The earlier revision of handle dispatch. A handle records the type index
 * its set type received under `MeasurableSet`; `&&` and `||` call whatever
 * the intersection or union register holds at the pair of indices, and both
 * registers start out filled with `unknown_operator`, which throws. A set
 * type's static initialisation runs its `register_type()` (which registers
 * the pairs the type declares) and then registers the type against itself.
 *
 * The two registers are always written together, at the same tuples, with
 * entries for the same pair of types, so they stay equal; the model keeps
 * both and states their equality as part of the invariant.
 */
module EarlyDispatch {
  import opened RegisterIndex
  import opened FunctionRegisters
  import opened TypeIndices
  import opened SetTypes

  /** The base under which this revision hands out type indices. */
  datatype Base = MeasurableSet

  /** A register entry: `unknown_operator`, or the stored operator of `l` against `r`. */
  datatype Entry = Unknown | Ops(l: SetType, r: SetType)

  /** A `MeasurableSet` value: the type index it recorded and the set type it holds. */
  datatype Handle = Handle(id: nat, held: SetType)

  /** The result of `&&` or `||`: a handle, or the `logic_error` thrown by `unknown_operator`. */
  datatype Outcome = Value(h: Handle) | LogicError

  type Ids = TypeIds<Base, SetType>

  /**
   * The registry: the type indices, the intersection and union registers,
   * and the set types whose static `type_index` has been initialised.
   */
  datatype Registry = Registry(ids: Ids, inter: Register<Entry>, union: Register<Entry>, initialised: set<SetType>)

  predicate Has(I: Ids, T: SetType) {
    (MeasurableSet, T) in I.ids
  }

  function Idx(I: Ids, T: SetType): nat
    requires Has(I, T)
  {
    I.ids[(MeasurableSet, T)]
  }

  /**
   * The stored lambdas apply the concrete `&&` and `||` of their two types,
   * so a pair can be registered only when both overloads resolve.
   */
  predicate Compiles(L: SetType, R: SetType) {
    SetTypes.And(L, R).Resolves? && SetTypes.Or(L, R).Resolves?
  }

  /** Overload resolution for `&&` and `||` is symmetric in whether an operator exists. */
  lemma CompilesSymmetric(L: SetType, R: SetType)
    ensures Compiles(L, R) <==> Compiles(R, L)
  {
  }

  // ---------------------------------------------------------------------
  // Well-formed registries
  // ---------------------------------------------------------------------

  predicate Shape(R: Register<Entry>) {
    Valid(R) && |R.sizes| == 2 && R.default == Unknown
  }

  /** Every stored operator sits at the indices of its two types, and both overloads exist. */
  ghost predicate OpsAt(I: Ids, R: Register<Entry>)
    requires Shape(R)
  {
    forall t :: |t| == 2 && Get(R, t).Ops? ==>
      var e := Get(R, t);
      Has(I, e.l) && Has(I, e.r) && t == [Idx(I, e.l), Idx(I, e.r)] && Compiles(e.l, e.r)
  }

  /** Every index handed out fits both dimensions of the register. */
  ghost predicate Covers(I: Ids, R: Register<Entry>)
    requires Shape(R)
  {
    forall U :: Has(I, U) ==> Idx(I, U) < R.sizes[0] && Idx(I, U) < R.sizes[1]
  }

  /** What holds between the steps of a registration. */
  ghost predicate Sound(S: Registry) {
    TypeIndices.Inv(S.ids) && Shape(S.inter) && S.union == S.inter
    && OpsAt(S.ids, S.inter)
    && (forall U :: U in S.initialised ==> Has(S.ids, U))
  }

  /** Both registers hold operators for `U` against `V`. */
  ghost predicate Paired(S: Registry, U: SetType, V: SetType) {
    Shape(S.inter) && S.union == S.inter && Has(S.ids, U) && Has(S.ids, V)
    && Get(S.inter, [Idx(S.ids, U), Idx(S.ids, V)]).Ops?
  }

  /** A registry after each static initialisation: sound, every index covered, and every initialised type paired with itself. */
  ghost predicate Inv(S: Registry) {
    Sound(S) && Covers(S.ids, S.inter)
    && (forall U :: U in S.initialised ==> Paired(S, U, U))
  }

  /** Between `I` and `I2` every index handed out is kept. */
  ghost predicate IdsKept(I: Ids, I2: Ids) {
    forall U :: Has(I, U) ==> Has(I2, U) && Idx(I2, U) == Idx(I, U)
  }

  /** Between `S` and `S2` paired types stay paired. */
  ghost predicate Keeps(S: Registry, S2: Registry) {
    forall U, V :: Paired(S, U, V) ==> Paired(S2, U, V)
  }

  /** Every index handed out between `S` and `S2` went to a type in `W`. */
  ghost predicate NewIdsIn(S: Registry, S2: Registry, W: set<SetType>) {
    forall V :: Has(S2.ids, V) ==> Has(S.ids, V) || V in W
  }

  /** Every pair that became paired between `S` and `S2` is `T` against a type in `W`, or a type in `W` against `T`. */
  ghost predicate NewPairs(S: Registry, S2: Registry, T: SetType, W: set<SetType>) {
    forall U, V :: Paired(S2, U, V) && !Paired(S, U, V) ==> (U == T && V in W) || (V == T && U in W)
  }

  /** Between `S` and `S2` indices are kept, paired types stay paired, and nothing else is initialised. */
  ghost predicate Grows(S: Registry, S2: Registry) {
    IdsKept(S.ids, S2.ids) && Keeps(S, S2) && S2.initialised == S.initialised
  }

  /** No set type has been given an index or initialised: the registers as the program starts. */
  ghost predicate Unused(S: Registry) {
    Inv(S) && S.initialised == {} && Next(S.ids, MeasurableSet) == 0
  }

  /** The registry at program start: no indices, both registers {8, 8} and filled with `unknown_operator`. */
  function Start(): (S: Registry)
    ensures Unused(S)
    ensures forall U :: !Has(S.ids, U)
  {
    var R := New([8, 8], Unknown);
    Registry(NoIds(), R, R, {})
  }

  // ---------------------------------------------------------------------
  // Facts about sound registries
  // ---------------------------------------------------------------------

  /** Different types have different indices. */
  lemma IdsDistinct(I: Ids, U: SetType, V: SetType)
    requires TypeIndices.Inv(I) && Has(I, U) && Has(I, V) && Idx(I, U) == Idx(I, V)
    ensures U == V
  {
  }

  /** A stored operator at the indices of `U` and `V` is the one for `U` against `V`. */
  lemma StoredIsOps(I: Ids, R: Register<Entry>, U: SetType, V: SetType)
    requires TypeIndices.Inv(I) && Shape(R) && OpsAt(I, R)
    requires Has(I, U) && Has(I, V) && Get(R, [Idx(I, U), Idx(I, V)]).Ops?
    ensures Get(R, [Idx(I, U), Idx(I, V)]) == Ops(U, V)
  {
    var e := Get(R, [Idx(I, U), Idx(I, V)]);
    assert [Idx(I, U), Idx(I, V)] == [Idx(I, e.l), Idx(I, e.r)];
    IdsDistinct(I, U, e.l);
    IdsDistinct(I, V, e.r);
  }

  /** Storing the operator of `L` against `R` at their indices keeps every stored operator at its place. */
  lemma PutOps(I: Ids, R: Register<Entry>, L: SetType, Rt: SetType)
    requires TypeIndices.Inv(I) && Shape(R) && OpsAt(I, R)
    requires Has(I, L) && Has(I, Rt) && Compiles(L, Rt)
    ensures var R2 := Put(R, [Idx(I, L), Idx(I, Rt)], Ops(L, Rt));
      Shape(R2) && OpsAt(I, R2) && NoSmaller(R.sizes, R2.sizes)
  {
  }

  // ---------------------------------------------------------------------
  // Registration steps
  // ---------------------------------------------------------------------

  /** `get_type_index<MeasurableSet, T>`: the memoised index of `T`, reserved on the first request. */
  function Index(S: Registry, T: SetType): (r: (Registry, nat))
    requires Sound(S)
    ensures Sound(r.0) && r.0 == S.(ids := r.0.ids)
    ensures Has(r.0.ids, T) && Idx(r.0.ids, T) == r.1
    ensures IdsKept(S.ids, r.0.ids) && NewIdsIn(S, r.0, {T})
    ensures Has(S.ids, T) ==> r.0 == S
    ensures !Has(S.ids, T) ==> r.1 == Next(S.ids, MeasurableSet) && Next(r.0.ids, MeasurableSet) == r.1 + 1
  {
    var (ids, i) := GetIndex(S.ids, MeasurableSet, T);
    (S.(ids := ids), i)
  }

  /** A new index pairs nothing: the pairs of a registry are those of the registry it took its index from. */
  lemma IndexPairs(S: Registry, S2: Registry)
    requires Sound(S) && Sound(S2) && S2 == S.(ids := S2.ids) && IdsKept(S.ids, S2.ids)
    ensures Keeps(S, S2) && forall U, V :: Paired(S2, U, V) ==> Paired(S, U, V)
  {
    forall U, V | Paired(S2, U, V) ensures Paired(S, U, V) {
      StoredIsOps(S2.ids, S2.inter, U, V);
    }
  }

  /** `register_operators_onesided<L, R>`: store the `&&` and `||` of `L` against `R` at their indices, in both registers. */
  method OneSided(S: Registry, L: SetType, R: SetType, i: nat, j: nat) returns (S2: Registry)
    requires Sound(S) && Has(S.ids, L) && Has(S.ids, R) && i == Idx(S.ids, L) && j == Idx(S.ids, R)
    requires Compiles(L, R)
    ensures Sound(S2) && S2.ids == S.ids && Grows(S, S2) && Paired(S2, L, R)
    ensures S.inter.sizes[0] <= S2.inter.sizes[0] && S.inter.sizes[1] <= S2.inter.sizes[1]
    ensures i < S2.inter.sizes[0] && j < S2.inter.sizes[1]
    ensures forall U, V :: Paired(S2, U, V) && !Paired(S, U, V) ==> U == L && V == R
  {
    PutOps(S.ids, S.inter, L, R);
    var R2 := Put(S.inter, [i, j], Ops(L, R));
    S2 := S.(inter := R2, union := R2);
    forall U, V | Paired(S, U, V) ensures Paired(S2, U, V) {
      var t := [Idx(S.ids, U), Idx(S.ids, V)];
      assert Get(R2, t) == if t == [i, j] then Ops(L, R) else Get(S.inter, t);
    }
    forall U, V | Paired(S2, U, V) ensures Paired(S, U, V) || (U == L && V == R) {
      var t := [Idx(S.ids, U), Idx(S.ids, V)];
      if t == [i, j] {
        IdsDistinct(S.ids, U, L);
        IdsDistinct(S.ids, V, R);
      } else {
        assert Get(R2, t) == Get(S.inter, t);
      }
    }
  }

  /** The types of a declaration list. */
  function Elements(us: seq<SetType>): (W: set<SetType>)
    ensures forall U :: U in W <==> U in us
  {
    set U | U in us
  }

  /** The set identities the registration steps combine their type sets with. */
  lemma SetFacts(T: SetType, U: SetType)
    ensures {T} + {U} == {T, U} && {} + {U} == {U} && {T, T} == {T}
  {
  }

  /** Growth composes. */
  lemma GrowsTrans(S: Registry, S2: Registry, S3: Registry)
    requires Grows(S, S2) && Grows(S2, S3)
    ensures Grows(S, S3)
  {
  }

  /** New indices accumulate over successive registrations. */
  lemma IdsTrans(S: Registry, S2: Registry, S3: Registry, W1: set<SetType>, W2: set<SetType>)
    requires NewIdsIn(S, S2, W1) && NewIdsIn(S2, S3, W2)
    ensures NewIdsIn(S, S3, W1 + W2)
  {
  }

  /** New pairs accumulate over successive registrations. */
  lemma PairsTrans(S: Registry, S2: Registry, S3: Registry, T: SetType, W1: set<SetType>, W2: set<SetType>)
    requires NewPairs(S, S2, T, W1) && NewPairs(S2, S3, T, W2)
    ensures NewPairs(S, S3, T, W1 + W2)
  {
  }

  /**
   * A sound registry that grew from a registry meeting the invariant, whose
   * new indices all went to types in `W` that fit the register, meets the
   * invariant again.
   */
  lemma Restore(S: Registry, S2: Registry, T: SetType, U: SetType)
    requires Inv(S) && Sound(S2) && Grows(S, S2) && NewIdsIn(S, S2, {T, U})
    requires S.inter.sizes[0] <= S2.inter.sizes[0] && S.inter.sizes[1] <= S2.inter.sizes[1]
    requires Has(S2.ids, T) && Idx(S2.ids, T) < S2.inter.sizes[0] && Idx(S2.ids, T) < S2.inter.sizes[1]
    requires Has(S2.ids, U) && Idx(S2.ids, U) < S2.inter.sizes[0] && Idx(S2.ids, U) < S2.inter.sizes[1]
    ensures Inv(S2)
  {
  }

  /** Marking a type paired with itself as initialised keeps the invariant. */
  lemma MarkInitialised(S: Registry, T: SetType)
    requires Inv(S) && Paired(S, T, T)
    ensures Inv(S.(initialised := S.initialised + {T}))
  {
  }

  /**
   * `register_operators<T, U>`: the indices of `T` and `U`, then the
   * operators of `T` against `U` and of `U` against `T`.
   */
  method RegisterOperators(S: Registry, T: SetType, U: SetType) returns (S2: Registry)
    requires Inv(S) && Compiles(T, U)
    ensures Inv(S2) && Grows(S, S2)
    ensures Paired(S2, T, U) && Paired(S2, U, T)
    ensures NewIdsIn(S, S2, {T, U}) && NewPairs(S, S2, T, {U})
  {
    CompilesSymmetric(T, U);
    var (S1, i) := Index(S, T);
    var (S3, j) := Index(S1, U);
    IndexPairs(S, S1);
    IndexPairs(S1, S3);
    IdsTrans(S, S1, S3, {T}, {U});
    GrowsTrans(S, S1, S3);
    var S4 := OneSided(S3, T, U, i, j);
    S2 := OneSided(S4, U, T, j, i);
    PairsTrans(S3, S4, S2, T, {U}, {U});
    PairsTrans(S, S3, S2, T, {}, {U});
    GrowsTrans(S3, S4, S2);
    GrowsTrans(S, S3, S2);
    SetFacts(T, U);
    Restore(S, S2, T, U);
  }

  /** `register_type()` of `T`: `register_operators<T, U>` for each type `U` it declares, in order. */
  method DeclareAll(S: Registry, T: SetType, us: seq<SetType>) returns (S2: Registry)
    requires Inv(S) && forall k :: 0 <= k < |us| ==> Compiles(T, us[k])
    ensures Inv(S2) && Grows(S, S2)
    ensures forall k :: 0 <= k < |us| ==> Paired(S2, T, us[k]) && Paired(S2, us[k], T)
    ensures NewIdsIn(S, S2, Elements(us) + {T}) && NewPairs(S, S2, T, Elements(us))
    ensures us == [] ==> S2 == S
  {
    S2 := S;
    ghost var W: set<SetType> := {};
    var k := 0;
    while k < |us|
      invariant 0 <= k <= |us|
      invariant Inv(S2) && Grows(S, S2)
      invariant forall m :: 0 <= m < k ==> Paired(S2, T, us[m]) && Paired(S2, us[m], T)
      invariant W <= Elements(us)
      invariant NewIdsIn(S, S2, W + {T}) && NewPairs(S, S2, T, W)
      invariant k == 0 ==> S2 == S
    {
      var S3 := RegisterOperators(S2, T, us[k]);
      DeclareStep(S, S2, S3, T, us, k, W);
      S2, W, k := S3, W + {us[k]}, k + 1;
    }
  }

  /** One step of `DeclareAll`: registering the pair of `T` and `us[k]` keeps what the loop has established and extends it to `us[k]`. */
  lemma DeclareStep(S: Registry, S2: Registry, S3: Registry, T: SetType, us: seq<SetType>, k: nat, W: set<SetType>)
    requires k < |us| && Grows(S, S2) && Grows(S2, S3) && W <= Elements(us)
    requires forall m :: 0 <= m < k ==> Paired(S2, T, us[m]) && Paired(S2, us[m], T)
    requires Paired(S3, T, us[k]) && Paired(S3, us[k], T)
    requires NewIdsIn(S, S2, W + {T}) && NewPairs(S, S2, T, W)
    requires NewIdsIn(S2, S3, {T, us[k]}) && NewPairs(S2, S3, T, {us[k]})
    ensures Grows(S, S3) && W + {us[k]} <= Elements(us)
    ensures forall m :: 0 <= m < k + 1 ==> Paired(S3, T, us[m]) && Paired(S3, us[m], T)
    ensures NewIdsIn(S, S3, W + {us[k]} + {T}) && NewPairs(S, S3, T, W + {us[k]})
  {
    IdsTrans(S, S2, S3, W + {T}, {T, us[k]});
    PairsTrans(S, S2, S3, T, W, {us[k]});
    GrowsTrans(S, S2, S3);
    assert W + {T} + {T, us[k]} == W + {us[k]} + {T};
  }

  /** `register_operators<T>()`: the index of `T` and the operators of `T` against itself. */
  method RegisterSelf(S: Registry, T: SetType) returns (S2: Registry, i: nat)
    requires Inv(S)
    ensures Inv(S2) && Grows(S, S2)
    ensures Paired(S2, T, T) && Has(S2.ids, T) && Idx(S2.ids, T) == i
    ensures !Has(S.ids, T) ==> i == Next(S.ids, MeasurableSet) && Next(S2.ids, MeasurableSet) == i + 1
    ensures NewIdsIn(S, S2, {T}) && NewPairs(S, S2, T, {T})
  {
    var (S1, i1) := Index(S, T);
    IndexPairs(S, S1);
    i := i1;
    S2 := OneSided(S1, T, T, i, i);
    GrowsTrans(S, S1, S2);
    PairsTrans(S, S1, S2, T, {}, {T});
    SetFacts(T, T);
    Restore(S, S2, T, T);
  }

  /**
   * The static initialisation of `MeasurableSetCRTP<T>::type_index`:
   * `T::register_type()`, which registers the pairs of `T` with each type in
   * `partners`, then `register_operators<T>()`, whose result is stored.
   */
  method Initialise(S: Registry, T: SetType, partners: seq<SetType>) returns (S2: Registry, i: nat)
    requires Inv(S) && forall k :: 0 <= k < |partners| ==> Compiles(T, partners[k])
    ensures Inv(S2) && IdsKept(S.ids, S2.ids) && Keeps(S, S2) && S2.initialised == S.initialised + {T}
    ensures Has(S2.ids, T) && Idx(S2.ids, T) == i && Paired(S2, T, T)
    ensures forall k :: 0 <= k < |partners| ==> Paired(S2, T, partners[k]) && Paired(S2, partners[k], T)
    ensures NewIdsIn(S, S2, Elements(partners) + {T}) && NewPairs(S, S2, T, Elements(partners) + {T})
    ensures partners == [] && !Has(S.ids, T) ==> i == Next(S.ids, MeasurableSet) && Next(S2.ids, MeasurableSet) == i + 1
  {
    var S1 := DeclareAll(S, T, partners);
    var S3;
    S3, i := RegisterSelf(S1, T);
    IdsTrans(S, S1, S3, Elements(partners) + {T}, {T});
    PairsTrans(S, S1, S3, T, Elements(partners), {T});
    GrowsTrans(S, S1, S3);
    assert Elements(partners) + {T} + {T} == Elements(partners) + {T};
    MarkInitialised(S3, T);
    S2 := S3.(initialised := S3.initialised + {T});
    assert Keeps(S3, S2) && NewPairs(S3, S2, T, {});
  }

  // ---------------------------------------------------------------------
  // Handles and their operators
  // ---------------------------------------------------------------------

  /** `h` holds a set type together with that type's index. */
  predicate Holds(S: Registry, h: Handle) {
    Has(S.ids, h.held) && h.id == Idx(S.ids, h.held)
  }

  /** The `MeasurableSet(T&&)` constructor: the value, and the type index its static initialisation stored. */
  function Wrap(S: Registry, T: SetType): (h: Handle)
    requires Inv(S) && T in S.initialised
    ensures Holds(S, h) && h.held == T
  {
    Handle(Idx(S.ids, T), T)
  }

  /** With every index covered, `execute_function` at two handles' indices reads exactly their entry: nothing aliases. */
  lemma NoAliasing(S: Registry, a: Handle, b: Handle)
    requires Inv(S) && Holds(S, a) && Holds(S, b)
    ensures Lookup(S.inter, [a.id, b.id]) == Get(S.inter, [a.id, b.id])
    ensures Lookup(S.union, [a.id, b.id]) == Get(S.union, [a.id, b.id])
    ensures Get(S.inter, [a.id, b.id]).Ops? ==> Get(S.inter, [a.id, b.id]) == Ops(a.held, b.held)
  {
    if Get(S.inter, [a.id, b.id]).Ops? {
      StoredIsOps(S.ids, S.inter, a.held, b.held);
    }
  }

  /**
   * Handle `&&`: the function stored in the intersection register at the two
   * indices. `unknown_operator` throws; a stored operator applies the
   * concrete `&&` of the two types and wraps the result with its type's index.
   */
  function And(S: Registry, a: Handle, b: Handle): (o: Outcome)
    requires Inv(S) && Holds(S, a) && Holds(S, b)
    ensures o.LogicError? <==> !Paired(S, a.held, b.held)
    ensures o.Value? ==> Holds(S, o.h) && SetTypes.And(a.held, b.held) == Resolves(o.h.held)
    ensures o.Value? ==> forall p :: InSet(o.h.held, p) <==> InSet(a.held, p) && InSet(b.held, p)
  {
    NoAliasing(S, a, b);
    match Lookup(S.inter, [a.id, b.id])
    case Unknown => LogicError
    case Ops(l, r) =>
      var X := SetTypes.And(l, r).T;
      Value(Handle(Idx(S.ids, X), X))
  }

  /**
   * Handle `||`: the function stored in the union register at the two
   * indices. `unknown_operator` throws; a stored operator applies the
   * concrete `||` of the two types and wraps the result with its type's index.
   */
  function Or(S: Registry, a: Handle, b: Handle): (o: Outcome)
    requires Inv(S) && Holds(S, a) && Holds(S, b)
    ensures o.LogicError? <==> !Paired(S, a.held, b.held)
    ensures o.Value? ==> Holds(S, o.h) && SetTypes.Or(a.held, b.held) == Resolves(o.h.held)
    ensures o.Value? ==> forall p :: InSet(o.h.held, p) <==> InSet(a.held, p) || InSet(b.held, p)
  {
    NoAliasing(S, a, b);
    match Lookup(S.union, [a.id, b.id])
    case Unknown => LogicError
    case Ops(l, r) =>
      var X := SetTypes.Or(l, r).T;
      Value(Handle(Idx(S.ids, X), X))
  }

  // ---------------------------------------------------------------------
  // The generic operators
  // ---------------------------------------------------------------------

  /**
   * The generic `==`: true for two values of the same set type, false for
   * different types. It agrees with the points everywhere except for the
   * empty and the null set, which hold the same (no) points yet compare
   * unequal.
   */
  function GenericEqual(l: SetType, r: SetType): (eq: bool)
    ensures eq ==> SamePoints(l, r)
    ensures !eq && !EmptyAndNull(l, r) ==> !SamePoints(l, r)
    ensures EmptyAndNull(l, r) ==> !eq && SamePoints(l, r)
  {
    if l == r then true
    else
      DistinctTypes(l, r);
      false
  }

  /** Different set types hold different points unless they are the empty and the null set. */
  lemma DistinctTypes(l: SetType, r: SetType)
    requires l != r
    ensures !EmptyAndNull(l, r) ==> !SamePoints(l, r)
  {
    if !EmptyAndNull(l, r) {
      Distinct(l, r);
    }
  }

  /** The generic `!=`: the negation of the generic `==`, so true exactly for different set types. */
  function GenericNotEqual(l: SetType, r: SetType): (ne: bool)
    ensures ne <==> l != r
    ensures ne <==> !GenericEqual(l, r)
  {
    !GenericEqual(l, r)
  }

  /** The generic same-type `&&`: the left operand, which is the intersection of a set with itself. */
  function SameAnd(l: SetType, r: SetType): (m: SetType)
    requires l == r
    ensures forall p :: InSet(m, p) <==> InSet(l, p) && InSet(r, p)
    ensures SetTypes.And(l, r) == Resolves(m)
  {
    l
  }

  /** The generic same-type `||`: the left operand, which is the union of a set with itself. */
  function SameOr(l: SetType, r: SetType): (m: SetType)
    requires l == r
    ensures forall p :: InSet(m, p) <==> InSet(l, p) || InSet(r, p)
    ensures SetTypes.Or(l, r) == Resolves(m)
  {
    l
  }

  // ---------------------------------------------------------------------
  // Initialising two types that declare nothing
  // ---------------------------------------------------------------------

  /** The reals have been initialised alone, declaring nothing, and hold index 0. */
  ghost predicate RealsAlone(S: Registry) {
    Inv(S) && S.initialised == {NamedSet(NamedSets.Reals)}
    && Has(S.ids, NamedSet(NamedSets.Reals)) && Idx(S.ids, NamedSet(NamedSets.Reals)) == 0
    && Next(S.ids, MeasurableSet) == 1
    && (forall U :: Has(S.ids, U) ==> U == NamedSet(NamedSets.Reals))
  }

  /** Initialising the reals first, with no declared partners, gives them index 0. */
  method InitialiseReals(S: Registry) returns (S1: Registry, i: nat)
    requires Unused(S)
    ensures RealsAlone(S1) && i == 0
  {
    assert !Has(S.ids, NamedSet(NamedSets.Reals));
    S1, i := Initialise(S, NamedSet(NamedSets.Reals), []);
  }

  /**
   * Initialising the integers next, again with no declared partners: the
   * pair of the reals and the integers was never registered, so `&&` and
   * `||` between their handles reach `unknown_operator` and throw, while
   * each type against itself has its operators.
   */
  method InitialiseIntegers(S: Registry) returns (S2: Registry, r: Handle, z: Handle)
    requires RealsAlone(S)
    ensures Inv(S2) && Holds(S2, r) && Holds(S2, z)
    ensures r == Handle(0, NamedSet(NamedSets.Reals)) && z == Handle(1, NamedSet(NamedSets.Integers))
    ensures And(S2, r, z) == LogicError && Or(S2, r, z) == LogicError
    ensures And(S2, z, r) == LogicError && Or(S2, z, r) == LogicError
    ensures And(S2, r, r) == Value(r) && Or(S2, z, z) == Value(z)
  {
    var R, Z := NamedSet(NamedSets.Reals), NamedSet(NamedSets.Integers);
    assert !Has(S.ids, Z);
    var i;
    S2, i := Initialise(S, Z, []);
    r, z := Wrap(S2, R), Wrap(S2, Z);
    assert !Paired(S, R, Z) && !Paired(S, Z, R);
    assert Paired(S, R, R);
  }
}
