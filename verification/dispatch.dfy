/**
 * Multiple dispatch of `MeasurableSet` handles. A handle holds a set and
 * the index of its type. Registering a type fills five function registers:
 * pairwise `&&` and `||` (indexed by the two operands' type indices), a
 * default `&&` and a default `||` per type, and an output operator per
 * type. The static-initialisation trick of the library becomes an explicit
 * `RegisterType` transition.
 */
module Dispatch {
  import opened RegisterIndex
  import opened FunctionRegisters
  import opened TypeIndices
  import opened SetTypes
  import NamedSets

  const Naturals := NamedSet(NamedSets.Naturals)
  const Integers := NamedSet(NamedSets.Integers)
  const Reals := NamedSet(NamedSets.Reals)

  /** The single base under which this revision reserves type indices. */
  datatype Base = MeasurableSetImpl

  /** Which per-type declarations are in force: the library's, or the one with Integers also naming NaturalNumbers. */
  datatype Declarations = AsWritten | IntegersNameNaturals

  /** The registered pairwise operator: apply the concrete operator of `l` and `r`. */
  datatype Pairwise = Pair(l: SetType, r: SetType)

  /** `get_this_set` and `get_other_set`. */
  datatype Fallback = ThisSet | OtherSet

  datatype Option<A> = None | Some(value: A)

  datatype Handle = Handle(id: nat, held: SetType)

  datatype Outcome = Value(h: Handle) | LogicError

  datatype Output = Printed(shown: SetType) | PrintError

  datatype Registry = Registry(
    decls: Declarations,
    ids: TypeIds<Base, SetType>,
    registered: set<SetType>,
    callbacks: seq<SetType>,
    inter: Register<Option<Pairwise>>,
    union: Register<Option<Pairwise>>,
    interDefault: Register<Option<Fallback>>,
    unionDefault: Register<Option<Fallback>>,
    printers: Register<Option<SetType>>)

  /** The types a type names in its `register_type(std::size_t)`. */
  function Partners(decls: Declarations, T: SetType): seq<SetType> {
    if T == Reals then [Naturals, Integers]
    else if T == Integers && decls == IntegersNameNaturals then [Naturals]
    else []
  }

  /** A pair whose operators get registered once both types are: the same type, or one names the other. */
  predicate Related(decls: Declarations, U: SetType, V: SetType) {
    U == V || V in Partners(decls, U) || U in Partners(decls, V)
  }

  /** The types whose `register_type(void)` registers default operators: `&&` gives this set, `||` the other one. */
  predicate HasDefaults(T: SetType) {
    T == EmptySet || T == NullSet
  }

  /** Every related pair has concrete operators. */
  lemma RelatedHasOperators(decls: Declarations, U: SetType, V: SetType)
    requires Related(decls, U, V)
    ensures SetTypes.And(U, V).Resolves? && SetTypes.Or(U, V).Resolves?
  {
  }

  // ---------------------------------------------------------------------
  // Type indices
  // ---------------------------------------------------------------------

  type Ids = TypeIds<Base, SetType>

  predicate Has(I: Ids, T: SetType) {
    (MeasurableSetImpl, T) in I.ids
  }

  function Idx(I: Ids, T: SetType): nat
    requires Has(I, T)
  {
    I.ids[(MeasurableSetImpl, T)]
  }

  predicate HasId(S: Registry, T: SetType) {
    Has(S.ids, T)
  }

  function IdOf(S: Registry, T: SetType): nat
    requires HasId(S, T)
  {
    Idx(S.ids, T)
  }

  function NextId(S: Registry): nat {
    Next(S.ids, MeasurableSetImpl)
  }

  /** Between `I` and `I2` old indices are kept and only `X` may have been given a new one, the next. */
  ghost predicate IdsAllocate(I: Ids, I2: Ids, X: SetType) {
    var b := MeasurableSetImpl;
    (forall U :: Has(I, U) ==> Has(I2, U) && Idx(I2, U) == Idx(I, U))
    && (forall U :: Has(I2, U) ==> Has(I, U) || U == X)
    && (Has(I, X) || !Has(I2, X) ==> Next(I2, b) == Next(I, b))
    && (!Has(I, X) && Has(I2, X) ==> Idx(I2, X) == Next(I, b) && Next(I2, b) == Next(I, b) + 1)
  }

  /** Between `S` and `S2` the declarations are the same and only `X` may have been given an index. */
  ghost predicate Allocates(S: Registry, S2: Registry, X: SetType) {
    S2.decls == S.decls && IdsAllocate(S.ids, S2.ids, X)
  }

  // ---------------------------------------------------------------------
  // Well-formed registries
  // ---------------------------------------------------------------------

  predicate PairShape(R: Register<Option<Pairwise>>) {
    Valid(R) && |R.sizes| == 2 && R.default == None
  }

  predicate SingleShape<A>(R: Register<Option<A>>) {
    Valid(R) && |R.sizes| == 1 && R.default == None
  }

  /** Every stored pairwise operator sits at the indices of its two types, and they are related. */
  ghost predicate PairsAt(decls: Declarations, I: Ids, R: Register<Option<Pairwise>>)
    requires PairShape(R)
  {
    forall t :: |t| == 2 && Get(R, t).Some? ==>
      var e := Get(R, t).value;
      Has(I, e.l) && Has(I, e.r) && t == [Idx(I, e.l), Idx(I, e.r)] && Related(decls, e.l, e.r)
  }

  /** The indices of registered types are inside both dimensions of a pairwise register. */
  ghost predicate Covered(I: Ids, registered: set<SetType>, R: Register<Option<Pairwise>>)
    requires PairShape(R)
  {
    forall U :: U in registered ==> Has(I, U) && Idx(I, U) < R.sizes[0] && Idx(I, U) < R.sizes[1]
  }

  /** Default operators are `f`, only for types that declare defaults, and present for every registered one that does. */
  ghost predicate DefaultsAt(I: Ids, registered: set<SetType>, R: Register<Option<Fallback>>, f: Fallback)
    requires SingleShape(R)
  {
    (forall t :: |t| == 1 && Get(R, t).Some? ==> Get(R, t) == Some(f) && t[0] < Next(I, MeasurableSetImpl))
    && (forall U :: Has(I, U) && Get(R, [Idx(I, U)]).Some? ==> HasDefaults(U))
    && (forall U :: U in registered && HasDefaults(U) ==> Has(I, U) && Get(R, [Idx(I, U)]) == Some(f))
  }

  /** Each output operator sits at the index of its type, and every registered type has one. */
  ghost predicate PrintersAt(I: Ids, registered: set<SetType>, P: Register<Option<SetType>>)
    requires SingleShape(P)
  {
    (forall t :: |t| == 1 && Get(P, t).Some? ==> Has(I, Get(P, t).value) && t == [Idx(I, Get(P, t).value)])
    && (forall U :: U in registered ==> Has(I, U) && Get(P, [Idx(I, U)]) == Some(U))
  }

  /** What holds between the steps of a registration. */
  ghost predicate Sound(S: Registry) {
    SoundParts(S.decls, S.ids, S.registered, S.inter, S.union, S.interDefault, S.unionDefault, S.printers)
  }

  /** `Sound`, stated on the parts of a registry it depends on. */
  ghost predicate SoundParts(
    decls: Declarations, I: Ids, registered: set<SetType>,
    inter: Register<Option<Pairwise>>, union: Register<Option<Pairwise>>,
    interDefault: Register<Option<Fallback>>, unionDefault: Register<Option<Fallback>>,
    printers: Register<Option<SetType>>)
  {
    TypeIndices.Inv(I)
    && PairShape(inter) && PairShape(union)
    && SingleShape(interDefault) && SingleShape(unionDefault) && SingleShape(printers)
    && (forall U :: U in registered ==> Has(I, U))
    && PairsAt(decls, I, inter) && PairsAt(decls, I, union)
    && Covered(I, registered, inter) && Covered(I, registered, union)
    && DefaultsAt(I, registered, interDefault, ThisSet) && DefaultsAt(I, registered, unionDefault, OtherSet)
    && PrintersAt(I, registered, printers)
  }

  /** Both pairwise registers hold operators for `U` against `V` and for `V` against `U`. */
  ghost predicate Filled(S: Registry, U: SetType, V: SetType) {
    FilledIn(S.ids, S.inter, S.union, U, V)
  }

  /** `Filled`, stated on the parts of a registry it depends on. */
  ghost predicate FilledIn(I: Ids, inter: Register<Option<Pairwise>>, union: Register<Option<Pairwise>>, U: SetType, V: SetType) {
    PairShape(inter) && PairShape(union) && Has(I, U) && Has(I, V)
    && var i, j := Idx(I, U), Idx(I, V);
    Get(inter, [i, j]).Some? && Get(union, [i, j]).Some? && Get(inter, [j, i]).Some? && Get(union, [j, i]).Some?
  }

  /** Every related pair of registered types is filled. */
  ghost predicate Complete(S: Registry) {
    forall U, V :: U in S.registered && V in S.registered && Related(S.decls, U, V) ==> Filled(S, U, V)
  }

  /** A registry between registrations: sound and complete, only registered types have indices, and each registered type left its callback. */
  ghost predicate Inv(S: Registry) {
    Sound(S) && Complete(S)
    && (forall U :: HasId(S, U) ==> U in S.registered)
    && (forall U :: U in S.registered <==> U in S.callbacks)
  }

  /** Between `S` and `S2` filled pairs stay filled. */
  ghost predicate Keeps(S: Registry, S2: Registry) {
    forall U, V :: Filled(S, U, V) ==> Filled(S2, U, V)
  }

  /** The registry before any type is registered: every register empty, with room for 8 types. */
  function Start(decls: Declarations): (S: Registry)
    ensures Inv(S) && S.registered == {} && S.decls == decls
    ensures forall U :: !HasId(S, U)
    ensures NextId(S) == 0
  {
    Registry(decls, NoIds(), {}, [],
      New([8, 8], None), New([8, 8], None), New([8], None), New([8], None), New([8], None))
  }

  // ---------------------------------------------------------------------
  // Facts about sound registries
  // ---------------------------------------------------------------------

  /** Different types have different indices. */
  lemma IdsDistinct(I: Ids, U: SetType, V: SetType)
    requires TypeIndices.Inv(I) && Has(I, U) && Has(I, V) && Idx(I, U) == Idx(I, V)
    ensures U == V
  {
  }

  /** A stored pairwise operator at the indices of `U` and `V` is the one for `U` against `V`. */
  lemma StoredIsPair(decls: Declarations, I: Ids, R: Register<Option<Pairwise>>, U: SetType, V: SetType)
    requires TypeIndices.Inv(I) && PairShape(R) && PairsAt(decls, I, R)
    requires Has(I, U) && Has(I, V) && Get(R, [Idx(I, U), Idx(I, V)]).Some?
    ensures Get(R, [Idx(I, U), Idx(I, V)]) == Some(Pair(U, V))
  {
    var e := Get(R, [Idx(I, U), Idx(I, V)]).value;
    assert [Idx(I, U), Idx(I, V)] == [Idx(I, e.l), Idx(I, e.r)];
    IdsDistinct(I, U, e.l);
    IdsDistinct(I, V, e.r);
  }

  /** Giving `X` an index keeps a registry sound. */
  lemma RenumberSound(S: Registry, S2: Registry, X: SetType)
    requires Sound(S) && S2 == S.(ids := S2.ids) && TypeIndices.Inv(S2.ids) && Allocates(S, S2, X)
    ensures Sound(S2)
  {
  }

  /** Allocation composes: two steps that may each index `X` together may index only `X`. */
  lemma AllocatesTrans(S1: Registry, S2: Registry, S3: Registry, X: SetType)
    requires TypeIndices.Inv(S2.ids) && Allocates(S1, S2, X) && Allocates(S2, S3, X)
    ensures Allocates(S1, S3, X)
  {
  }

  // ---------------------------------------------------------------------
  // Registration steps
  // ---------------------------------------------------------------------

  /** `get_type_index<MeasurableSetImpl, T>`. */
  function Id(S: Registry, T: SetType): (r: (Registry, nat))
    requires Sound(S)
    ensures Sound(r.0) && Allocates(S, r.0, T) && Keeps(S, r.0) && HasId(r.0, T) && IdOf(r.0, T) == r.1
    ensures HasId(S, T) ==> r.0 == S
    ensures r.0 == S.(ids := r.0.ids)
  {
    var (ids, i) := GetIndex(S.ids, MeasurableSetImpl, T);
    RenumberSound(S, S.(ids := ids), T);
    (S.(ids := ids), i)
  }

  /** Storing the operator of `L` against `R` at their indices keeps every stored pairwise operator at its place. */
  lemma PutPair(decls: Declarations, I: Ids, R: Register<Option<Pairwise>>, L: SetType, Rt: SetType)
    requires PairShape(R) && PairsAt(decls, I, R)
    requires Has(I, L) && Has(I, Rt) && Related(decls, L, Rt)
    ensures var R2 := Put(R, [Idx(I, L), Idx(I, Rt)], Some(Pair(L, Rt)));
      PairShape(R2) && PairsAt(decls, I, R2) && NoSmaller(R.sizes, R2.sizes)
      && forall t :: |t| == 2 && Get(R, t).Some? ==> Get(R2, t).Some?
  {
  }

  /** Between two registries with the same indices, pairwise operators that stay stored keep every filled pair filled. */
  lemma KeepsByGrowth(S: Registry, S2: Registry)
    requires PairShape(S.inter) && PairShape(S.union) && PairShape(S2.inter) && PairShape(S2.union) && S2.ids == S.ids
    requires forall t :: |t| == 2 && Get(S.inter, t).Some? ==> Get(S2.inter, t).Some?
    requires forall t :: |t| == 2 && Get(S.union, t).Some? ==> Get(S2.union, t).Some?
    ensures Keeps(S, S2)
  {
    forall U, V | Filled(S, U, V) ensures Filled(S2, U, V) {
      var i, j := IdOf(S, U), IdOf(S, V);
      assert Get(S.inter, [i, j]).Some? && Get(S.inter, [j, i]).Some?;
      assert Get(S.union, [i, j]).Some? && Get(S.union, [j, i]).Some?;
    }
  }

  /** Replacing the pairwise registers by larger ones whose operators sit at their indices keeps a registry sound. */
  lemma PairwiseFrame(S: Registry, S2: Registry)
    requires Sound(S) && S2 == S.(inter := S2.inter, union := S2.union)
    requires PairShape(S2.inter) && PairShape(S2.union)
    requires NoSmaller(S.inter.sizes, S2.inter.sizes) && NoSmaller(S.union.sizes, S2.union.sizes)
    requires PairsAt(S.decls, S.ids, S2.inter) && PairsAt(S.decls, S.ids, S2.union)
    ensures Sound(S2)
  {
    assert Covered(S.ids, S.registered, S2.inter) && Covered(S.ids, S.registered, S2.union);
  }

  /** `register_operators_onesided<L, R>`: store the pairwise `&&` and `||` of `L` against `R` at their indices. */
  function OneSided(S: Registry, L: SetType, R: SetType, i: nat, j: nat): (S2: Registry)
    requires Sound(S) && HasId(S, L) && HasId(S, R) && i == IdOf(S, L) && j == IdOf(S, R)
    requires Related(S.decls, L, R)
    ensures Sound(S2) && Keeps(S, S2)
    ensures S2 == S.(inter := S2.inter, union := S2.union)
    ensures Get(S2.inter, [i, j]).Some? && Get(S2.union, [i, j]).Some?
    ensures Fits([i, j], S2.inter.sizes) && Fits([i, j], S2.union.sizes)
    ensures forall t :: |t| == 2 && Get(S.inter, t).Some? ==> Get(S2.inter, t).Some?
    ensures forall t :: |t| == 2 && Get(S.union, t).Some? ==> Get(S2.union, t).Some?
  {
    var S2 := S.(inter := Put(S.inter, [i, j], Some(Pair(L, R))), union := Put(S.union, [i, j], Some(Pair(L, R))));
    PutPair(S.decls, S.ids, S.inter, L, R);
    PutPair(S.decls, S.ids, S.union, L, R);
    PairwiseFrame(S, S2);
    KeepsByGrowth(S, S2);
    S2
  }

  /** The two one-sided registrations of `register_operators<T, U>`: `T` against `U`, then `U` against `T`. */
  function BothSides(S: Registry, T: SetType, U: SetType): (S2: Registry)
    requires Sound(S) && HasId(S, T) && HasId(S, U) && Related(S.decls, T, U)
    ensures Sound(S2) && Keeps(S, S2) && Filled(S2, T, U)
    ensures S2 == S.(inter := S2.inter, union := S2.union)
  {
    var i, j := IdOf(S, T), IdOf(S, U);
    var S3 := OneSided(S, T, U, i, j);
    var S4 := OneSided(S3, U, T, j, i);
    assert Get(S4.inter, [i, j]).Some? && Get(S4.union, [i, j]).Some?;
    S4
  }

  /** `MeasurableSet::register_operators<T, U>`: the index of `T`, then of `U`, then both orders. */
  function RegisterPair(S: Registry, T: SetType, U: SetType): (S2: Registry)
    requires Sound(S) && HasId(S, U) && Related(S.decls, T, U)
    ensures Sound(S2) && Allocates(S, S2, T) && Keeps(S, S2) && Filled(S2, T, U)
    ensures S2 == S.(ids := S2.ids, inter := S2.inter, union := S2.union)
    ensures HasId(S, T) ==> S2.ids == S.ids
  {
    var (S1, i) := Id(S, T);
    var (S1', j) := Id(S1, U);
    assert S1' == S1;
    BothSides(S1, T, U)
  }

  /** Storing the default `f` at the index of a type that declares defaults keeps the default register well placed. */
  lemma PutDefault(I: Ids, registered: set<SetType>, R: Register<Option<Fallback>>, f: Fallback, T: SetType)
    requires TypeIndices.Inv(I) && SingleShape(R) && DefaultsAt(I, registered, R, f)
    requires Has(I, T) && HasDefaults(T)
    ensures var R2 := Put(R, [Idx(I, T)], Some(f));
      SingleShape(R2) && DefaultsAt(I, registered, R2, f) && Get(R2, [Idx(I, T)]) == Some(f)
  {
    var R2 := Put(R, [Idx(I, T)], Some(f));
    forall U | Has(I, U) && Get(R2, [Idx(I, U)]).Some? ensures HasDefaults(U) {
      if Idx(I, U) == Idx(I, T) {
        IdsDistinct(I, U, T);
      }
    }
  }

  /** `default_intersection_this<T>` then `default_union_other<T>`, which `register_type(void)` of the empty and null sets call. */
  function Defaults(S: Registry, T: SetType): (S2: Registry)
    requires Sound(S) && HasDefaults(T)
    ensures Sound(S2) && Allocates(S, S2, T) && Keeps(S, S2) && HasId(S2, T)
    ensures S2 == S.(ids := S2.ids, interDefault := S2.interDefault, unionDefault := S2.unionDefault)
    ensures Get(S2.interDefault, [IdOf(S2, T)]) == Some(ThisSet)
    ensures Get(S2.unionDefault, [IdOf(S2, T)]) == Some(OtherSet)
  {
    var (S1, i) := Id(S, T);
    var S2 := DefaultThis(S1, T, i);
    var (S3, j) := Id(S2, T);
    assert S3 == S2;
    DefaultOther(S2, T, i)
  }

  /** `default_intersection_this<T>` after the index of `T` is known. */
  function DefaultThis(S: Registry, T: SetType, i: nat): (S2: Registry)
    requires Sound(S) && HasDefaults(T) && HasId(S, T) && i == IdOf(S, T)
    ensures Sound(S2) && Keeps(S, S2) && S2 == S.(interDefault := S2.interDefault)
    ensures Get(S2.interDefault, [i]) == Some(ThisSet)
  {
    PutDefault(S.ids, S.registered, S.interDefault, ThisSet, T);
    var S2 := S.(interDefault := Put(S.interDefault, [i], Some(ThisSet)));
    SingleFrame(S, S2);
    S2
  }

  /** `default_union_other<T>` after the index of `T` is known. */
  function DefaultOther(S: Registry, T: SetType, i: nat): (S2: Registry)
    requires Sound(S) && HasDefaults(T) && HasId(S, T) && i == IdOf(S, T)
    ensures Sound(S2) && Keeps(S, S2) && S2 == S.(unionDefault := S2.unionDefault)
    ensures Get(S2.unionDefault, [i]) == Some(OtherSet)
  {
    PutDefault(S.ids, S.registered, S.unionDefault, OtherSet, T);
    var S2 := S.(unionDefault := Put(S.unionDefault, [i], Some(OtherSet)));
    SingleFrame(S, S2);
    S2
  }

  /** Storing the output operator of `T` at its index keeps every output operator at its place. */
  lemma PutPrinter(I: Ids, registered: set<SetType>, P: Register<Option<SetType>>, T: SetType)
    requires TypeIndices.Inv(I) && SingleShape(P) && PrintersAt(I, registered, P) && Has(I, T)
    ensures var P2 := Put(P, [Idx(I, T)], Some(T));
      SingleShape(P2) && PrintersAt(I, registered, P2) && Get(P2, [Idx(I, T)]) == Some(T)
  {
    var P2 := Put(P, [Idx(I, T)], Some(T));
    forall U | U in registered ensures Has(I, U) && Get(P2, [Idx(I, U)]) == Some(U) {
      if Idx(I, U) == Idx(I, T) {
        IdsDistinct(I, U, T);
      }
    }
  }

  /** Replacing the default and output registers by well-placed ones keeps a registry sound. */
  lemma SingleFrame(S: Registry, S2: Registry)
    requires Sound(S) && S2 == S.(interDefault := S2.interDefault, unionDefault := S2.unionDefault, printers := S2.printers)
    requires SingleShape(S2.interDefault) && SingleShape(S2.unionDefault) && SingleShape(S2.printers)
    requires DefaultsAt(S.ids, S.registered, S2.interDefault, ThisSet) && DefaultsAt(S.ids, S.registered, S2.unionDefault, OtherSet)
    requires PrintersAt(S.ids, S.registered, S2.printers)
    ensures Sound(S2) && Keeps(S, S2)
  {
    KeepsByGrowth(S, S2);
  }

  /** The output operator of `T` stored at its index. */
  function Printer(S: Registry, T: SetType, i: nat): (S2: Registry)
    requires Sound(S) && HasId(S, T) && i == IdOf(S, T)
    ensures Sound(S2) && Keeps(S, S2) && S2 == S.(printers := S2.printers)
    ensures Get(S2.printers, [i]) == Some(T)
  {
    PutPrinter(S.ids, S.registered, S.printers, T);
    var S2 := S.(printers := Put(S.printers, [i], Some(T)));
    SingleFrame(S, S2);
    S2
  }

  /** `MeasurableSet::register_operators<T>`: the pairwise operators of `T` against itself and its output operator; answers `T`'s index. */
  function RegisterSelf(S: Registry, T: SetType): (r: (Registry, nat))
    requires Sound(S)
    ensures Sound(r.0) && Allocates(S, r.0, T) && Keeps(S, r.0)
    ensures r.0 == S.(ids := r.0.ids, inter := r.0.inter, union := r.0.union, printers := r.0.printers)
    ensures HasId(r.0, T) && r.1 == IdOf(r.0, T) && Filled(r.0, T, T)
    ensures Fits([r.1, r.1], r.0.inter.sizes) && Fits([r.1, r.1], r.0.union.sizes)
    ensures Get(r.0.printers, [r.1]) == Some(T)
  {
    var (S1, i) := Id(S, T);
    var S2 := OneSided(S1, T, T, i, i);
    (Printer(S2, T, i), i)
  }

  /**
   * `register_operators<U1, U2, …>()`, reached through `register_type(max)`:
   * the pairs of `T` with each named type that is already registered.
   */
  function DeclareAll(S: Registry, T: SetType, us: seq<SetType>): (S2: Registry)
    requires Sound(S) && forall U :: U in us ==> Related(S.decls, T, U)
    ensures Sound(S2) && Allocates(S, S2, T) && Keeps(S, S2)
    ensures S2 == S.(ids := S2.ids, inter := S2.inter, union := S2.union)
    ensures forall U :: U in us && U in S.registered ==> Filled(S2, T, U)
    decreases |us|
  {
    if us == [] then S
    else
      var S1 := if us[0] in S.registered then RegisterPair(S, T, us[0]) else S;
      var S2 := DeclareAll(S1, T, us[1..]);
      AllocatesTrans(S, S1, S2, T);
      assert forall U :: U in us ==> U == us[0] || U in us[1..];
      S2
  }

  /**
   * `register_one_operator<U1, U2, …>(idx)`, reached through
   * `register_type(idx)`: the pairs of `C` with the first named type that is
   * registered and has index `idx`.
   */
  function DeclareOne(S: Registry, C: SetType, us: seq<SetType>, idx: nat): (S2: Registry)
    requires Sound(S) && HasId(S, C) && forall U :: U in us ==> Related(S.decls, C, U)
    ensures Sound(S2) && S2.ids == S.ids && Keeps(S, S2)
    ensures S2 == S.(inter := S2.inter, union := S2.union)
    ensures forall U :: U in us && U in S.registered && IdOf(S, U) == idx ==> Filled(S2, C, U)
    decreases |us|
  {
    if us == [] then S
    else if us[0] in S.registered && idx == IdOf(S, us[0]) then
      var S2 := RegisterPair(S, C, us[0]);
      assert forall U :: U in S.registered && IdOf(S, U) == idx ==> U == us[0];
      S2
    else
      assert forall U :: U in us ==> U == us[0] || U in us[1..];
      DeclareOne(S, C, us[1..], idx)
  }

  /** The callbacks of earlier registered types, in registration order, each with the index `idx` of the new type. */
  function RunCallbacks(S: Registry, cs: seq<SetType>, idx: nat): (S2: Registry)
    requires Sound(S) && forall C :: C in cs ==> C in S.registered
    ensures Sound(S2) && S2.ids == S.ids && Keeps(S, S2)
    ensures S2 == S.(inter := S2.inter, union := S2.union)
    ensures forall C, U :: C in cs && U in Partners(S.decls, C) && U in S.registered && IdOf(S, U) == idx ==> Filled(S2, C, U)
    decreases |cs|
  {
    if cs == [] then S
    else
      var S1 := DeclareOne(S, cs[0], Partners(S.decls, cs[0]), idx);
      var S2 := RunCallbacks(S1, cs[1..], idx);
      forall C, U | C in cs && U in Partners(S.decls, C) && U in S.registered && IdOf(S, U) == idx
        ensures Filled(S2, C, U)
      {
        if C == cs[0] {
          assert Filled(S1, C, U);
        } else {
          assert C in cs[1..];
        }
      }
      S2
  }

  /** Steps 1 to 3 of `get_registered_type_index`: defaults, pairs with registered named types, then `T` against itself and its output operator. */
  function Prepare(S: Registry, T: SetType): (r: (Registry, nat))
    requires Sound(S)
    ensures Sound(r.0) && Allocates(S, r.0, T) && Keeps(S, r.0)
    ensures r.0.registered == S.registered && r.0.callbacks == S.callbacks
    ensures HasId(r.0, T) && r.1 == IdOf(r.0, T) && Filled(r.0, T, T)
    ensures Fits([r.1, r.1], r.0.inter.sizes) && Fits([r.1, r.1], r.0.union.sizes)
    ensures HasDefaults(T) ==> Get(r.0.interDefault, [r.1]) == Some(ThisSet) && Get(r.0.unionDefault, [r.1]) == Some(OtherSet)
    ensures Get(r.0.printers, [r.1]) == Some(T)
    ensures forall U :: U in Partners(S.decls, T) && U in S.registered ==> Filled(r.0, T, U)
  {
    var S1 := if HasDefaults(T) then Defaults(S, T) else S;
    var S2 := DeclareAll(S1, T, Partners(S.decls, T));
    var (S3, i) := RegisterSelf(S2, T);
    AllocatesTrans(S, S1, S2, T);
    AllocatesTrans(S, S2, S3, T);
    (S3, i)
  }

  /** Step 4, `type_registered = true`, once `T` has its index, its pairs with itself, its defaults and its output operator. */
  function Mark(S: Registry, T: SetType, i: nat): (S2: Registry)
    requires Sound(S) && HasId(S, T) && i == IdOf(S, T)
    requires Fits([i, i], S.inter.sizes) && Fits([i, i], S.union.sizes)
    requires HasDefaults(T) ==> Get(S.interDefault, [i]) == Some(ThisSet) && Get(S.unionDefault, [i]) == Some(OtherSet)
    requires Get(S.printers, [i]) == Some(T)
    ensures Sound(S2) && S2 == S.(registered := S.registered + {T}) && Keeps(S, S2)
  {
    var S2 := S.(registered := S.registered + {T});
    MarkSound(S, T, i);
    KeepsByGrowth(S, S2);
    S2
  }

  /** Marking a prepared type registered keeps a registry sound. */
  lemma MarkSound(S: Registry, T: SetType, i: nat)
    requires Sound(S) && HasId(S, T) && i == IdOf(S, T)
    requires Fits([i, i], S.inter.sizes) && Fits([i, i], S.union.sizes)
    requires HasDefaults(T) ==> Get(S.interDefault, [i]) == Some(ThisSet) && Get(S.unionDefault, [i]) == Some(OtherSet)
    requires Get(S.printers, [i]) == Some(T)
    ensures Sound(S.(registered := S.registered + {T}))
  {
    MarkCovered(S.ids, S.registered, S.inter, T);
    MarkCovered(S.ids, S.registered, S.union, T);
    MarkDefaults(S.ids, S.registered, S.interDefault, ThisSet, T);
    MarkDefaults(S.ids, S.registered, S.unionDefault, OtherSet, T);
    MarkPrinters(S.ids, S.registered, S.printers, T);
  }

  lemma MarkCovered(I: Ids, registered: set<SetType>, R: Register<Option<Pairwise>>, T: SetType)
    requires PairShape(R) && Covered(I, registered, R) && Has(I, T) && Fits([Idx(I, T), Idx(I, T)], R.sizes)
    ensures Covered(I, registered + {T}, R)
  {
  }

  lemma MarkDefaults(I: Ids, registered: set<SetType>, R: Register<Option<Fallback>>, f: Fallback, T: SetType)
    requires SingleShape(R) && DefaultsAt(I, registered, R, f) && Has(I, T)
    requires HasDefaults(T) ==> Get(R, [Idx(I, T)]) == Some(f)
    ensures DefaultsAt(I, registered + {T}, R, f)
  {
  }

  lemma MarkPrinters(I: Ids, registered: set<SetType>, P: Register<Option<SetType>>, T: SetType)
    requires SingleShape(P) && PrintersAt(I, registered, P) && Has(I, T)
    requires Get(P, [Idx(I, T)]) == Some(T)
    ensures PrintersAt(I, registered + {T}, P)
  {
  }

  /** Steps 5 and 6: the earlier callbacks with the new index `i`, then `T`'s own callback appended. */
  function Announce(S: Registry, T: SetType, i: nat): (S2: Registry)
    requires Sound(S) && forall C :: C in S.callbacks ==> C in S.registered
    ensures Sound(S2) && Keeps(S, S2)
    ensures S2 == S.(inter := S2.inter, union := S2.union, callbacks := S.callbacks + [T])
    ensures forall C, U :: C in S.callbacks && U in Partners(S.decls, C) && U in S.registered && IdOf(S, U) == i ==> Filled(S2, C, U)
  {
    var S1 := RunCallbacks(S, S.callbacks, i);
    var S2 := S1.(callbacks := S.callbacks + [T]);
    KeepsByGrowth(S1, S2);
    S2
  }

  /**
   * After registering `T`, every related pair of registered types is filled:
   * old pairs stay filled, `T`'s own declarations fill its pairs with the
   * types it names, and the callbacks fill its pairs with the types that name it.
   */
  lemma RegisterComplete(S: Registry, S3: Registry, S4: Registry, S6: Registry, T: SetType, i: nat)
    requires forall U, V :: U in S.registered && V in S.registered && Related(S.decls, U, V) ==> Filled(S, U, V)
    requires forall U :: U in S.registered <==> U in S.callbacks
    requires Keeps(S, S3) && Keeps(S3, S4) && Keeps(S4, S6)
    requires S6.registered == S4.registered == S.registered + {T} && S6.decls == S4.decls == S.decls
    requires S4.ids == S3.ids && HasId(S3, T) && i == IdOf(S3, T)
    requires Filled(S3, T, T) && forall U :: U in Partners(S.decls, T) && U in S.registered ==> Filled(S3, T, U)
    requires forall C, U :: C in S.callbacks && U in Partners(S.decls, C) && U in S4.registered && HasId(S4, U) && IdOf(S4, U) == i ==> Filled(S6, C, U)
    ensures forall U, V :: U in S6.registered && V in S6.registered && Related(S6.decls, U, V) ==> Filled(S6, U, V)
  {
    forall U, V | U in S6.registered && V in S6.registered && Related(S6.decls, U, V)
      ensures Filled(S6, U, V)
    {
      if U != T && V != T {
        assert Filled(S, U, V);
      } else if U == T && V == T {
        assert Filled(S3, T, T);
      } else {
        var W := if U == T then V else U;
        assert W in S.registered;
        if W in Partners(S.decls, T) {
          assert Filled(S3, T, W);
        } else {
          assert T in Partners(S.decls, W);
          assert Filled(S6, W, T);
        }
      }
    }
  }

  /**
   * `MeasurableSetCRTP<T>::registered_type_index`: registering `T` on first
   * use. Every related pair of registered types then has its pairwise
   * operators, and `T` has the next index.
   */
  function RegisterType(S: Registry, T: SetType): (S2: Registry)
    requires Inv(S)
    ensures Inv(S2) && S2.decls == S.decls && S2.registered == S.registered + {T}
    ensures Allocates(S, S2, T) && Keeps(S, S2)
    ensures T in S.registered ==> S2 == S
    ensures T !in S.registered ==> IdOf(S2, T) == NextId(S) && NextId(S2) == NextId(S) + 1
  {
    if T in S.registered then S
    else
      var (S3, i) := Prepare(S, T);
      var S4 := Mark(S3, T, i);
      var S6 := Announce(S4, T, i);
      RegisterComplete(S, S3, S4, S6, T, i);
      S6
  }

  // ---------------------------------------------------------------------
  // What the registers hold between registrations
  // ---------------------------------------------------------------------

  /** Registration keeps every index and every registered type. */
  lemma RegisterKeepsIds(S: Registry, T: SetType, U: SetType)
    requires Inv(S) && HasId(S, U)
    ensures HasId(RegisterType(S, T), U) && IdOf(RegisterType(S, T), U) == IdOf(S, U)
  {
  }

  /**
   * Between registrations, a pairwise register holds an operator for two
   * registered types exactly when they are related, and then it is theirs.
   */
  lemma PairTable(S: Registry, U: SetType, V: SetType)
    requires Inv(S) && U in S.registered && V in S.registered
    ensures Get(S.inter, [IdOf(S, U), IdOf(S, V)]) == (if Related(S.decls, U, V) then Some(Pair(U, V)) else None)
    ensures Get(S.union, [IdOf(S, U), IdOf(S, V)]) == (if Related(S.decls, U, V) then Some(Pair(U, V)) else None)
  {
    if Get(S.inter, [IdOf(S, U), IdOf(S, V)]).Some? {
      StoredIsPair(S.decls, S.ids, S.inter, U, V);
    }
    if Get(S.union, [IdOf(S, U), IdOf(S, V)]).Some? {
      StoredIsPair(S.decls, S.ids, S.union, U, V);
    }
  }

  /** Slots at indices no type has been given are empty. */
  lemma PairTableBeyond(S: Registry, t: seq<nat>)
    requires Sound(S) && |t| == 2 && (t[0] >= NextId(S) || t[1] >= NextId(S))
    ensures Get(S.inter, t) == None && Get(S.union, t) == None
  {
  }

  // ---------------------------------------------------------------------
  // Handles
  // ---------------------------------------------------------------------

  /** A handle made by the public constructor: its type is registered and its index is that type's. */
  predicate Holds(S: Registry, h: Handle) {
    h.held in S.registered && HasId(S, h.held) && h.id == IdOf(S, h.held)
  }

  /** Registration leaves every handle valid. */
  lemma HoldsKept(S: Registry, S2: Registry, X: SetType, h: Handle)
    requires Allocates(S, S2, X) && S.registered <= S2.registered && Holds(S, h)
    ensures Holds(S2, h)
  {
  }

  /** The public `MeasurableSetHandler(T&&)`: registers `T` on first use and records its index. */
  function Wrap(S: Registry, T: SetType): (r: (Registry, Handle))
    requires Inv(S)
    ensures Inv(r.0) && Holds(r.0, r.1) && r.1.held == T
    ensures r.0.decls == S.decls && r.0.registered == S.registered + {T} && Allocates(S, r.0, T)
    ensures T in S.registered ==> r.0 == S
  {
    var S2 := RegisterType(S, T);
    (S2, Handle(IdOf(S2, T), T))
  }

  /** `get_this_set` and `get_other_set`. */
  function Pick(f: Fallback, first: Handle, second: Handle): (h: Handle)
    ensures h == first || h == second
  {
    match f
    case ThisSet => first
    case OtherSet => second
  }

  /** The pairwise lookup for two handles finds exactly the operator of their related types. */
  lemma PairLookup(S: Registry, a: Handle, b: Handle)
    requires Inv(S) && Holds(S, a) && Holds(S, b)
    ensures Lookup(S.inter, [a.id, b.id]) == (if Related(S.decls, a.held, b.held) then Some(Pair(a.held, b.held)) else None)
    ensures Lookup(S.union, [a.id, b.id]) == (if Related(S.decls, a.held, b.held) then Some(Pair(a.held, b.held)) else None)
  {
    PairTable(S, a.held, b.held);
  }

  /** The default lookup for a handle finds `get_this_set` (intersection) or `get_other_set` (union) exactly for the empty and null sets. */
  lemma DefaultLookup(S: Registry, h: Handle)
    requires Inv(S) && Holds(S, h)
    ensures Lookup(S.interDefault, [h.id]) == (if HasDefaults(h.held) then Some(ThisSet) else None)
    ensures Lookup(S.unionDefault, [h.id]) == (if HasDefaults(h.held) then Some(OtherSet) else None)
  {
  }

  /** The handle types for which `&&` and `||` find an operator: a related pair, or an empty or null set on either side. */
  predicate Dispatches(decls: Declarations, U: SetType, V: SetType) {
    Related(decls, U, V) || HasDefaults(U) || HasDefaults(V)
  }

  /**
   * Handle `&&`: the pairwise operator, else the left operand's default as
   * (this, other), else the right operand's default as (other, this), else
   * `empty_set()`, whose public constructor registers the empty set.
   */
  function And(S: Registry, a: Handle, b: Handle): (r: (Registry, Handle))
    requires Inv(S) && Holds(S, a) && Holds(S, b)
    ensures Inv(r.0) && Holds(r.0, r.1) && r.0.decls == S.decls
    ensures Related(S.decls, a.held, b.held) ==>
      r.0 == S && SetTypes.And(a.held, b.held).Resolves? && r.1.held == SetTypes.And(a.held, b.held).T
    ensures HasDefaults(a.held) ==> r == (S, a)
    ensures HasDefaults(b.held) && !HasDefaults(a.held) ==> r == (S, b)
    ensures !Dispatches(S.decls, a.held, b.held) ==>
      r.1.held == EmptySet && r.0.registered == S.registered + {EmptySet} && Allocates(S, r.0, EmptySet)
  {
    PairLookup(S, a, b);
    DefaultLookup(S, a);
    DefaultLookup(S, b);
    var pairwise := Lookup(S.inter, [a.id, b.id]);
    if pairwise.Some? then
      RelatedHasOperators(S.decls, pairwise.value.l, pairwise.value.r);
      // The result type is one of the operands', so its index is already memoised.
      var T := SetTypes.And(pairwise.value.l, pairwise.value.r).T;
      (S, Handle(IdOf(S, T), T))
    else if Lookup(S.interDefault, [a.id]).Some? then
      (S, Pick(Lookup(S.interDefault, [a.id]).value, a, b))
    else if Lookup(S.interDefault, [b.id]).Some? then
      (S, Pick(Lookup(S.interDefault, [b.id]).value, b, a))
    else
      Wrap(S, EmptySet)
  }

  /**
   * Handle `||`: the pairwise operator, else the left operand's default as
   * (this, other), else the right operand's default as (other, this), else
   * a `logic_error`.
   */
  function Or(S: Registry, a: Handle, b: Handle): (o: Outcome)
    requires Inv(S) && Holds(S, a) && Holds(S, b)
    ensures o.Value? ==> Holds(S, o.h)
    ensures Related(S.decls, a.held, b.held) ==>
      SetTypes.Or(a.held, b.held).Resolves? && o.Value? && o.h.held == SetTypes.Or(a.held, b.held).T
    ensures HasDefaults(a.held) ==> o == Value(b)
    ensures HasDefaults(b.held) && !HasDefaults(a.held) ==> o == Value(a)
    ensures o.LogicError? <==> !Dispatches(S.decls, a.held, b.held)
  {
    PairLookup(S, a, b);
    DefaultLookup(S, a);
    DefaultLookup(S, b);
    var pairwise := Lookup(S.union, [a.id, b.id]);
    if pairwise.Some? then
      RelatedHasOperators(S.decls, pairwise.value.l, pairwise.value.r);
      // The result type is one of the operands', so its index is already memoised.
      var T := SetTypes.Or(pairwise.value.l, pairwise.value.r).T;
      Value(Handle(IdOf(S, T), T))
    else if Lookup(S.unionDefault, [a.id]).Some? then
      Value(Pick(Lookup(S.unionDefault, [a.id]).value, a, b))
    else if Lookup(S.unionDefault, [b.id]).Some? then
      Value(Pick(Lookup(S.unionDefault, [b.id]).value, b, a))
    else
      LogicError
  }

  /** `operator<<` on a handle: the output operator stored at its index, or a `logic_error` from the register's default. */
  function Print(S: Registry, h: Handle): (o: Output)
    requires Inv(S)
    ensures Holds(S, h) ==> o == Printed(h.held)
    ensures o.Printed? ==> HasId(S, o.shown) && IdOf(S, o.shown) == h.id
    ensures h.id >= NextId(S) ==> o == PrintError
  {
    match Lookup(S.printers, [h.id])
    case Some(T) => Printed(T)
    case None => PrintError
  }

  // ---------------------------------------------------------------------
  // What the handle operators compute
  // ---------------------------------------------------------------------

  /** Where dispatch finds an operator, handle `&&` holds exactly the points both operands hold. */
  lemma AndSound(S: Registry, a: Handle, b: Handle)
    requires Inv(S) && Holds(S, a) && Holds(S, b) && Dispatches(S.decls, a.held, b.held)
    ensures forall p :: InSet(And(S, a, b).1.held, p) <==> InSet(a.held, p) && InSet(b.held, p)
  {
    var T := And(S, a, b).1.held;
    if !Related(S.decls, a.held, b.held) {
      assert T == a.held || T == b.held;
      assert T == EmptySet || T == NullSet;
    }
  }

  /** Where dispatch finds an operator, handle `||` holds exactly the points either operand holds. */
  lemma OrSound(S: Registry, a: Handle, b: Handle)
    requires Inv(S) && Holds(S, a) && Holds(S, b)
    ensures Or(S, a, b).Value? ==> forall p :: InSet(Or(S, a, b).h.held, p) <==> InSet(a.held, p) || InSet(b.held, p)
  {
    var o := Or(S, a, b);
    if o.Value? && !Related(S.decls, a.held, b.held) {
      assert HasDefaults(a.held) ==> o.h == b;
      assert !HasDefaults(a.held) ==> o.h == a && HasDefaults(b.held);
    }
  }

  /**
   * With no operator found, `&&` falls back to a fresh empty set whatever
   * the operands hold, while `||` throws: the universal set against a named
   * set is such a pair.
   */
  lemma UnrelatedFallback(S: Registry, a: Handle, b: Handle)
    requires Inv(S) && Holds(S, a) && Holds(S, b)
    requires a.held == UniversalSet && b.held.NamedSet?
    ensures And(S, a, b).1.held == EmptySet && exists p :: InSet(a.held, p) && InSet(b.held, p)
    ensures Or(S, a, b) == LogicError
  {
    UniversalDispatchesNot(S.decls, b.held);
    assert InSet(a.held, RealPoint(0.0)) && InSet(b.held, RealPoint(0.0));
  }

  /** No operator dispatches between the universal set and a named set. */
  lemma UniversalDispatchesNot(decls: Declarations, V: SetType)
    requires V.NamedSet?
    ensures !Dispatches(decls, UniversalSet, V)
  {
    assert UniversalSet !in Partners(decls, V);
  }

  // ---------------------------------------------------------------------
  // Registering the three number sets
  // ---------------------------------------------------------------------

  /** The number set with index `i` when the reals, integers and naturals are registered in that order. */
  function NumberSetAt(i: nat): SetType
    requires i < 3
  {
    if i == 0 then Reals else if i == 1 then Integers else Naturals
  }

  /** A registry in which no type has been registered or given an index yet, as `Start` builds it. */
  ghost predicate Unused(S: Registry) {
    Inv(S) && S.registered == {} && NextId(S) == 0
  }

  /** What registering `T` in `S` leaves behind, as `RegisterType` promises it. */
  ghost predicate RegisteredFrom(S: Registry, T: SetType, S2: Registry) {
    Inv(S2) && S2.decls == S.decls && S2.registered == S.registered + {T}
    && (forall U :: HasId(S, U) ==> HasId(S2, U) && IdOf(S2, U) == IdOf(S, U))
    && (T !in S.registered ==> IdOf(S2, T) == NextId(S) && NextId(S2) == NextId(S) + 1)
  }

  /** `get_registered_type_index<T>()` called for its effect on the registers. */
  method Register(S: Registry, T: SetType) returns (S2: Registry)
    requires Inv(S)
    ensures RegisteredFrom(S, T, S2)
    ensures HasId(S2, T) && T in S2.registered
  {
    S2 := RegisterType(S, T);
    forall U | HasId(S, U) ensures HasId(S2, U) && IdOf(S2, U) == IdOf(S, U) {
      RegisterKeepsIds(S, T, U);
    }
  }

  /** Among indices 0 to 2, only the (0, 0) entry of each pairwise register is filled. */
  ghost predicate OnlyFirstFilled(S: Registry) {
    PairShape(S.inter) && PairShape(S.union)
    && forall i: nat, j: nat :: i < 3 && j < 3 ==>
      (Get(S.inter, [i, j]).Some? <==> i == 0 && j == 0) && (Get(S.union, [i, j]).Some? <==> i == 0 && j == 0)
  }

  /** Among indices 0 to 2, exactly the entries of each pairwise register that avoid index 2 are filled. */
  ghost predicate AllButThirdFilled(S: Registry) {
    PairShape(S.inter) && PairShape(S.union)
    && forall i: nat, j: nat :: i < 3 && j < 3 ==>
      (Get(S.inter, [i, j]).Some? <==> i != 2 && j != 2) && (Get(S.union, [i, j]).Some? <==> i != 2 && j != 2)
  }

  /** Among indices 0 to 2, an entry of each pairwise register is filled exactly when the number sets at its indices are related. */
  ghost predicate RelatedFilled(S: Registry) {
    PairShape(S.inter) && PairShape(S.union)
    && forall i: nat, j: nat :: i < 3 && j < 3 ==>
      (Get(S.inter, [i, j]).Some? <==> Related(S.decls, NumberSetAt(i), NumberSetAt(j)))
      && (Get(S.union, [i, j]).Some? <==> Related(S.decls, NumberSetAt(i), NumberSetAt(j)))
  }

  /** Once only the reals are registered, at index 0, the (reals, reals) entry is the only one filled among indices 0 to 2. */
  lemma AfterReals(S: Registry)
    requires RealsOnly(S)
    ensures OnlyFirstFilled(S)
  {
    forall i: nat, j: nat | i < 3 && j < 3
      ensures (Get(S.inter, [i, j]).Some? <==> i == 0 && j == 0) && (Get(S.union, [i, j]).Some? <==> i == 0 && j == 0)
    {
      if i == 0 && j == 0 {
        PairTable(S, Reals, Reals);
      } else {
        PairTableBeyond(S, [i, j]);
      }
    }
  }

  /** Once the reals and the integers are registered, at indices 0 and 1, exactly the entries avoiding index 2 are filled. */
  lemma AfterIntegers(S: Registry)
    requires RealsIntegers(S)
    ensures AllButThirdFilled(S)
  {
    forall i: nat, j: nat | i < 3 && j < 3
      ensures (Get(S.inter, [i, j]).Some? <==> i != 2 && j != 2) && (Get(S.union, [i, j]).Some? <==> i != 2 && j != 2)
    {
      if i != 2 && j != 2 {
        PairTable(S, NumberSetAt(i), NumberSetAt(j));
      } else {
        PairTableBeyond(S, [i, j]);
      }
    }
  }

  /** Once all three are registered, at indices 0, 1 and 2, an entry is filled exactly when its two number sets are related. */
  lemma AfterNaturals(S: Registry)
    requires AllNumberSets(S)
    ensures RelatedFilled(S)
  {
    forall i: nat, j: nat | i < 3 && j < 3
      ensures (Get(S.inter, [i, j]).Some? <==> Related(S.decls, NumberSetAt(i), NumberSetAt(j)))
        && (Get(S.union, [i, j]).Some? <==> Related(S.decls, NumberSetAt(i), NumberSetAt(j)))
    {
      var U, V := NumberSetAt(i), NumberSetAt(j);
      assert HasId(S, U) && IdOf(S, U) == i && HasId(S, V) && IdOf(S, V) == j;
      PairTable(S, U, V);
    }
  }

  /** The reals alone are registered, at index 0. */
  ghost predicate RealsOnly(S: Registry) {
    Inv(S) && S.registered == {Reals} && NextId(S) == 1
    && HasId(S, Reals) && IdOf(S, Reals) == 0
  }

  /** The reals and the integers are registered, at indices 0 and 1. */
  ghost predicate RealsIntegers(S: Registry) {
    Inv(S) && S.registered == {Reals, Integers} && NextId(S) == 2
    && HasId(S, Reals) && IdOf(S, Reals) == 0 && HasId(S, Integers) && IdOf(S, Integers) == 1
  }

  /** The reals, the integers and the naturals are registered, at indices 0, 1 and 2. */
  ghost predicate AllNumberSets(S: Registry) {
    Inv(S) && S.registered == {Reals, Integers, Naturals} && NextId(S) == 3
    && HasId(S, Reals) && IdOf(S, Reals) == 0 && HasId(S, Integers) && IdOf(S, Integers) == 1
    && HasId(S, Naturals) && IdOf(S, Naturals) == 2
  }

  /** The first step of the registration test: the reals. */
  method RegisterReals(S: Registry) returns (S1: Registry)
    requires Unused(S)
    ensures RealsOnly(S1) && OnlyFirstFilled(S1) && S1.decls == S.decls
  {
    S1 := Register(S, Reals);
    AfterReals(S1);
  }

  /** The second step of the registration test: the integers. */
  method RegisterIntegers(S: Registry) returns (S2: Registry)
    requires RealsOnly(S)
    ensures RealsIntegers(S2) && AllButThirdFilled(S2) && S2.decls == S.decls
  {
    S2 := Register(S, Integers);
    AfterIntegers(S2);
  }

  /** The third step of the registration test: the naturals. */
  method RegisterNaturals(S: Registry) returns (S3: Registry)
    requires RealsIntegers(S)
    ensures AllNumberSets(S3) && RelatedFilled(S3) && S3.decls == S.decls
  {
    S3 := Register(S, Naturals);
    AfterNaturals(S3);
  }

  /**
   * As declared, only the reals name partners, so the integers and the
   * naturals never get operators against each other: once all three are
   * registered the (integers, naturals) entries stay empty, handle `&&`
   * falls back to the empty set and `||` throws, although both overloads
   * exist.
   */
  lemma IntegersNaturalsGap(S: Registry)
    requires AllNumberSets(S) && S.decls == AsWritten
    ensures Get(S.inter, [1, 2]) == None && Get(S.inter, [2, 1]) == None
    ensures Get(S.union, [1, 2]) == None && Get(S.union, [2, 1]) == None
    ensures SetTypes.And(Integers, Naturals) == Resolves(Naturals) && SetTypes.Or(Integers, Naturals) == Resolves(Integers)
  {
    IntegersNaturalsUnrelated();
    PairTable(S, Integers, Naturals);
    PairTable(S, Naturals, Integers);
    SetTypes.ChainRelations(NamedSets.Integers, NamedSets.Naturals);
  }

  /** The gap seen through handles: `&&` of an integers handle and a naturals handle falls back to the empty set and `||` throws. */
  lemma IntegersNaturalsGapHandles(S: Registry, z: Handle, n: Handle)
    requires Inv(S) && S.decls == AsWritten && Holds(S, z) && Holds(S, n)
    requires z.held == Integers && n.held == Naturals
    ensures And(S, z, n).1.held == EmptySet && And(S, n, z).1.held == EmptySet
    ensures Or(S, z, n) == LogicError && Or(S, n, z) == LogicError
  {
    IntegersNaturalsUnrelated();
  }

  /** As declared, neither the integers nor the naturals name the other, and neither has default operators. */
  lemma IntegersNaturalsUnrelated()
    ensures !Related(AsWritten, Integers, Naturals) && !Related(AsWritten, Naturals, Integers)
    ensures !Dispatches(AsWritten, Integers, Naturals) && !Dispatches(AsWritten, Naturals, Integers)
  {
    assert Partners(AsWritten, Integers) == [] && Partners(AsWritten, Naturals) == [];
  }

  /**
   * With the integers naming the naturals as partners, all nine entries of
   * the registration test are filled, and handle `&&` and `||` between the
   * integers and the naturals give the naturals and the integers.
   */
  lemma IntegersNaturalsNamed(S: Registry)
    requires AllNumberSets(S) && S.decls == IntegersNameNaturals
    ensures forall i: nat, j: nat :: i < 3 && j < 3 ==> Get(S.inter, [i, j]).Some? && Get(S.union, [i, j]).Some?
  {
    AfterNaturals(S);
    forall i: nat, j: nat | i < 3 && j < 3
      ensures Related(IntegersNameNaturals, NumberSetAt(i), NumberSetAt(j))
    {
    }
    SetTypes.ChainRelations(NamedSets.Integers, NamedSets.Naturals);
  }

  /** With the integers naming the naturals, handle `&&` of the integers and the naturals gives the naturals and `||` the integers, in either order. */
  lemma IntegersNaturalsNamedHandles(S: Registry, z: Handle, n: Handle)
    requires Inv(S) && S.decls == IntegersNameNaturals && Holds(S, z) && Holds(S, n)
    requires z.held == Integers && n.held == Naturals
    ensures And(S, z, n).0 == S && And(S, z, n).1.held == Naturals
    ensures And(S, n, z).0 == S && And(S, n, z).1.held == Naturals
    ensures Or(S, z, n).Value? && Or(S, z, n).h.held == Integers
    ensures Or(S, n, z).Value? && Or(S, n, z).h.held == Integers
  {
    assert Related(IntegersNameNaturals, Integers, Naturals) && Related(IntegersNameNaturals, Naturals, Integers);
    SetTypes.ChainRelations(NamedSets.Integers, NamedSets.Naturals);
    SetTypes.ChainRelations(NamedSets.Naturals, NamedSets.Integers);
  }
}
