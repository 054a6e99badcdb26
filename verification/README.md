# libp set algebra and multiple dispatch, modelled in Dafny

libp is a C++ header library of measurable sets. This project models the core of that library and proves properties of the model:

- **Interval algebra.** `Interval` and `IntervalUnion` over an extended real line with NaN. It covers:
  - the canonical form of a union: sorted, non-empty intervals with no two that touch or overlap;
  - intersection `&&`, union `||` and complement `inv`;
  - membership `operator()`, equality, and the text format.
- **FiniteSet.** A sorted, duplicate-free container. It covers `&&` and `||` with other finite sets and with the named number sets, `size` and the output operator.
- **FunctionRegister.** A row-major table of functions indexed by tuples of type indices. It grows by powers of two, and existing entries are moved to their new offsets.
- **Type indices.** `reserve_type_index` and `get_type_index`: one dense counter per base, with one index memoised per derived type.
- **Registration and dispatch, in two revisions:**
  - `measurable_set.hpp`: lazy registration through static initialisation, default operators for the empty and null sets, a callback list through which earlier types register operators against later ones, and handle `&&`, `||` and `<<`;
  - `measurable_set_impl.hpp`: eager per-type registration, where an unknown pair throws.
- **Named number sets.** The naturals, integers and reals, plus the empty, null and universal sets, with their concrete `&&`, `||`, `==` and `!=`.

## How the model is organised

| module | models |
|---|---|
| `Bounds` | boundary values: `-inf`, a finite real, `+inf`, NaN; every comparison with NaN is false |
| `Intervals` | the `Interval` constructor's normalisation, `isempty`, `isnan`, `operator()`, `==`, `!=` |
| `IntervalUnions` | canonical form, the point set of a union, uniqueness of the canonical form |
| `Canonicalise` | sorting, `canonicalise_interval_union`, the in-place coalescing loop, the iterator constructor |
| `UnionIntersection` | `interval_intersection_right_remainder` and the two-cursor sweep of `&&` |
| `UnionJoin` | the merge of `||` followed by coalescing |
| `UnionComplement` | `inv(extended_real_line)` |
| `UnionLaws` | the Boolean-algebra laws that follow |
| `UnionQueries` | `operator()` as a binary search; `==` and `!=` |
| `UnionText` | `operator<<` and `operator>>` of a union, over a token stream |
| `FiniteSets` | `FiniteSet` and its operators |
| `NamedSets`, `SetTypes` | the concrete operators of the number sets and the empty, null and universal sets |
| `TypeIndices` | `type_index.hpp` |
| `RegisterIndex`, `FunctionRegisters` | `function_register.hpp` |
| `Dispatch` | `measurable_set.hpp` with `empty.hpp`, `null.hpp` and the number-set headers |
| `EarlyDispatch` | `measurable_set_impl.hpp` |

### Modelling choices

- Boundaries are mathematical reals with `-inf`, `+inf` and NaN. The algorithms only compare boundaries; they never do arithmetic on them. So the model is exact about comparisons but treats the line as dense.
- Elements of a `FiniteSet` are mathematical integers, tagged as `int` (signed) or `unsigned`. When `&&` compares an `int` with an `unsigned`, C++ converts the `int` to `unsigned`. The model writes that conversion out for 32-bit types: a negative element compares as itself plus 2^32 (`FiniteSets.CompareKey`).
- `IntervalUnion::operator()` returns a `Boundary` holding 0 or 1. `UnionQueries.Lookup` returns the `bool` that value encodes.
- The coalescing loop of `canonicalise_interval_union` rewrites a `std::vector` in place. `Canonicalise.CanonicaliseSortedInPlace` runs the same write and read cursors over a value sequence, which it updates and then truncates after the write cursor.
- Static initialisation becomes an explicit registry value. Each `get_registered_type_index<T>()` is a `RegisterType` step from one registry to the next.
- A registered operator is stored as the pair of types it was registered for. Applying it means applying the concrete operator of that pair.
- Each type's `register_type` declarations are a parameter, `Declarations`:
  - `AsWritten` is the library: the reals name the naturals and the integers, and the empty and null sets register defaults;
  - `IntegersNameNaturals` additionally has the integers name the naturals (see Findings).
- Where the description of the library and its code differ, the model follows the code:
  - Handle `&&` with no operator falls back to `empty_set()`. Handle `||` throws.
  - The earlier revision throws for both operators on an unregistered pair.
  - The integers and the naturals never get pairwise operators against each other.
- `measurable_set.hpp` calls `get_function` on its registers. The `function_register.hpp` modelled here defines only `execute_function`. The model uses one offset lookup for both: an offset past the end of the storage gives the register's default, which is null for the handle registers.

## Model

| member | source | states |
|---|---|---|
| Bounds.Max | include/libp/sets/interval.hpp:27-28 | the result is one of the two arguments and, for non-NaN arguments, an upper bound of both |
| Bounds.Min | include/libp/sets/interval.hpp:27-28 | the result is one of the two arguments and, for non-NaN arguments, a lower bound of both |
| Bounds.Trichotomy | include/libp/sets/interval.hpp:25-28 | non-NaN boundaries are totally ordered: exactly one of less, equal or greater holds |
| Bounds.NaNUnordered | include/libp/sets/interval.hpp:59-66 | NaN is neither less than, greater than nor equal to any boundary |
| Intervals.Make | include/libp/sets/interval.hpp:52-68 | the constructor gives a well-formed interval; it is the NaN interval exactly when a bracket is invalid or a value is NaN; its points are those the brackets and values describe; a non-empty interval is kept as written |
| Intervals.MakeB | include/libp/sets/interval.hpp:52-68 | from valid brackets the interval has exactly the described points and is never NaN; when not empty it is stored as given |
| Intervals.ContainsSplit | include/libp/sets/interval.hpp:95-100 | a point is in an interval exactly when it is after the start (inclusive if left-closed) and before the end (inclusive if right-closed) |
| Intervals.NothingInEmpty | include/libp/sets/interval.hpp:87-91 | an interval built by a constructor contains no point when `isempty` or `isnan` reports true, and no interval contains a NaN point |
| Intervals.EqualityMeaning | include/libp/sets/interval.hpp:102-117 | with a NaN interval on either side both `==` and `!=` are false; otherwise `==` is structural equality and `!=` its negation |
| IntervalUnions.KeepNonEmpty | include/libp/sets/interval.hpp:312-315 | the union of a single interval drops it if empty and has exactly the interval's points |
| IntervalUnions.SeparatedPair | include/libp/sets/interval.hpp:584-594 | in canonical form every earlier interval lies strictly before every later one, with a gap between them |
| IntervalUnions.CanonicalUnique | include/libp/sets/interval.hpp:483-493 | two canonical non-NaN unions with the same points are the same list of intervals |
| Canonicalise.Sort | include/libp/sets/interval.hpp:596-606 | sorting by start gives a permutation of the input, ordered by start |
| Canonicalise.HullContains | include/libp/sets/interval.hpp:555-582 | when two sorted intervals overlap or touch, their hull has exactly the points of the two |
| Canonicalise.NotJoinableSep | include/libp/sets/interval.hpp:555-582 | when `canonicalise_interval_union` refuses to join, the two intervals are separated by a gap |
| Canonicalise.CanonicaliseSortedCorrect | include/libp/sets/interval.hpp:584-594 | coalescing a sorted list of non-empty intervals gives a canonical list with the same points |
| Canonicalise.CanonicaliseSortedInPlace | include/libp/sets/interval.hpp:584-594 | the write/read cursor loop, run over a value sequence rather than the vector in place, computes the coalesced list, which is canonical and has the input's points |
| Canonicalise.FromIntervals | include/libp/sets/interval.hpp:322-336 | the iterator constructor gives a canonical union; it is the NaN union exactly when some input is NaN, and otherwise has exactly the inputs' points |
| Canonicalise.SortChoiceIrrelevant | include/libp/sets/interval.hpp:596-608 | any ordering by start leads to the same canonical union, so the unstable `std::sort` does not matter |
| Canonicalise.FromInterval | include/libp/sets/interval.hpp:312-315 | a union built from one interval is canonical, NaN exactly when the interval is, and has the interval's points |
| UnionIntersection.OverlapContains | include/libp/sets/interval.hpp:520-537 | the overlap of two intervals has exactly the points they share |
| UnionIntersection.OverlapRemainder | include/libp/sets/interval.hpp:538-553 | the right remainder is empty exactly when both intervals end together; otherwise it is the part of the longer interval after the overlap |
| UnionIntersection.Intersect | include/libp/sets/interval.hpp:425-457 | `&&` gives a canonical union; it is NaN exactly when an operand is NaN; otherwise a point is in it exactly when it is in both operands |
| UnionIntersection.SweepMem | include/libp/sets/interval.hpp:433-455 | the two-cursor sweep, with its role swap, emits exactly the points in both remaining lists |
| UnionIntersection.SweepSeparated | include/libp/sets/interval.hpp:433-455 | the pieces the sweep emits are already in canonical order, so no coalescing is needed |
| UnionJoin.Merge | include/libp/sets/interval.hpp:466-478 | merging two sorted lists gives a permutation of both, ordered by start |
| UnionJoin.Join | include/libp/sets/interval.hpp:459-481 | `||` gives a canonical union; it is NaN exactly when an operand is NaN; otherwise a point is in it exactly when it is in either operand |
| UnionComplement.Universe | include/libp/sets/interval.hpp:356-358 | `universal(ext)` is canonical and holds exactly the finite reals, or every non-NaN point on the extended line |
| UnionComplement.GapProper | include/libp/sets/interval.hpp:389-396 | the gap between neighbours of a canonical union is never empty and has flipped brackets |
| UnionComplement.Complement | include/libp/sets/interval.hpp:362-412 | `inv` gives a canonical union; it maps NaN to itself; otherwise a point is in it exactly when it is in the universe and not in the operand |
| UnionComplement.ComplementMem | include/libp/sets/interval.hpp:375-409 | leading gap, inner gaps and trailing gap together hold exactly the universe's points outside the union |
| UnionLaws.NaNAbsorbs | include/libp/sets/interval.hpp:425-481 | `&&` and `||` with the NaN union give the NaN union, and its complement is itself |
| UnionLaws.IntersectCommutes | include/libp/sets/interval.hpp:425-457 | `A && B == B && A` for canonical unions |
| UnionLaws.IntersectAssociates | include/libp/sets/interval.hpp:425-457 | `(A && B) && C == A && (B && C)` |
| UnionLaws.IntersectIdempotent | include/libp/sets/interval.hpp:425-457 | `A && A == A` |
| UnionLaws.IntersectIdentities | include/libp/sets/interval.hpp:354-358 | `A && empty()` is empty, and `A && universal(ext)` is `A` when `A` lies in that universe |
| UnionLaws.JoinCommutes | include/libp/sets/interval.hpp:459-481 | `A \|\| B == B \|\| A` |
| UnionLaws.JoinAssociates | include/libp/sets/interval.hpp:459-481 | `(A \|\| B) \|\| C == A \|\| (B \|\| C)` |
| UnionLaws.JoinIdempotent | include/libp/sets/interval.hpp:459-481 | `A \|\| A == A` |
| UnionLaws.JoinIdentities | include/libp/sets/interval.hpp:354-358 | `A \|\| empty()` is `A`, and `A \|\| universal(ext)` is the universe when `A` lies in it |
| UnionLaws.IntersectDistributes | include/libp/sets/interval.hpp:425-481 | `&&` distributes over `\|\|` |
| UnionLaws.JoinDistributes | include/libp/sets/interval.hpp:425-481 | `\|\|` distributes over `&&` |
| UnionLaws.Absorption | include/libp/sets/interval.hpp:425-481 | `A \|\| (A && B) == A` and `A && (A \|\| B) == A` |
| UnionLaws.DeMorgan | include/libp/sets/interval.hpp:362-481 | `inv` turns `&&` into `\|\|` and `\|\|` into `&&` |
| UnionLaws.ComplementInvolution | include/libp/sets/interval.hpp:362-412 | `inv(inv(A)) == A` on the extended line, and on the real line for unions without an infinite point |
| UnionLaws.ComplementLaws | include/libp/sets/interval.hpp:362-412 | `A \|\| inv(A)` is the universe and `A && inv(A)` is empty |
| UnionLaws.ComplementExtremes | include/libp/sets/interval.hpp:362-374 | `inv` swaps the empty union and the universe |
| UnionQueries.LowerBoundDecides | include/libp/sets/interval.hpp:504-515 | the first interval not ending before `x` is the only one that can contain `x` |
| UnionQueries.Lookup | include/libp/sets/interval.hpp:504-515 | `operator()` by binary search answers exactly whether the point is in the union, as a `bool` for the returned 0 or 1 |
| UnionQueries.Equals | include/libp/sets/interval.hpp:483-493 | `==` holds exactly when neither union is NaN and they are equal, which is the same as having the same points |
| UnionQueries.NotEquals | include/libp/sets/interval.hpp:495-502 | `!=` holds exactly when neither union is NaN and they differ |
| UnionText.ScanPrinted | include/libp/sets/interval.hpp:162-300 | reading back a printed interval gives the same interval and leaves the rest of the stream untouched |
| UnionText.ParseUnion | include/libp/sets/interval.hpp:638-669 | reading a union gives a canonical union, and never more input than is there |
| UnionText.RoundTrip | include/libp/sets/interval.hpp:625-669 | over a token stream in which each printed boundary is one exact token, reading a printed canonical union gives back the same union, consumes exactly the printed text and leaves the stream good |
| UnionText.BadStart | include/libp/sets/interval.hpp:656-665 | input that starts with neither an interval nor `;` leaves the stream failed and the union unassigned |
| FiniteSets.Make | include/libp/sets/finite.hpp:41-60 | construction gives a strictly sorted set of in-range values holding exactly the input's elements |
| FiniteSets.Unique | include/libp/sets/finite.hpp:321-324 | removing adjacent duplicates keeps the elements, and a sorted input becomes strictly sorted |
| FiniteSets.MakeKeepsValid | include/libp/sets/finite.hpp:303-324 | `make_sorted_unique` leaves an already sorted, duplicate-free set unchanged |
| FiniteSets.MakeOnlyElements | include/libp/sets/finite.hpp:303-324 | two containers with the same elements give the same finite set, whatever their order or repeats |
| FiniteSets.Intersect | include/libp/sets/finite.hpp:276-285 | `&&` of finite sets is valid and keeps the left operand's element type. It holds only elements of the left operand, each equal to an element of the right one or, across signedness, 2^32 apart from one. When both operands have the same element type, or neither has a negative element, it holds exactly the common elements |
| FiniteSets.MixedWalkExact | include/libp/sets/finite.hpp:276-285 | when no element is converted by the comparison, the walk with the converted comparison is the walk over mathematical integers |
| FiniteSets.MixedSignsLoseElements | include/libp/sets/finite.hpp:276-285 | `{-1, 5} && {5u}` and `{5u} && {-1, 5}` are empty although 5 is in both, because `-1` compares as 2^32 - 1 |
| FiniteSets.Union | include/libp/sets/finite.hpp:287-296 | `\|\|` of finite sets is valid and holds exactly the elements of either operand |
| FiniteSets.InclusionExclusion | include/libp/sets/finite.hpp:276-298 | for operands whose elements compare as integers, size of the intersection plus size of the union equals the sum of the sizes |
| FiniteSets.SizeCountsElements | include/libp/sets/finite.hpp:298 | `size` is the number of distinct elements |
| FiniteSets.NonNegativePart | include/libp/sets/finite.hpp:113-130 | the signed `&& NaturalNumbers` loop keeps exactly the elements that are at least zero |
| FiniteSets.KeepNaturalSuffix | include/libp/sets/finite.hpp:121-130 | on sorted storage the kept elements are a suffix, so the result stays sorted |
| FiniteSets.UnsignedNatural | include/libp/sets/finite.hpp:99-109 | every element of an unsigned set is a natural number, so `&& NaturalNumbers` may return the set itself |
| FiniteSets.And | include/libp/sets/finite.hpp:62-71 | on a non-const set, `&&` holds only points of the set. With a named set or any other set, and with a finite set whose elements compare as integers against it, it holds exactly the points in both operands |
| FiniteSets.AndConst | include/libp/sets/finite.hpp:62-71 | on a const set, `&&` with anything but a finite set is `none()` |
| FiniteSets.ConstAndLosesElements | include/libp/sets/finite.hpp:99-130 | for the const set `{1}`, `&& NaturalNumbers` is empty although 1 is in both operands |
| FiniteSets.Or | include/libp/sets/finite.hpp:155-241 | `\|\|` holds exactly the points of either operand where an overload exists; there is none for a signed set with the naturals or for other set types |
| FiniteSets.Print | include/libp/sets/finite.hpp:342-356 | the output is `{`, the elements in order separated by `, `, then `}` |
| NamedSets.And | include/libp/sets/integers.hpp:29-47 | `&&` of two number sets holds exactly the points in both; the integers' members here, the free overloads at natural_numbers.hpp:20-30 and real_numbers.hpp:26-36 |
| NamedSets.Or | include/libp/sets/integers.hpp:33-51 | `\|\|` of two number sets holds exactly the points in either; the integers' members here, the free overloads at natural_numbers.hpp:24-34 and real_numbers.hpp:30-40 |
| NamedSets.Equal | include/libp/sets/measurable_set.hpp:513-533 | two number sets compare equal exactly when they have the same points |
| NamedSets.ChainAgreement | include/libp/sets/integers.hpp:29-51 | along the chain naturals, integers, reals, `&&` is the smaller set and `\|\|` the larger, as the overloads here and at natural_numbers.hpp:20-34 and real_numbers.hpp:26-40 return |
| SetTypes.And | include/libp/sets/empty.hpp:62-86 | where an operator exists its result has exactly the common points and is one of the operands; there is none for a distinct universal set or for the empty/null pair |
| SetTypes.Or | include/libp/sets/empty.hpp:88-112 | where an operator exists its result has exactly the points of either and is one of the operands; the same pairs have none |
| SetTypes.Equal | include/libp/sets/empty.hpp:36-60 | a decided `==` answers whether the two sets have the same points; only the empty/null pair is ambiguous |
| SetTypes.EmptyRules | include/libp/sets/empty.hpp:36-112 | the empty set absorbs `&&`, is the identity of `\|\|`, and equals exactly the sets with no point |
| SetTypes.NullRules | include/libp/sets/null.hpp:48-124 | the null set absorbs `&&`, is the identity of `\|\|`, and equals exactly the sets with no point |
| SetTypes.Commutative | include/libp/sets/natural_numbers.hpp:20-34 | `&&` and `\|\|` exist in both orders or in neither, and give the same points either way |
| SetTypes.ChainRelations | include/libp/sets/integers.hpp:29-51 | the concrete `&&` and `\|\|` of two number sets, taken as set types, resolve to the smaller and the larger set of the chain naturals, integers, reals; the other overloads are at natural_numbers.hpp:20-34 and real_numbers.hpp:26-40 |
| TypeIndices.Reserve | include/libp/internal/type_index.hpp:8-12 | `reserve_type_index` answers the counter of its base and advances only that counter |
| TypeIndices.ReserveCounts | include/libp/internal/type_index.hpp:8-12 | `n` reservations answer consecutive indices and advance the counter by `n` |
| TypeIndices.GetIndex | include/libp/internal/type_index.hpp:14-18 | the first request for a type reserves the next index of its base; later requests return the memoised index and change nothing |
| TypeIndices.GetIndexDense | include/libp/internal/type_index.hpp:14-18 | the indices under each base stay exactly `0` to the counter minus one |
| TypeIndices.Memoised | include/libp/internal/type_index.hpp:14-18 | a second request for the same type gives the same index and the same state |
| TypeIndices.DistinctIds | include/libp/internal/type_index.hpp:14-18 | different types under the same base get different indices |
| TypeIndices.IndependentBases | include/libp/internal/type_index.hpp:8-18 | requests under one base do not affect the indices under another |
| TypeIndices.FirstRequestsCount | include/libp/internal/type_index.hpp:8-18 | the first three distinct types requested get 0, 1 and 2 |
| RegisterIndex.OffsetBound | include/libp/internal/function_register.hpp:141-152 | a tuple inside the sizes has an offset below the size of the storage |
| RegisterIndex.IndicesRoundTrip | include/libp/internal/function_register.hpp:141-172 | `get_function_index` of `get_argument_indices(f)` is `f` |
| RegisterIndex.OffsetRoundTrip | include/libp/internal/function_register.hpp:141-172 | `get_argument_indices` of `get_function_index(t)` is `t` |
| RegisterIndex.OffsetInjective | include/libp/internal/function_register.hpp:141-152 | different tuples inside the sizes have different offsets |
| RegisterIndex.OffsetIgnoresFirst | include/libp/internal/function_register.hpp:129-139 | the size of dimension 0 does not enter the offset, which is why growing it needs no moves |
| RegisterIndex.OffsetOrder | include/libp/internal/function_register.hpp:106-123 | growing the sizes keeps the order of offsets, so moving entries from the last one down never overwrites one still to move |
| RegisterIndex.FunctionIndex | include/libp/internal/function_register.hpp:141-152 | the loop computes the row-major offset, which decodes back to the tuple when the tuple fits |
| RegisterIndex.ArgumentIndices | include/libp/internal/function_register.hpp:154-172 | the loop computes the tuple that fits the sizes and whose offset is `f` |
| FunctionRegisters.New | include/libp/internal/function_register.hpp:31-45 | a new register of the given sizes holds the default at every tuple |
| FunctionRegisters.Lookup | include/libp/internal/function_register.hpp:53-70 | `execute_function` returns the registered entry when only dimension 0 may overflow, and the default past the end of storage |
| FunctionRegisters.LookupAliases | include/libp/internal/function_register.hpp:53-70 | a tuple overflowing a later dimension reads a different tuple's entry: in a 2×2 register, `[0, 2]` reads what `[1, 0]` holds |
| FunctionRegisters.Supply | include/libp/internal/function_register.hpp:78-86 | the supply of a dimension is at least one, at least the old size, above the index, and the old size (or 1) times a power of two, doubled no more than needed |
| FunctionRegisters.ExpandAll | include/libp/internal/function_register.hpp:106-127 | expanding to larger sizes keeps the entry of every tuple |
| FunctionRegisters.FastPathIsReflow | include/libp/internal/function_register.hpp:129-139 | growing only dimension 0 by resizing the storage is the same as the general expansion |
| FunctionRegisters.ExpandIfNeeded | include/libp/internal/function_register.hpp:77-104 | afterwards the tuple fits, no size shrank, and every tuple reads what it read before |
| FunctionRegisters.Put | include/libp/internal/function_register.hpp:47-51 | `register_function` makes the tuple read the new entry and leaves every other tuple as it was |
| FunctionRegisters.LastWriteWins | include/libp/internal/function_register.hpp:47-51 | after a sequence of registrations each tuple reads the last entry written to it, or the default |
| FunctionRegisters.ExpandStorage | include/libp/internal/function_register.hpp:106-127 | the reverse swap loop gives exactly the register the general expansion describes |
| Dispatch.Start | include/libp/sets/measurable_set.hpp:250-274 | before any registration every register is empty with room for 8 types, and no type has an index |
| Dispatch.Id | include/libp/sets/measurable_set.hpp:356 | requesting a type's index leaves the registry sound, gives only that type a new index, and changes nothing if it had one |
| Dispatch.OneSided | include/libp/sets/measurable_set.hpp:308-344 | the pairwise `&&` and `\|\|` of `L` against `R` are stored at their indices, and every stored operator stays stored |
| Dispatch.RegisterPair | include/libp/sets/measurable_set.hpp:213-219 | after `register_operators<T, U>` both orders of the pair have both operators |
| Dispatch.Defaults | include/libp/sets/empty.hpp:21-24 | the empty and null sets get default `&&` returning this set and default `\|\|` returning the other set |
| Dispatch.RegisterSelf | include/libp/sets/measurable_set.hpp:354-368 | `register_operators<T>` stores `T` against itself and `T`'s output operator, and answers `T`'s index |
| Dispatch.RunCallbacks | include/libp/sets/measurable_set.hpp:500-511 | each earlier type's callback, given the new index, fills its pairs with the new type when it names it |
| Dispatch.DeclareOne | include/libp/sets/measurable_set.hpp:455-475 | `register_one_operator` fills the pair with the one named type whose index matches, if it is registered |
| Dispatch.DeclareAll | include/libp/sets/measurable_set.hpp:477-488 | `register_operators<Us...>()` fills the pairs with every named type already registered |
| Dispatch.RegisterType | include/libp/sets/measurable_set.hpp:500-511 | registration keeps the registry invariant: exactly the related pairs of registered types are filled; a new type gets the next index; registering again changes nothing |
| Dispatch.PairTable | include/libp/sets/measurable_set.hpp:329-343 | between registered types a pairwise slot holds the operator of the pair exactly when the two are related, and is empty otherwise |
| Dispatch.Wrap | include/libp/sets/measurable_set.hpp:190-192 | the public constructor registers the type on first use and records its index |
| Dispatch.Pick | include/libp/sets/measurable_set.hpp:397-407 | `get_this_set` and `get_other_set` return one of their two arguments |
| Dispatch.And | include/libp/sets/measurable_set.hpp:383-395 | handle `&&` applies the pair's operator, else the left default, else the right default, else gives `empty_set()` |
| Dispatch.Or | include/libp/sets/measurable_set.hpp:197-211 | handle `\|\|` applies the pair's operator, else a default, and throws exactly when neither exists |
| Dispatch.Print | include/libp/sets/measurable_set.hpp:372-375 | `<<` prints the type a handle holds, and throws for an index no type has |
| Dispatch.AndSound | include/libp/sets/measurable_set.hpp:383-395 | where dispatch finds an operator, handle `&&` holds exactly the common points |
| Dispatch.OrSound | include/libp/sets/measurable_set.hpp:197-211 | where handle `\|\|` does not throw, it holds exactly the points of either operand |
| Dispatch.UnrelatedFallback | include/libp/sets/measurable_set.hpp:392-394 | for the universal set with a number set, `&&` gives the empty set although they share points, and `\|\|` throws |
| Dispatch.AfterReals | test/test_measurable_set_statics.cpp:26-38 | once the reals are registered, only their own pair is filled |
| Dispatch.AfterIntegers | test/test_measurable_set_statics.cpp:40-55 | once the integers are registered too, exactly the pairs avoiding the third index are filled |
| Dispatch.AfterNaturals | test/test_measurable_set_statics.cpp:57-67 | once the naturals are registered, a pair is filled exactly when its two sets are related |
| Dispatch.RegisterNaturals | include/libp/sets/real_numbers.hpp:22-24 | registering the naturals after the reals and the integers fills exactly the related pairs |
| Dispatch.IntegersNaturalsGap | test/test_measurable_set_statics.cpp:62-67 | as declared, the (integers, naturals) slots stay empty, although the concrete operators exist |
| Dispatch.IntegersNaturalsGapHandles | include/libp/sets/integers.hpp:29-35 | through handles, integers `&&` naturals gives the empty set and `\|\|` throws |
| Dispatch.IntegersNaturalsNamed | test/test_measurable_set_statics.cpp:62-67 | when the integers also name the naturals, all nine slots are filled as the test expects |
| Dispatch.IntegersNaturalsNamedHandles | include/libp/sets/integers.hpp:29-35 | then integers `&&` naturals gives the naturals and `\|\|` the integers, in either order |
| EarlyDispatch.Start | include/libp/sets/measurable_set_impl.hpp:82-89 | both registers start 8×8, filled with `unknown_operator`, and no type has an index |
| EarlyDispatch.Index | include/libp/sets/measurable_set_impl.hpp:149-156 | the first request gives the next index under `MeasurableSet`; later ones give the same |
| EarlyDispatch.OneSided | include/libp/sets/measurable_set_impl.hpp:91-116 | stores both operators of `L` against `R` and changes no other pair |
| EarlyDispatch.RegisterOperators | include/libp/sets/measurable_set_impl.hpp:126-132 | both orders of the pair get both operators, and only their indices may be new |
| EarlyDispatch.RegisterSelf | include/libp/sets/measurable_set_impl.hpp:134-139 | `T` against itself gets its operators, and `T`'s index is answered |
| EarlyDispatch.Initialise | include/libp/sets/measurable_set_impl.hpp:149-156 | initialising a type runs its declarations, then stores its own pair, keeping the registry invariant |
| EarlyDispatch.NoAliasing | include/libp/sets/measurable_set_impl.hpp:61-67 | for registered handles the lookup reads their own slot, which holds their pair's operator if any |
| EarlyDispatch.And | include/libp/sets/measurable_set_impl.hpp:61-80 | handle `&&` throws exactly when the pair was never registered; otherwise it holds exactly the common points |
| EarlyDispatch.Or | include/libp/sets/measurable_set_impl.hpp:65-80 | handle `\|\|` throws exactly when the pair was never registered; otherwise it holds exactly the points of either |
| EarlyDispatch.GenericEqual | include/libp/sets/measurable_set_impl.hpp:158-178 | `==` of two set types is true only for the same type, which then has the same points |
| EarlyDispatch.GenericNotEqual | include/libp/sets/measurable_set_impl.hpp:180-191 | `!=` is the negation of `==`, that is the types differ |
| EarlyDispatch.SameAnd | include/libp/sets/measurable_set_impl.hpp:193-199 | `&&` of a type with itself is that set, holding exactly the common points |
| EarlyDispatch.SameOr | include/libp/sets/measurable_set_impl.hpp:201-207 | `\|\|` of a type with itself is that set, holding exactly the points of either |
| EarlyDispatch.InitialiseIntegers | include/libp/sets/measurable_set_impl.hpp:75-80 | with no declarations, handle `&&` and `\|\|` between the reals and the integers throw, while each type with itself works |

## Left out

- Parsing and printing of floating-point text: the text format is modelled over a stream of tokens, each a character or a boundary value. Number formatting, whitespace and `istream` put-back are left out.
- UnionText.RoundTrip: holds over exact boundary tokens only. The library prints boundaries with `os <<` at the stream's default precision of six significant digits (interval.hpp:162-166, 626-636). So distinct unions can print alike, and `[0,1.0000001][1.0000003,2];` is printed as `[0,1][1,2];`, which reads back as `[0,2]`. The model has no number formatting, so it cannot state this loss.
- Floating-point rounding, and the `Interval<S>`-to-`Interval<T>` conversions through `std::common_type`: boundaries are mathematical reals.
- `IntervalUnion::operator!` (include/libp/sets/interval.hpp:414-423) is never used in the library. As written, its flag evaluates `!empty()`, which applies `operator!` to the static empty union instead of testing `isempty()`. That value is then combined with `&&` and a `bool`, which does not compile once the member is instantiated. So there is no behaviour to model; `UnionComplement.Complement` models `inv`, which it forwards to.
- FiniteSets.And: elements of floating-point type are not modelled. This leaves out the `&&` overloads for floating-point sets with the naturals and with the integers (finite.hpp:132-151 and 181-199).
- FiniteSets.And: the overloads with `All<RT>` (finite.hpp:82-94, 243-274) are left out; `all.hpp` is not part of this model.
- FiniteSets.InclusionExclusion: stated only for operands whose elements compare as integers (`FiniteSets.OrdersAgree`). Across signedness, `&&` can lose common elements and `||` is not modelled with the conversion (next line), so the count does not hold there.
- FiniteSets.Intersect: the 32-bit conversion is modelled only in the comparison. The width of the element types is not otherwise enforced: elements are not bounded above, and wrap-around on construction is not modelled.
- FiniteSets.Union: the element type of the result is `std::common_type` of the operands' types. For `int` with `unsigned` that is `unsigned`, so a negative element would wrap around. The model compares elements as mathematical integers and tags the result unsigned only when both operands are unsigned.
- The free `operator|` of two finite sets (finite.hpp:337-340) builds a `ConditionalSet`; `conditional.hpp` is not part of this model.
- Measures (counting, Lebesgue, uniform), affine sets and function spaces are not part of this model.
- The shared-pointer ownership of handles and the exact order of static initialisation are left out. Registration is modelled as explicit steps in the order the first handle of each type is made.
- The `assert(!type_registered)` in `get_registered_type_index` (measurable_set.hpp:502) is modelled as "registering an already registered type changes nothing", which is what `RegisterType` states.
- FunctionRegisters.Valid: a register has at least one index dimension. `function_register.hpp` also admits `IndexDimension` 0, a register with a single slot, but the library never builds one.
- `std::size_t` overflow of register sizes and offsets is not modelled; sizes are unbounded naturals. No realistic number of types comes near the limit.

## Findings

| source | as written | input that shows it | evidently intended | confidence | as-written member | corrected member |
|---|---|---|---|---|---|---|
| include/libp/sets/integers.hpp:12-20 | `Integers` declares no `register_type(std::size_t)`, and the naturals declare none either. So `register_operators<Integers, NaturalNumbers>` is never called, and the (integers, naturals) slots of both pairwise registers stay empty | register the reals, the integers, then the naturals: test/test_measurable_set_statics.cpp:62-67 expects all nine pairwise slots filled, but slots (1,2) and (2,1) are null. Handle `Z && N` then gives the empty set and `Z \|\| N` throws | the integers name the naturals, as the reals name both; then every slot is filled and `Z && N` is `N`, `Z \|\| N` is `Z` | medium, not executed | Dispatch.IntegersNaturalsGap | Dispatch.IntegersNaturalsNamed |
| include/libp/sets/finite.hpp:62-71 | the overloads of `&&` with the named sets (lines 99-130, 169-179, 217-227) are non-const members. On a const `FiniteSet`, such as the `static_cast<const L&>` operand in the registered lambdas (measurable_set.hpp:331-333), only the generic const overload applies, and it returns `none()` | `const FiniteSet<int>{1} && NaturalNumbers()` gives `none()` although 1 is a natural number | the named-set overloads are `const` like the finite-set ones, so the result keeps the elements that lie in the named set | medium, not executed | FiniteSets.ConstAndLosesElements | FiniteSets.And |
