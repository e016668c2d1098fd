# fg in Dafny: a verified model of a generic collection library

`fg` is a small Go library of eager sequence transformations. `Collection[E]`
(collection.go) and its earlier revision `Stream[E]` (stream.go) are slice
types whose methods filter, test, map, flat-map, fold, sort, concatenate,
intersect and deduplicate. functions.go wraps `Predicate[E]` and
`Function[E, B]` with the combinators Or, And, Xor and Negate, the constants
True and False, composition (Compose, AndThen, the free Compose), Identity,
the error lifting WithError and the short-circuiting ComposeE.

The model has one module per source file and three shared modules:

- `Sequences` (sequences.dfy): the specification functions. These are
  Filtered, Matching, FoldLeft, Mapped, FlatMapped, Copies, Intersection
  and Deduplicated. Each is defined by recursion on the last element, so it
  follows the Go append loops. The lemmas here are the properties promised
  about the operations.
- `Sorting` (sorting.dfy): what `sort.Slice` promises. `SortSlice` leaves an
  array ordered by `less` and holding the same multiset. A second lemma shows
  that, under a connected order, only one ordered arrangement exists.
- `Collections` (collection.dfy) and `Streams` (stream.dfy): each Go method
  with a value receiver becomes a module-level method whose first argument is
  the receiver, a `seq<E>`. The append loops stay loops, and each is proved to
  build its specification function. Sort works in place on an `array<E>`, as
  Go's Sort does on the receiver's backing array. Go's method forms `Map` and
  `FlatMap` become `MapSame` and `FlatMapSame`, because a module cannot hold
  them beside the free `Map` and `FlatMap`.
- `Functions` (functions.dfy): the combinators are functions that return
  closures. Go's method `f.Compose(c)` is `Precompose`. A fallible Go result
  `(B, error)` is `Returned(value, err)`, and `err == Nil` means Go's nil
  error.
- `Laws` (laws.dfy): lemmas linking the container operations to the
  combinators.
- `Scenarios` (scenarios.dfy): the concrete cases from the Go tests. The
  container cases are client methods whose postcondition is the value the
  test expects; the cases about functions and orderings are lemmas.

Points of the code worth knowing, which the model keeps:

- Sort reorders the caller's backing array through `sort.Slice`, which is not
  stable, and returns the receiver itself.
- Intersect appends `x` once for every equal element of the argument, so
  `[1].Intersect([1, 1])` gives `[1, 1]`.
- Filter, Concat and Intersect return a nil slice when nothing is appended;
  Map, FlatMap and Distinct return an empty literal. Both are `[]` here.
- FindFirst, MapE, FlatMapE, MapStringE, ToStringMap and Contains are called
  by collection_test.go, but no source file defines them.

## Model

| member | source | states |
|---|---|---|
| `Collections.Filter` | collection.go:15-23 | the result is `Filtered(c, f)`: the elements satisfying `f`, in their original order |
| `Collections.AllMatch` | collection.go:25-32 | true iff every element satisfies `f`, hence true on an empty collection |
| `Collections.AnyMatch` | collection.go:34-41 | true iff some element satisfies `f`, hence false on an empty collection |
| `Collections.MapSame` | collection.go:43-45 | the same-type method Map keeps the length and maps element `i` to `f(c[i])` |
| `Collections.FlatMapSame` | collection.go:47-49 | the same-type method FlatMap gives the in-order concatenation of `f(e)` for all elements `e` |
| `Collections.MapString` | collection.go:51-53 | keeps the length and maps element `i` to the string `f(c[i])` |
| `Collections.Reduce` | collection.go:55-61 | the result is the strict left fold of `f` from `initial`; on empty input that is `initial` |
| `Collections.Sort` | collection.go:63-68 | given a strict weak order among the receiver's values, the receiver's own array ends up ordered by `compare` and holds the same multiset, and that same array is returned |
| `Collections.Concat` | collection.go:70-79 | the result is the receiver followed by `b` |
| `Collections.Intersect` | collection.go:81-91 | the result is `Intersection(c, b)`: for each `x` of `c` in order, one copy per element of `b` equal to `x` |
| `Collections.Distinct` | collection.go:97-110 | the result is `Deduplicated(c)`: each value once, at its first occurrence, in input order |
| `Collections.Map` | collection.go:112-119 | the result is `Mapped(stream, o)`: same length, element `i` is `o(stream[i])` |
| `Collections.FlatMap` | collection.go:121-131 | the result is `FlatMapped(stream, o)`: the pieces `o(e)` concatenated in order |
| `Streams.Filter` | stream.go:15-23 | the result is the elements satisfying `f`, in order |
| `Streams.AllMatch` | stream.go:25-32 | true iff every element satisfies `f`; true on empty input |
| `Streams.AnyMatch` | stream.go:34-41 | true iff some element satisfies `f`; false on empty input |
| `Streams.MapSame` | stream.go:43-45 | the method Map keeps the length and maps element `i` to `f(s[i])` |
| `Streams.MapString` | stream.go:47-49 | keeps the length and maps element `i` to the string `f(s[i])` |
| `Streams.Reduce` | stream.go:51-57 | the result is the left fold of `f` from `initial` |
| `Streams.Sort` | stream.go:59-64 | given a strict weak order among the receiver's values, the receiver's own array ends up ordered by `compare` and holds the same multiset, and that same array is returned |
| `Streams.Concat` | stream.go:66-75 | the result is the receiver followed by `b` |
| `Streams.Distinct` | stream.go:81-94 | the result is `Deduplicated(s)`: each value once, at its first occurrence, in input order |
| `Streams.Map` | stream.go:96-103 | the result has the same length and element `i` is `o(stream[i])` |
| `Sequences.Filtered` | collection.go:15-23 | a filtered sequence is no longer than its input and every element it keeps satisfies `f` |
| `Sequences.Matching` | collection.go:15-23 | the matching positions are in range, strictly increasing, and include every position whose element satisfies `f` |
| `Sequences.FilteredPicksMatching` | collection.go:15-23 | Filter's result is exactly the input at the matching positions: an order-preserving subsequence containing every element satisfying `f` and no other |
| `Sequences.FilteredAppend` | collection.go:15-23 | filtering `s + t` is filtering `s`, then `t` |
| `Sequences.FoldLeftAppend` | collection.go:55-61 | folding `s + t` is folding `t` from the fold of `s` |
| `Sequences.FoldLeftFirst` | collection.go:55-61 | the first element is combined with `initial` first: a left fold, not a right fold |
| `Sequences.Mapped` | collection.go:112-119 | mapping keeps the length, and position `i` holds `o(s[i])` |
| `Sequences.MappedFusion` | collection.go:112-119 | mapping `g` and then `h` is mapping their composition |
| `Sequences.FlatMappedLength` | collection.go:121-131 | the flat-mapped length is the sum of the piece lengths |
| `Sequences.FlatMappedAppend` | collection.go:121-131 | flat-mapping `s + t` is flat-mapping `s`, then `t` |
| `Sequences.FlatMappedSingletons` | collection.go:121-131 | flat-mapping with one-element pieces `[g(x)]` is mapping `g` |
| `Sequences.FlatMappedIsFold` | collection.go:121-131 | flat-mapping is the left fold that appends each piece to the accumulator |
| `Sequences.CopiesCount` | collection.go:84-88 | the inner loop appends `x` exactly as many times as `x` occurs in `b`, and appends nothing else |
| `Sequences.CopiesOfDistinct` | collection.go:84-88 | if `b` has no duplicates, the inner loop appends `x` once when `x` is in `b`, and never otherwise |
| `Sequences.IntersectionCounts` | collection.go:81-91 | each value occurs in the intersection (its count in `c`) times (its count in `b`) times |
| `Sequences.IntersectionMembers` | collection.go:81-91 | a value is in the intersection iff it is in both `c` and `b` |
| `Sequences.IntersectionOfDistinct` | collection.go:81-91 | if `b` has no duplicates, the intersection keeps exactly the elements of `c` found in `b`, in `c`'s order |
| `Sequences.Deduplicated` | collection.go:97-110 | the deduplicated sequence has no duplicates and the same set of values as the input |
| `Sequences.DeduplicatedKeepsFirstOccurrenceOrder` | collection.go:97-110 | the deduplicated values come in the order of their first occurrences in the input |
| `Sequences.DeduplicatedOfDistinct` | collection.go:97-110 | a sequence without duplicates is unchanged by deduplication |
| `Sequences.DeduplicatedIdempotent` | collection.go:97-110 | deduplicating twice is deduplicating once |
| `Sorting.SortSlice` | collection.go:64-66 | given a strict weak order among the array's values, `sort.Slice` leaves the array ordered by `less` and holding the same multiset; stability is not claimed |
| `Sorting.OrderedArrangementUnique` | collection.go:63-68 | if `less` relates any two different values, two ordered arrangements of one multiset are equal, so Sort's result is determined by its input |
| `Functions.Or` | functions.go:5-9 | the closure holds where `f` or `orF` holds; its laws are in `OrFalse`, `Absorbers` and `DeMorgan` |
| `Functions.And` | functions.go:11-15 | the closure holds where both `f` and `andF` hold; its laws are in `AndTrue`, `Absorbers` and `DeMorgan` |
| `Functions.Xor` | functions.go:17-21 | the closure holds where `f` and `xorF` differ; `XorExactlyOne` and `XorIsOrButNotAnd` state its law |
| `Functions.Negate` | functions.go:23-27 | the closure holds where `f` does not; `NegateInvolution`, `NegateConstants` and `DeMorgan` state its laws |
| `Functions.False` | functions.go:29-31 | the closure never holds; `OrFalse`, `Absorbers` and `NegateConstants` state its laws |
| `Functions.True` | functions.go:33-35 | the closure always holds; `AndTrue`, `Absorbers` and `NegateConstants` state its laws |
| `Functions.Precompose` | functions.go:39-43 | method `f.Compose(c)`: the closure applies `c`, then `f`; `MethodFormsAreCompose` states it is `Compose(c, f)` |
| `Functions.AndThen` | functions.go:45-49 | the closure applies `f`, then `c`; `MethodFormsAreCompose` states it is `Compose(f, c)` |
| `Functions.WithError` | functions.go:51-55 | the closure returns `(f(e), nil)`; `WithErrorCommutesWithCompose` states that it never fails and commutes with composition |
| `Functions.Identity` | functions.go:57-59 | the closure returns its argument; `IdentityNeutral` states that it is neutral for every composition |
| `Functions.Compose` | functions.go:61-65 | the closure applies `a`, then `b`; `ComposeAssociative` states that it is associative |
| `Functions.ComposeE` | functions.go:69-78 | the closure applies `a`; on an error it returns `zero` and that error, otherwise `b` on `a`'s value; `ComposeEShortCircuits`, `ComposeEContinues` and `ComposeEAssociative` state its laws |
| `Functions.OrFalse` | functions.go:5-9 | `p.Or(False())` agrees with `p` everywhere |
| `Functions.AndTrue` | functions.go:11-15 | `p.And(True())` agrees with `p` everywhere |
| `Functions.Absorbers` | functions.go:5-15 | `p.Or(True())` always holds and `p.And(False())` never does |
| `Functions.DeMorgan` | functions.go:5-27 | Negate of Or is And of the Negates, and Negate of And is Or of the Negates |
| `Functions.XorExactlyOne` | functions.go:17-21 | `p.Xor(q)` holds iff exactly one of `p` and `q` holds |
| `Functions.XorIsOrButNotAnd` | functions.go:17-21 | `p.Xor(q)` is `p.Or(q).And(p.And(q).Negate())` |
| `Functions.NegateInvolution` | functions.go:23-27 | negating twice gives the predicate back |
| `Functions.NegateConstants` | functions.go:23-35 | `True().Negate()` never holds and `False().Negate()` always does |
| `Functions.MethodFormsAreCompose` | functions.go:39-49 | `f.Compose(c)` applies `c` first and is `Compose(c, f)`; `f.AndThen(c)` applies `c` last and is `Compose(f, c)` |
| `Functions.IdentityNeutral` | functions.go:57-59 | Identity returns its argument and is neutral on both sides of Compose, and for method Compose and AndThen |
| `Functions.ComposeAssociative` | functions.go:61-65 | free Compose is associative |
| `Functions.WithErrorCommutesWithCompose` | functions.go:51-55 | WithError always returns `(f(e), nil)`, and lifting commutes with composition |
| `Functions.ComposeEShortCircuits` | functions.go:69-78 | if `a` fails, ComposeE returns `zero` with `a`'s error, whatever `b` is, so `b` is never consulted |
| `Functions.ComposeEContinues` | functions.go:69-78 | if `a` succeeds, ComposeE returns exactly what `b` returns on `a`'s value, error included |
| `Functions.ComposeEAssociative` | functions.go:69-78 | ComposeE is associative: the first failure is reported, with the outer zero value |
| `Laws.FilterTrueKeepsAll` | collection.go:15-23 | filtering with `True()` returns the input |
| `Laws.FilterFalseKeepsNone` | collection.go:15-23 | filtering with `False()` returns nothing |
| `Laws.FilterAndFusion` | collection.go:15-23 | filtering by `p` and then by `q` is filtering by `p.And(q)` |
| `Laws.FilterNegatePartition` | collection.go:15-23 | `Filter(p)` and `Filter(p.Negate())` together hold exactly the input's elements, each as often as in the input: each element goes to exactly one of them |
| `Laws.AllMatchIffFilterKeepsAll` | collection.go:25-32 | AllMatch holds iff Filter drops nothing |
| `Laws.AnyMatchIffFilterKeepsSome` | collection.go:34-41 | AnyMatch holds iff Filter keeps something |
| `Laws.AllMatchIsNotAnyMatchNegated` | collection.go:25-41 | `AllMatch(f)` is `!AnyMatch(f.Negate())` |
| `Laws.MapIdentity` | collection.go:112-119 | mapping with Identity returns the input |
| `Laws.MapCompose` | collection.go:112-119 | mapping with `Compose(g, h)` is mapping `g`, then `h` |
| `Scenarios.FilterScenario` | collection_test.go:12-22 | Filter of `[1, 2, 3]` by `e >= 2` gives `[2, 3]` |
| `Scenarios.MapScenario` | collection_test.go:53-58 | method Map of `[1, 2, 3]` by `e + 1` gives `[2, 3, 4]` |
| `Scenarios.FlatMapScenario` | collection_test.go:89-94 | FlatMap of `[1, 2, 3]` by `e -> [1, 2, 3][:e]` gives `[1, 1, 2, 1, 2, 3]` |
| `Scenarios.ReduceScenario` | collection_test.go:118-125 | Reduce of `"a", "b", "c"` from `""` by concatenation gives `"abc"` |
| `Scenarios.OrderOnSortedValuesOnly` | collection.go:63-68 | a comparator that orders 3, 1, 2 like `<` but relates -1 to itself is still a strict weak order on the values being sorted, so Sort accepts it |
| `Scenarios.SortScenario` | collection_test.go:127-134 | sorting `[3, 1, 2]` by `<` gives `[1, 2, 3]` |
| `Scenarios.OnlyOrderedArrangement` | collection_test.go:127-134 | the only arrangement of 3, 1, 2 that is ordered by `<` is `[1, 2, 3]` |
| `Scenarios.ConcatScenario` | collection_test.go:169-175 | `[1, 2]` concatenated with `[3, 4]` gives `[1, 2, 3, 4]` |
| `Scenarios.IntersectScenario` | collection_test.go:186-192 | `[1, 2, 3]` intersected with `[2, 3, 4]` gives `[2, 3]` |
| `Scenarios.IntersectKeepsDuplicates` | collection.go:81-91 | `[1]` intersected with `[1, 1]` gives `[1, 1]`, not a set intersection |
| `Scenarios.DistinctScenario` | collection_test.go:194-200 | Distinct of `[1, 1, 2, 2, 3, 4, 4]` gives `[1, 2, 3, 4]` |
| `Scenarios.FunctionScenario` | functions_test.go:38-51 | `len` composed with `"my" +` gives 3 on `"a"`; `len` and then `+ 1` gives 2 |
| `Scenarios.ComposeEScenario` | functions_test.go:68-84 | with the test's `firstElement` and `lenOfElement`, ComposeE gives `(3, nil)` on `["abc", "bd"]` as the test checks; on an empty list `firstElement` (functions_test.go:69-72) fails, so the result is `(0, error)` |

## Left out

- Unwrap, CollectionOf, CollectionFrom, StreamOf and StreamFrom are identity conversions. A collection is its `seq` here, so they have no member.
- The internals of `sort.Slice` (Go's standard library) are not part of this model. The body of `Sorting.SortSlice` is an insertion sort standing in for it. Only the documented result is claimed: ordered, and a permutation. Stability is not claimed, because the Go sort is not stable.
- Sort is modelled for comparators that are strict weak orders among the values being sorted, as `sort.Slice` needs for a well-defined result. Values outside the slice are not constrained. What Go's sort does with a comparator that is not such an order is not modelled.
- Aliasing beyond Sort is not modelled. A `seq` cannot share a backing array, so Go's append sharing cannot be observed here, and neither can a caller's later writes to an unwrapped slice.
- The nil-slice versus empty-slice distinction is not modelled. Filter, Concat and Intersect start from nil, Map, FlatMap and Distinct from an empty literal, and both are `[]` here.
- Go's dynamic `any(x) == any(y)` comparison and the `map[any]struct{}` key lookup become Dafny equality on `E(==)`. The runtime panic for non-comparable dynamic types is not modelled. Distinct also asks `E(!new)`, so that the model can quantify over values. So do `Sorting.Connected` and `Sorting.OrderedArrangementUnique`, which are lemmas about comparators that relate any two different values.
- The functions passed by callers are total and pure (Dafny arrows). Panics and side effects inside them are not modelled.
- Go `error` values carry only an opaque tag (`Fault(tag)`). Their messages are not modelled.
- FindFirst, MapE, FlatMapE, MapStringE, ToStringMap and Contains are called by collection_test.go, but no source file defines them, so they are not modelled.
