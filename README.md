# mpml in Dafny

A model of mpml, a header-only C++ library for metaprogramming on type lists.
The library's `typelist<TS...>` is a compile-time list of types. Its templates
push, pop, index, concatenate, invert, search and filter such lists. It also
picks the "best" element of a list under a comparator trait, and it computes
the family tree of a class: `get_ancestors` returns, among the classes of a
list, every base of a given class, from the most ancient one down to the class
itself. A set of macros (`MPML_DECLARE`, `MPML_ADD`, `MPML_TYPES`,
`MPML_CONTAINS`) keeps a registry of types that grows as a translation unit is
compiled. The registry is indexed by the compiler's `__COUNTER__`. The example
program registers a 15-class hierarchy with a diamond, then checks the ancestor
chains of three classes and walks them.

In the model, a type list is a `seq<T>` over a token type. Each template
specialization becomes one branch of a recursive function. The two diagnostics
of `at` become a `Rejected` result. `std::is_base_of` is a relation
`isBaseOf(base, derived)` supplied by the caller. For the example hierarchy it
is an explicit table, proved to be the inheritance closure of the class
declarations. The registry is a class. Its `history` field is the map from
counter value to list that the specializations of `_name##_mpml_history`
define. `Add` extends that map the way a new specialization does.

Files:
- `typelist.dfy` (module `TypeList`): the list operations, `get_filtered`, `get_the_best` and `contains`.
- `ancestors.dfy` (module `Ancestors`): `get_ancestors` and `details::get_ancestors`.
- `registry.dfy` (module `TypeRegistry`): the registry macros.
- `example.dfy` (module `Example`): the hierarchy, the registration, and `hierarchy_iterator`.
- `scenarios.dfy` (module `Scenarios`): the `static_assert` checks of `main`.

Three behaviours of the code that a reader might not expect, which the model
follows:
- `get_ancestors<TYPE, L>` keeps `TYPE` itself when `TYPE` is in `L`, because `std::is_base_of<T, T>` holds. The ancestors of `D` are therefore `[A, C, D]`, and the chain ends with the class.
- Ties between unrelated bases are not broken in favour of the first one listed. `get_the_best` is a right fold: it keeps the head only when the head is a base of the tail's best. So from `[I, J, K, W]` it picks `J`, and in the chain of `K`, `J` comes before `I`.
- There are no separate `remove_all`, `remove_duplicates` or `pop_back` operations. Removing every copy of the chosen base is a `get_filtered` with the trait `not_most_ancient_t`, and that is what the model does.

## Model

| member | source | states |
|---|---|---|
| TypeList.SizeMinusOne | include/mpml.h:96 | `size - 1` in 64-bit `size_t`: the predecessor for a non-empty list, and the largest `size_t` for the empty one |
| TypeList.PushBack | include/mpml.h:100 | the old list is kept as a prefix and the new token is appended |
| TypeList.PushFront | include/mpml.h:101 | the new token is first and the old list follows |
| TypeList.PopFront | include/mpml.h:102 | defined only on non-empty lists; pushing the head back onto the result restores the list |
| TypeList.PopFrontPushFront | include/mpml.h:101-102 | `pop_front` undoes `push_front` |
| TypeList.At | include/mpml.h:108-127 | an element is found exactly when the index is in bounds, and it is the element at that index; index 0 of the empty list raises "Empty typelist access"; every other out-of-range index raises "Out of bounds access" |
| TypeList.Front | include/mpml.h:97 | the head of a non-empty list; "Empty typelist access" on the empty list |
| TypeList.Back | include/mpml.h:96 | the last element of a non-empty list; on the empty list the index wraps, so the error is "Out of bounds access" |
| TypeList.Concat | include/mpml.h:132-135 | the first list is followed by the second, each kept whole |
| TypeList.Invert | include/mpml.h:143-157 | inversion keeps the length |
| TypeList.InvertAt | include/mpml.h:149-157 | position `k` of the inverted list is position `size - 1 - k` of the original |
| TypeList.InvertInvolution | include/mpml.h:143-157 | inverting twice gives the original list |
| TypeList.IndexOfFirstFrom | include/mpml.h:166-179 | with the carried `N`: an absent token gives `size - (N + 1)`; a present one gives an index holding it with no earlier occurrence |
| TypeList.IndexOfFirst | include/mpml.h:159-179 | -1 exactly when the token is absent; otherwise the first index at which it occurs |
| TypeList.Contains | include/mpml.h:320-335 | true exactly when the token is in the list |
| TypeList.GetFiltered | include/mpml.h:189-205 | the result is never longer than the list |
| TypeList.GetFilteredMembers | include/mpml.h:181-205 | a token is in the result exactly when it is in the list and the trait holds for it |
| TypeList.GetFilteredShrinks | include/mpml.h:197-205 | when the trait fails on a present token, the result is strictly shorter; this is why `details::get_ancestors` terminates |
| TypeList.GetFilteredCount | include/mpml.h:197-205 | every token the trait accepts keeps its multiplicity, and every other token has none |
| TypeList.GetFilteredIsSubsequence | include/mpml.h:197-205 | the result keeps the original order: it is a subsequence of the list |
| TypeList.GetFilteredIsLongest | include/mpml.h:181-205 | no subsequence of accepted tokens is longer, and one of equal length is the result itself |
| TypeList.GetFilteredConcat | include/mpml.h:197-205 | filtering a concatenation is concatenating the filtered parts |
| TypeList.GetFilteredNone | include/mpml.h:192-205 | when the trait rejects every token, the result is empty |
| TypeList.GetFilteredAll | include/mpml.h:192-205 | when the trait accepts every token, the result is the list itself |
| TypeList.GetTheBest | include/mpml.h:213-232 | defined only on non-empty lists; the result is an element of the list |
| TypeList.GetTheBestIsMinimal | include/mpml.h:207-232 | under a partial order, no other element of the list is related to the result from below |
| Ancestors.Linearize | include/mpml.h:287-312 | no contract of its own; the `Linearize…` lemmas below state what the linearization gives |
| Ancestors.LinearizeExtends | include/mpml.h:287-312 | the accumulator `DESTLIST` is kept, in order, as a prefix of the result |
| Ancestors.LinearizeMembers | include/mpml.h:287-312 | the result holds exactly the tokens of the accumulator and of the source list |
| Ancestors.LinearizeRound | include/mpml.h:295-305 | one round: the most ancient token is appended, and every copy of it leaves the source list |
| Ancestors.LinearizeNoDuplicates | include/mpml.h:295-305 | a duplicate-free accumulator with no token left in the source list stays duplicate-free |
| Ancestors.LinearizeBasesFirst | include/mpml.h:295-305 | under a partial order, no token of the result is placed after one of its descendants |
| Ancestors.GetAncestors | include/mpml.h:272-283 | the result holds every base of the target that is in the list, each exactly once, and nothing else |
| Ancestors.GetAncestorsBasesFirst | include/mpml.h:234-239 | when `is_base_of` is a partial order on the list, every ancestor comes before its descendants ("descending order") |
| Ancestors.GetAncestorsEndsWithTarget | include/mpml.h:272-312 | a listed target with a reflexive `is_base_of` closes its own chain: the result is non-empty and ends with the target |
| Ancestors.NoDuplicatesSameMembers | include/mpml.h:234-239 | two duplicate-free lists holding the same tokens are permutations of each other |
| Ancestors.GetAncestorsOrderFree | example/main.cpp:55 | lists holding the same tokens, in any order and with any repeats, give chains that are permutations of each other |
| TypeRegistry.ReadAt | include/mpml.h:388-407 | no contract of its own; the `ReadAt…` lemmas below state what a read gives |
| TypeRegistry.ReadAtNearest | include/mpml.h:388-407 | a read at a point with no entry resolves to the nearest earlier entry |
| TypeRegistry.ReadAtBelowEntries | include/mpml.h:400-407 | a read below every entry is the empty list |
| TypeRegistry.ReadAtUnaffected | include/mpml.h:410-418 | defining an entry does not change any read at an earlier point |
| TypeRegistry.ReadAtPrefix | include/mpml.h:388-418 | the registry only grows: an earlier read is a prefix of a later one |
| TypeRegistry.Registry.Declare | include/mpml.h:374-386 | the history starts at the declared point with the empty list |
| TypeRegistry.Registry.Read | include/mpml.h:388-407 | walking back from a point returns the read function's value, and the walk stops at the declared point |
| TypeRegistry.Registry.Add | include/mpml.h:410-418 | the new entry is the read just before it with the token pushed at the back; the history stays well formed; the latest list grows by exactly that token |
| TypeRegistry.Registry.Types | include/mpml.h:366 | reading at `__COUNTER__ - 1` gives the most recent entry |
| TypeRegistry.Registry.ContainsType | include/mpml.h:420 | true exactly when the token has been registered |
| Example.Parents | example/main.cpp:45-53 | every direct base lies at a smaller depth, so the hierarchy has no cycle |
| Example.BasesFollowInheritance | example/main.cpp:45-53 | the `is_base_of` table is the class itself plus the bases of its direct bases |
| Example.IsBaseOfRank | example/main.cpp:45-53 | a strict base lies at a smaller depth than its descendant |
| Example.IsBaseOfNested | example/main.cpp:45-53 | a base of a base is a base |
| Example.IsBaseOfPartialOrder | example/main.cpp:45-53 | `is_base_of` is a partial order on any list of the example's classes |
| Example.Registration | example/main.cpp:29-74 | one declaration at counter 0, then one add per token at 1, 2, …: the registry stays well formed and its latest entry is every token, in the order added |
| Example.RegisterInOrder | example/main.cpp:57-74 | one declaration, then one add per token, then a read: the result is every token, in the order added |
| Example.RegisterExample | example/main.cpp:57-74 | the registry read after the 17 adds is the registration sequence, repeats included |
| Example.HierarchyIterator | example/main.cpp:86-101 | from `INDEX` to `LENGTH`, the processor sees `at_t<INDEX>` and each following index once, in order |
| Example.Dispatch | example/main.cpp:86-101 | with the default arguments, every element of the list is visited once, in order |
| Scenarios.ContainsChecks | example/main.cpp:110-114 | the four `contains` checks: the pair is found, the swapped pair is not, and `short` is in neither list |
| Scenarios.ChainOfKFromIJK | include/mpml.h:213-232 | the bases of `K` listed as `[I, J, K]` give the chain `[J, I, K]` |
| Scenarios.ChainOfKFromJIK | include/mpml.h:213-232 | the bases of `K` listed as `[J, I, K]` give the chain `[I, J, K]` |
| Scenarios.ChainOfKFromIJIK | include/mpml.h:213-232 | the bases of `K` listed as `[I, J, I, K]`, with `I` repeated, give the chain `[I, J, K]` |
| Scenarios.RegistrationOrderChangesChain | example/main.cpp:55 | reordering the list, or repeating a class in it, changes the chain of `K` |
| Scenarios.AncestorsOfD | example/main.cpp:119-127 | the ancestors of `D` in the registry are `[A, C, D]` |
| Scenarios.AncestorsOfK | example/main.cpp:120-128 | the ancestors of `K` in the registry are `[F, H, J, I, K]` |
| Scenarios.AncestorsOfW | example/main.cpp:121-129 | the ancestors of `W` in the registry are `[F, H, J, I, K, W]` |
| Scenarios.HierarchyTrees | example/main.cpp:117-145 | after the 17 adds, three reads of the registry at counters 18, 19 and 20, the three chains computed from them, and a walk of each, which visits exactly those chains, in order |

## Left out

- The SFINAE machinery is not modelled: `make_typelist`, `is_typelist` and its `static_assert`s, and `is_defined` (include/mpml.h:66-78, 274, 343-348). Sequences are lists by construction. Whether a history entry exists is map membership.
- `__COUNTER__` is not modelled as a counter. Each macro use receives its counter value as an explicit point. `Registry.Add` requires the point to be above the most recent entry, which the preprocessor guarantees. Reads (`Registry.Types`) take a point but do not use it up, so the model also allows an add at a point that an earlier read has already passed, which `__COUNTER__` rules out. No property proved here depends on that order.
- `TypeRegistry.ReadAt`: a read at a point at or below the declared point, with no entry there, gives the empty list. In the C++ code, `conditional_t` needs both of its type arguments, so `typename _name##_mpml_read<IDX-1>::type` is instantiated even when `IDX > _idx` is false, and such a read recurses, through `IDX-1` wrapping at 0, until compilation fails. No macro performs such a read, so the model keeps the intended value.
- `TypeList.At`: only the first diagnostic is modelled. A C++ out-of-bounds `at` also instantiates the recursive case, which can raise further `static_assert` messages.
- `TypeList.IndexOfFirstFrom`: works on unbounded integers. The source computes in 32-bit `int`, which only matters for lists of more than 2^31 types.
- `Example.HierarchyIterator`: `LENGTH` and `INDEX` are `unsigned` in the source. Their range is not modelled, as the lists are short.
- `std::is_base_of` is language reflection. The generic operations take it as a relation. The properties that need it assume it is a partial order (`PartialOrderOn`), and `IsBaseOfPartialOrder` proves that for the example. Access control and virtual or ambiguous bases are not modelled.
- `instance_processor` is not modelled: it prints through `std::cout`, and `hierarchy_iterator` casts a `void*`. The model records the sequence of types the processor is called with.
- The 17 `MPML_ADD` lines are modelled by `Example.Registration`, one loop iteration per line, with points 1 to 17 after the declaration at 0. These are the values `__COUNTER__` takes in example/main.cpp when no included header uses it. If one does, the values shift, but their order, which is all `Registry.Add` depends on, stays the same.
- `TypeRegistry.Registry.Types`: `MPML_TYPES` (include/mpml.h:366) names `_name##_mpml_read_t<__COUNTER__ - 1>`, but `INTERNAL_MPML_DECLARE` (include/mpml.h:374-408) declares only `_name##_mpml_history` and `_name##_mpml_read`. The alias is never declared, so `MPML_TYPES`, `MPML_CONTAINS` and the `using` lines of example/main.cpp:119-121 would not compile as written. The model reads the alias as `typename _name##_mpml_read<P>::type`, the list stored at the nearest entry, which is what the macro's name and its use in `MPML_CONTAINS` intend.
- `Ancestors.Linearize` carries no postcondition of its own. Its properties are the `Linearize…` lemmas that follow it, and `Ancestors.GetAncestors` collects them.

## Findings

| source | as written | input that shows it | evidently intended | confidence | as-written member | corrected member |
|---|---|---|---|---|---|---|
| example/main.cpp:55 | the comment says registry order and duplicated classes do not matter, but `get_the_best` is a right fold, so the relative order of unrelated bases in a chain follows their positions and repeats in the list | `get_ancestors<K, typelist<I, J, K>>` is `[J, I, K]`, while `typelist<J, I, K>` and `typelist<I, J, I, K>` give `[I, J, K]` | order and repeats do not change which classes a chain holds, each once, with every base before its descendants; only unrelated bases may swap | not executed | Scenarios.RegistrationOrderChangesChain | Ancestors.GetAncestorsOrderFree |
