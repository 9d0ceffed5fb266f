/** The `static_assert` checks of `main` in example/main.cpp: the four
    `contains` queries and the ancestor chains of `D`, `K` and `W` read from
    the registry, followed by one `hierarchy_iterator` walk per chain. Each
    chain is established one linearization round at a time. */
module Scenarios {
  import opened TypeList
  import opened Ancestors
  import opened Example

  /** The built-in types the `contains` checks use; `Pair` is `std::pair`. */
  datatype Builtin = Int | Float | Double | Short | Unsigned | Pair(first: Builtin, second: Builtin)

  /** The four `contains` checks: a `std::pair` is found as a whole, a pair
      with swapped members is a different type, and `short` is neither among
      `int, int, unsigned` nor in the empty list. */
  lemma ContainsChecks()
    ensures Contains(Pair(Int, Float), [Int, Float, Pair(Int, Float), Double])
    ensures !Contains(Pair(Float, Int), [Int, Float, Pair(Int, Float), Double])
    ensures !Contains(Short, [Int, Int, Unsigned])
    ensures !Contains(Short, [])
  {
  }

  /** `get_ancestors<K, typelist<I, J, K>>`: `J` is the best of [J, K] and
      `I` is no base of it, so `J` comes first. */
  lemma ChainOfKFromIJK()
    ensures GetAncestors(K, [I, J, K], IsBaseOf) == [J, I, K]
  {
    assert IsBaseOf(I, K) && IsBaseOf(J, K) && IsBaseOf(K, K);
    assert GetFiltered([I, J, K], BaseOf(IsBaseOf, K)) == [I, J, K];
    var none: seq<Class> := [];
    LinearizeRound([I, J, K], none, IsBaseOf, J, [I, K]);
    LinearizeRound([I, K], [J], IsBaseOf, I, [K]);
    LinearizeRound([K], [J, I], IsBaseOf, K, []);
  }

  /** `get_ancestors<K, typelist<J, I, K>>`: the same bases listed the other
      way round give the other chain. */
  lemma ChainOfKFromJIK()
    ensures GetAncestors(K, [J, I, K], IsBaseOf) == [I, J, K]
  {
    assert IsBaseOf(I, K) && IsBaseOf(J, K) && IsBaseOf(K, K);
    assert GetFiltered([J, I, K], BaseOf(IsBaseOf, K)) == [J, I, K];
    var none: seq<Class> := [];
    LinearizeRound([J, I, K], none, IsBaseOf, I, [J, K]);
    LinearizeRound([J, K], [I], IsBaseOf, J, [K]);
    LinearizeRound([K], [I, J], IsBaseOf, K, []);
  }

  /** `get_the_best` picks the leading `I` of [I, J, I, K]: it is a base of
      the tail's best, which is the second `I`. */
  lemma IJIKChoice()
    ensures GetTheBest([I, J, I, K], IsBaseOf) == I
  {
  }

  /** Both copies of `I` removed from [I, J, I, K]. */
  lemma IJIKRest()
    ensures GetFiltered([I, J, I, K], NotSame(I)) == [J, K]
  {
  }

  /** `get_ancestors<K, typelist<I, J, I, K>>`: a repeated `I` in front puts
      `I` first. */
  lemma ChainOfKFromIJIK()
    ensures GetAncestors(K, [I, J, I, K], IsBaseOf) == [I, J, K]
  {
    assert IsBaseOf(I, K) && IsBaseOf(J, K) && IsBaseOf(K, K);
    assert GetFiltered([I, J, I, K], BaseOf(IsBaseOf, K)) == [I, J, I, K];
    IJIKRound1();
  }

  /** Round 1 of linearizing [I, J, I, K]: the leading `I` is chosen and
      both copies of it leave the list. */
  lemma IJIKRound1()
    ensures Linearize([I, J, I, K], [], IsBaseOf) == [I, J, K]
  {
    var none: seq<Class> := [];
    IJIKChoice();
    IJIKRest();
    LinearizeRound([I, J, I, K], none, IsBaseOf, I, [J, K]);
    assert none + [I] == [I];
    IJIKRound2();
  }

  /** Rounds 2 and 3 of linearizing [I, J, I, K]: `J`, then `K`. */
  lemma IJIKRound2()
    ensures Linearize([J, K], [I], IsBaseOf) == [I, J, K]
  {
    var dest: seq<Class> := [I];
    LinearizeRound([J, K], dest, IsBaseOf, J, [K]);
    assert dest + [J] == [I, J];
    LinearizeRound([K], [I, J], IsBaseOf, K, []);
  }

  /** The order of the registration and its repeats do decide the order of
      the chain where two bases are unrelated: `I` and `J` are both bases of
      `K`, and which of them comes first depends on where each is listed and
      how often. */
  lemma RegistrationOrderChangesChain()
    ensures GetAncestors(K, [I, J, K], IsBaseOf) != GetAncestors(K, [J, I, K], IsBaseOf)
    ensures GetAncestors(K, [I, J, K], IsBaseOf) != GetAncestors(K, [I, J, I, K], IsBaseOf)
  {
    ChainOfKFromIJK();
    ChainOfKFromJIK();
    ChainOfKFromIJIK();
    assert [J, I, K][0] != [I, J, K][0];
  }

  /** The registration, cut into four quarters that are filtered one by one. */
  lemma RegisteredInQuarters()
    ensures Registered == [C, D, E, T, B] + [A, A, A, F] + [G, L, Z, H] + [I, J, K, W]
  {
  }

  /** Filtering four concatenated lists filters each of them. */
  lemma GetFilteredQuarters<U>(a: seq<U>, b: seq<U>, c: seq<U>, d: seq<U>, p: U -> bool,
                               ra: seq<U>, rb: seq<U>, rc: seq<U>, rd: seq<U>)
    requires GetFiltered(a, p) == ra && GetFiltered(b, p) == rb
    requires GetFiltered(c, p) == rc && GetFiltered(d, p) == rd
    ensures GetFiltered(a + b + c + d, p) == ra + rb + rc + rd
  {
    GetFilteredConcat(a + b + c, d, p);
    GetFilteredConcat(a + b, c, p);
    GetFilteredConcat(a, b, p);
  }

  /** The first two quarters of the registration filtered for `D`. */
  lemma BasesOfDInFirstHalf()
    ensures GetFiltered([C, D, E, T, B], BaseOf(IsBaseOf, D)) == [C, D]
    ensures GetFiltered([A, A, A, F], BaseOf(IsBaseOf, D)) == [A, A, A]
  {
    assert IsBaseOf(C, D) && IsBaseOf(D, D) && !IsBaseOf(E, D) && !IsBaseOf(T, D);
    assert !IsBaseOf(B, D) && IsBaseOf(A, D) && !IsBaseOf(F, D);
  }

  /** The second two quarters of the registration filtered for `D`. */
  lemma BasesOfDInSecondHalf()
    ensures GetFiltered([G, L, Z, H], BaseOf(IsBaseOf, D)) == []
    ensures GetFiltered([I, J, K, W], BaseOf(IsBaseOf, D)) == []
  {
    assert !IsBaseOf(G, D) && !IsBaseOf(L, D) && !IsBaseOf(Z, D) && !IsBaseOf(H, D);
    assert !IsBaseOf(I, D) && !IsBaseOf(J, D) && !IsBaseOf(K, D) && !IsBaseOf(W, D);
  }

  /** The registration, as its four quarters, filtered for `D`. */
  lemma BasesOfDByQuarters()
    ensures GetFiltered([C, D, E, T, B] + [A, A, A, F] + [G, L, Z, H] + [I, J, K, W], BaseOf(IsBaseOf, D))
         == [C, D, A, A, A]
  {
    BasesOfDInFirstHalf();
    BasesOfDInSecondHalf();
    GetFilteredQuarters([C, D, E, T, B], [A, A, A, F], [G, L, Z, H], [I, J, K, W], BaseOf(IsBaseOf, D),
                        [C, D], [A, A, A], [], []);
  }

  /** `get_filtered<registry, base_of_T>` for `D`: its bases, in registration order. */
  lemma BasesOfDRegistered()
    ensures GetFiltered(Registered, BaseOf(IsBaseOf, D)) == [C, D, A, A, A]
  {
    BasesOfDByQuarters();
    RegisteredInQuarters();
  }

  /** `get_the_best` picks `A` from [C, D, A, A, A]. */
  lemma DChoice1()
    ensures GetTheBest([C, D, A, A, A], IsBaseOf) == A
  {
  }

  /** Every copy of `A` removed from [C, D, A, A, A]. */
  lemma DRest1()
    ensures GetFiltered([C, D, A, A, A], NotSame(A)) == [C, D]
  {
  }

  /** Round 1 of linearizing the bases of `D`: `A` is the most ancient
      of [C, D, A, A, A]; the later rounds finish the chain. */
  lemma DRound1()
    ensures Linearize([C, D, A, A, A], [], IsBaseOf) == [A, C, D]
  {
    DChoice1();
    DRest1();
    var dest: seq<Class> := [];
    LinearizeRound([C, D, A, A, A], dest, IsBaseOf, A, [C, D]);
    assert dest + [A] == [A];
    DRound2();
  }

  /** Round 2 for `D`: `C` is the most ancient of [C, D]. */
  lemma DRound2()
    ensures Linearize([C, D], [A], IsBaseOf) == [A, C, D]
  {
    var dest: seq<Class> := [A];
    LinearizeRound([C, D], dest, IsBaseOf, C, [D]);
    assert dest + [C] == [A, C];
    DRound3();
  }

  /** Round 3 for `D`: `D` is the most ancient of [D]. */
  lemma DRound3()
    ensures Linearize([D], [A, C], IsBaseOf) == [A, C, D]
  {
    var dest: seq<Class> := [A, C];
    LinearizeRound([D], dest, IsBaseOf, D, []);
    assert dest + [D] == [A, C, D];
  }

  /** `get_ancestors_t<D, MPML_TYPES(REG_TYPES)>` is [A, C, D]. */
  lemma AncestorsOfD()
    ensures GetAncestors(D, Registered, IsBaseOf) == [A, C, D]
  {
    BasesOfDRegistered();
    DRound1();
  }

  /** The first two quarters of the registration filtered for `K`. */
  lemma BasesOfKInFirstHalf()
    ensures GetFiltered([C, D, E, T, B], BaseOf(IsBaseOf, K)) == []
    ensures GetFiltered([A, A, A, F], BaseOf(IsBaseOf, K)) == [F]
  {
    assert !IsBaseOf(C, K) && !IsBaseOf(D, K) && !IsBaseOf(E, K) && !IsBaseOf(T, K);
    assert !IsBaseOf(B, K) && !IsBaseOf(A, K) && IsBaseOf(F, K);
  }

  /** The second two quarters of the registration filtered for `K`. */
  lemma BasesOfKInSecondHalf()
    ensures GetFiltered([G, L, Z, H], BaseOf(IsBaseOf, K)) == [H]
    ensures GetFiltered([I, J, K, W], BaseOf(IsBaseOf, K)) == [I, J, K]
  {
    assert !IsBaseOf(G, K) && !IsBaseOf(L, K) && !IsBaseOf(Z, K) && IsBaseOf(H, K);
    assert IsBaseOf(I, K) && IsBaseOf(J, K) && IsBaseOf(K, K) && !IsBaseOf(W, K);
  }

  /** The registration, as its four quarters, filtered for `K`. */
  lemma BasesOfKByQuarters()
    ensures GetFiltered([C, D, E, T, B] + [A, A, A, F] + [G, L, Z, H] + [I, J, K, W], BaseOf(IsBaseOf, K))
         == [F, H, I, J, K]
  {
    BasesOfKInFirstHalf();
    BasesOfKInSecondHalf();
    GetFilteredQuarters([C, D, E, T, B], [A, A, A, F], [G, L, Z, H], [I, J, K, W], BaseOf(IsBaseOf, K),
                        [], [F], [H], [I, J, K]);
  }

  /** `get_filtered<registry, base_of_T>` for `K`: its bases, in registration order. */
  lemma BasesOfKRegistered()
    ensures GetFiltered(Registered, BaseOf(IsBaseOf, K)) == [F, H, I, J, K]
  {
    BasesOfKByQuarters();
    RegisteredInQuarters();
  }

  /** `get_the_best` picks `F` from [F, H, I, J, K]. */
  lemma KChoice1()
    ensures GetTheBest([F, H, I, J, K], IsBaseOf) == F
  {
  }

  /** Every copy of `F` removed from [F, H, I, J, K]. */
  lemma KRest1()
    ensures GetFiltered([F, H, I, J, K], NotSame(F)) == [H, I, J, K]
  {
  }

  /** Round 1 of linearizing the bases of `K`: `F` is the most ancient
      of [F, H, I, J, K]; the later rounds finish the chain. */
  lemma KRound1()
    ensures Linearize([F, H, I, J, K], [], IsBaseOf) == [F, H, J, I, K]
  {
    KChoice1();
    KRest1();
    var dest: seq<Class> := [];
    LinearizeRound([F, H, I, J, K], dest, IsBaseOf, F, [H, I, J, K]);
    assert dest + [F] == [F];
    KRound2();
  }

  /** `get_the_best` picks `H` from [H, I, J, K]. */
  lemma KChoice2()
    ensures GetTheBest([H, I, J, K], IsBaseOf) == H
  {
  }

  /** Every copy of `H` removed from [H, I, J, K]. */
  lemma KRest2()
    ensures GetFiltered([H, I, J, K], NotSame(H)) == [I, J, K]
  {
  }

  /** Round 2 for `K`: `H` is the most ancient of [H, I, J, K]. */
  lemma KRound2()
    ensures Linearize([H, I, J, K], [F], IsBaseOf) == [F, H, J, I, K]
  {
    KChoice2();
    KRest2();
    var dest: seq<Class> := [F];
    LinearizeRound([H, I, J, K], dest, IsBaseOf, H, [I, J, K]);
    assert dest + [H] == [F, H];
    KRound3();
  }

  /** Round 3 for `K`: `J` is chosen from [I, J, K], ahead of the unrelated
      `I` that precedes it in the list. */
  lemma KRound3()
    ensures Linearize([I, J, K], [F, H], IsBaseOf) == [F, H, J, I, K]
  {
    var dest: seq<Class> := [F, H];
    LinearizeRound([I, J, K], dest, IsBaseOf, J, [I, K]);
    assert dest + [J] == [F, H, J];
    KRound4();
  }

  /** Round 4 for `K`: `I` is the most ancient of [I, K]. */
  lemma KRound4()
    ensures Linearize([I, K], [F, H, J], IsBaseOf) == [F, H, J, I, K]
  {
    var dest: seq<Class> := [F, H, J];
    LinearizeRound([I, K], dest, IsBaseOf, I, [K]);
    assert dest + [I] == [F, H, J, I];
    KRound5();
  }

  /** Round 5 for `K`: `K` is the most ancient of [K]. */
  lemma KRound5()
    ensures Linearize([K], [F, H, J, I], IsBaseOf) == [F, H, J, I, K]
  {
    var dest: seq<Class> := [F, H, J, I];
    LinearizeRound([K], dest, IsBaseOf, K, []);
    assert dest + [K] == [F, H, J, I, K];
  }

  /** `get_ancestors_t<K, MPML_TYPES(REG_TYPES)>` is [F, H, J, I, K]. */
  lemma AncestorsOfK()
    ensures GetAncestors(K, Registered, IsBaseOf) == [F, H, J, I, K]
  {
    BasesOfKRegistered();
    KRound1();
  }

  /** The first two quarters of the registration filtered for `W`. */
  lemma BasesOfWInFirstHalf()
    ensures GetFiltered([C, D, E, T, B], BaseOf(IsBaseOf, W)) == []
    ensures GetFiltered([A, A, A, F], BaseOf(IsBaseOf, W)) == [F]
  {
    assert !IsBaseOf(C, W) && !IsBaseOf(D, W) && !IsBaseOf(E, W) && !IsBaseOf(T, W);
    assert !IsBaseOf(B, W) && !IsBaseOf(A, W) && IsBaseOf(F, W);
  }

  /** The second two quarters of the registration filtered for `W`. */
  lemma BasesOfWInSecondHalf()
    ensures GetFiltered([G, L, Z, H], BaseOf(IsBaseOf, W)) == [H]
    ensures GetFiltered([I, J, K, W], BaseOf(IsBaseOf, W)) == [I, J, K, W]
  {
    assert !IsBaseOf(G, W) && !IsBaseOf(L, W) && !IsBaseOf(Z, W) && IsBaseOf(H, W);
    assert IsBaseOf(I, W) && IsBaseOf(J, W) && IsBaseOf(K, W) && IsBaseOf(W, W);
  }

  /** The registration, as its four quarters, filtered for `W`. */
  lemma BasesOfWByQuarters()
    ensures GetFiltered([C, D, E, T, B] + [A, A, A, F] + [G, L, Z, H] + [I, J, K, W], BaseOf(IsBaseOf, W))
         == [F, H, I, J, K, W]
  {
    BasesOfWInFirstHalf();
    BasesOfWInSecondHalf();
    GetFilteredQuarters([C, D, E, T, B], [A, A, A, F], [G, L, Z, H], [I, J, K, W], BaseOf(IsBaseOf, W),
                        [], [F], [H], [I, J, K, W]);
  }

  /** `get_filtered<registry, base_of_T>` for `W`: its bases, in registration order. */
  lemma BasesOfWRegistered()
    ensures GetFiltered(Registered, BaseOf(IsBaseOf, W)) == [F, H, I, J, K, W]
  {
    BasesOfWByQuarters();
    RegisteredInQuarters();
  }

  /** `get_the_best` picks `F` from [F, H, I, J, K, W]. */
  lemma WChoice1()
    ensures GetTheBest([F, H, I, J, K, W], IsBaseOf) == F
  {
  }

  /** Every copy of `F` removed from [F, H, I, J, K, W]. */
  lemma WRest1()
    ensures GetFiltered([F, H, I, J, K, W], NotSame(F)) == [H, I, J, K, W]
  {
  }

  /** Round 1 of linearizing the bases of `W`: `F` is the most ancient
      of [F, H, I, J, K, W]; the later rounds finish the chain. */
  lemma WRound1()
    ensures Linearize([F, H, I, J, K, W], [], IsBaseOf) == [F, H, J, I, K, W]
  {
    WChoice1();
    WRest1();
    var dest: seq<Class> := [];
    LinearizeRound([F, H, I, J, K, W], dest, IsBaseOf, F, [H, I, J, K, W]);
    assert dest + [F] == [F];
    WRound2();
  }

  /** `get_the_best` picks `H` from [H, I, J, K, W]. */
  lemma WChoice2()
    ensures GetTheBest([H, I, J, K, W], IsBaseOf) == H
  {
  }

  /** Every copy of `H` removed from [H, I, J, K, W]. */
  lemma WRest2()
    ensures GetFiltered([H, I, J, K, W], NotSame(H)) == [I, J, K, W]
  {
  }

  /** Round 2 for `W`: `H` is the most ancient of [H, I, J, K, W]. */
  lemma WRound2()
    ensures Linearize([H, I, J, K, W], [F], IsBaseOf) == [F, H, J, I, K, W]
  {
    WChoice2();
    WRest2();
    var dest: seq<Class> := [F];
    LinearizeRound([H, I, J, K, W], dest, IsBaseOf, H, [I, J, K, W]);
    assert dest + [H] == [F, H];
    WRound3();
  }

  /** `get_the_best` picks `J` from [I, J, K, W]: `I` and `J` are unrelated, so
      the fold keeps `J`, the best of the tail, over the head `I`. */
  lemma WChoice3()
    ensures GetTheBest([I, J, K, W], IsBaseOf) == J
  {
  }

  /** Every copy of `J` removed from [I, J, K, W]. */
  lemma WRest3()
    ensures GetFiltered([I, J, K, W], NotSame(J)) == [I, K, W]
  {
  }

  /** Round 3 for `W`: `J` is chosen from [I, J, K, W], ahead of the unrelated
      `I` that precedes it in the list. */
  lemma WRound3()
    ensures Linearize([I, J, K, W], [F, H], IsBaseOf) == [F, H, J, I, K, W]
  {
    WChoice3();
    WRest3();
    var dest: seq<Class> := [F, H];
    LinearizeRound([I, J, K, W], dest, IsBaseOf, J, [I, K, W]);
    assert dest + [J] == [F, H, J];
    WRound4();
  }

  /** Round 4 for `W`: `I` is the most ancient of [I, K, W]. */
  lemma WRound4()
    ensures Linearize([I, K, W], [F, H, J], IsBaseOf) == [F, H, J, I, K, W]
  {
    var dest: seq<Class> := [F, H, J];
    LinearizeRound([I, K, W], dest, IsBaseOf, I, [K, W]);
    assert dest + [I] == [F, H, J, I];
    WRound5();
  }

  /** Round 5 for `W`: `K` is the most ancient of [K, W]. */
  lemma WRound5()
    ensures Linearize([K, W], [F, H, J, I], IsBaseOf) == [F, H, J, I, K, W]
  {
    var dest: seq<Class> := [F, H, J, I];
    LinearizeRound([K, W], dest, IsBaseOf, K, [W]);
    assert dest + [K] == [F, H, J, I, K];
    WRound6();
  }

  /** Round 6 for `W`: `W` is the most ancient of [W]. */
  lemma WRound6()
    ensures Linearize([W], [F, H, J, I, K], IsBaseOf) == [F, H, J, I, K, W]
  {
    var dest: seq<Class> := [F, H, J, I, K];
    LinearizeRound([W], dest, IsBaseOf, W, []);
    assert dest + [W] == [F, H, J, I, K, W];
  }

  /** `get_ancestors_t<W, MPML_TYPES(REG_TYPES)>` is [F, H, J, I, K, W]. */
  lemma AncestorsOfW()
    ensures GetAncestors(W, Registered, IsBaseOf) == [F, H, J, I, K, W]
  {
    BasesOfWRegistered();
    WRound1();
  }

  /** The ancestor part of `main`: after the declaration (counter 0) and the
      17 adds (1 to 17), the three `using` lines each expand `MPML_TYPES`,
      at counter values 18, 19 and 20; each of those reads finds the latest
      entry. Then the three chains are computed and each is walked with
      `hierarchy_iterator`, which visits the classes of a chain in order. */
  method HierarchyTrees() returns (dTree: seq<Class>, kTree: seq<Class>, wTree: seq<Class>)
    ensures dTree == [A, C, D]
    ensures kTree == [F, H, J, I, K]
    ensures wTree == [F, H, J, I, K, W]
  {
    var registry := Registration(Registered);
    var dTypes := registry.Types(18);
    var kTypes := registry.Types(19);
    var wTypes := registry.Types(20);
    AncestorsOfD();
    AncestorsOfK();
    AncestorsOfW();
    dTree := Dispatch(GetAncestors(D, dTypes, IsBaseOf));
    kTree := Dispatch(GetAncestors(K, kTypes, IsBaseOf));
    wTree := Dispatch(GetAncestors(W, wTypes, IsBaseOf));
  }
}
