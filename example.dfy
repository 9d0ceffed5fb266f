/** example/main.cpp: a concrete class hierarchy of two trees, rooted at A
    and at F, with one diamond inside F's tree (I and J both derive from H,
    and K derives from both I and J), its registration in a registry, the
    `hierarchy_iterator` dispatcher, and the `static_assert` scenarios of
    `main`. */
module Example {
  import opened TypeList
  import opened Ancestors
  import opened TypeRegistry

  /** The classes declared at example/main.cpp:45-53. */
  datatype Class = A | B | C | T | D | E | F | G | L | Z | H | I | J | K | W

  /** Depth of a class below the root of its tree. */
  function Rank(c: Class): nat
  {
    match c
    case A => 0 case F => 0
    case B => 1 case C => 1 case G => 1 case H => 1
    case T => 2 case D => 2 case E => 2 case L => 2 case Z => 2 case I => 2 case J => 2
    case K => 3
    case W => 4
  }

  /** The direct public bases of each class; every base is shallower, so the
      hierarchy has no cycle. */
  function Parents(c: Class): (ps: seq<Class>)
    ensures forall p :: p in ps ==> Rank(p) < Rank(c)
  {
    match c
    case B => [A] case C => [A] case T => [B] case D => [C] case E => [C]
    case G => [F] case L => [G] case Z => [G] case H => [F] case I => [H] case J => [H]
    case K => [I, J]
    case W => [K]
    case _ => []
  }

  /** Every class that `std::is_base_of<_, d>` accepts, `d` included. */
  function Bases(d: Class): set<Class>
  {
    match d
    case A => {A}
    case B => {A, B}
    case C => {A, C}
    case T => {A, B, T}
    case D => {A, C, D}
    case E => {A, C, E}
    case F => {F}
    case G => {F, G}
    case L => {F, G, L}
    case Z => {F, G, Z}
    case H => {F, H}
    case I => {F, H, I}
    case J => {F, H, J}
    case K => {F, H, I, J, K}
    case W => {F, H, I, J, K, W}
  }

  /** `std::is_base_of<b, d>` on these classes, true also when `b` is `d`. */
  predicate IsBaseOf(b: Class, d: Class)
  {
    b in Bases(d)
  }

  /** All the bases of the classes in `ps`. */
  function BasesOfAll(ps: seq<Class>): set<Class>
  {
    if |ps| == 0 then {} else Bases(ps[0]) + BasesOfAll(ps[1..])
  }

  /** The table of `Bases` is the inheritance closure of
      example/main.cpp:45-53: a class and the bases of its direct bases. */
  lemma BasesFollowInheritance(d: Class)
    ensures Bases(d) == {d} + BasesOfAll(Parents(d))
  {
    match d
    case K => assert Parents(K) == [I, J] && [I, J][1..] == [J];
    case _ =>
  }

  /** A strict base is shallower than its descendant. */
  lemma IsBaseOfRank(b: Class, d: Class)
    requires IsBaseOf(b, d) && b != d
    ensures Rank(b) < Rank(d)
  {
  }

  /** Bases of a base are bases. */
  lemma IsBaseOfNested(y: Class, z: Class)
    requires IsBaseOf(y, z)
    ensures Bases(y) <= Bases(z)
  {
  }

  /** `is_base_of` is a partial order on any list of these classes, as the
      linearization needs. */
  lemma IsBaseOfPartialOrder(l: seq<Class>)
    ensures PartialOrderOn(IsBaseOf, l)
  {
    forall x, y, z | IsBaseOf(x, y) && IsBaseOf(y, z)
      ensures IsBaseOf(x, z)
    {
      IsBaseOfNested(y, z);
    }
    forall x, y | IsBaseOf(x, y) && IsBaseOf(y, x)
      ensures x == y
    {
      if x != y {
        IsBaseOfRank(x, y);
        IsBaseOfRank(y, x);
      }
    }
  }

  /** The tokens passed to the 17 `MPML_ADD(_, REG_TYPES)` lines, in order. */
  const Registered: seq<Class> := [C, D, E, T, B, A, A, A, F, G, L, Z, H, I, J, K, W]

  /** A translation unit holding `MPML_DECLARE(REG_TYPES)`, then one
      `MPML_ADD(t, REG_TYPES)` line per token of `tokens`. The declaration
      takes counter value 0 and the adds take 1 to `|tokens|`; the latest
      entry is then every token, in the order added. */
  method Registration<U(==)>(tokens: seq<U>) returns (registry: Registry<U>)
    ensures fresh(registry)
    ensures registry.Valid() && registry.declared == 0 && registry.top == |tokens|
    ensures registry.history[registry.top] == tokens
  {
    registry := new Registry<U>.Declare(0);
    var p := 1;
    while p <= |tokens|
      invariant 1 <= p <= |tokens| + 1
      invariant registry.Valid() && registry.declared == 0 && registry.top == p - 1
      invariant registry.history[registry.top] == tokens[..p - 1]
    {
      registry.Add(p, tokens[p - 1]);
      assert tokens[..p] == tokens[..p - 1] + [tokens[p - 1]];
      p := p + 1;
    }
    assert tokens[..p - 1] == tokens;
  }

  /** The registration followed by one `MPML_TYPES(REG_TYPES)`, which reads
      at the counter value after the last add minus one: the result is every
      token, in the order added. */
  method RegisterInOrder<U(==)>(tokens: seq<U>) returns (universe: seq<U>)
    ensures universe == tokens
  {
    var registry := Registration(tokens);
    universe := registry.Types(|tokens| + 1);
  }

  /** The registry of example/main.cpp read after its 17 adds: every token,
      in registration order, the three copies of `A` included. */
  method RegisterExample() returns (universe: seq<Class>)
    ensures universe == Registered
  {
    universe := RegisterInOrder(Registered);
  }

  /** `hierarchy_iterator<TYPELIST, LENGTH, INDEX>::exec`: one processor call
      for `at_t<INDEX, TYPELIST>`, then the same for `INDEX + 1`, stopping at the
      specialization where `INDEX == LENGTH`. The processor's only effect is
      modelled as recording the visited token in `trace`. */
  method HierarchyIterator<U>(l: seq<U>, length: nat, index: nat) returns (trace: seq<U>)
    requires index <= length <= |l|
    ensures |trace| == length - index
    ensures forall k :: 0 <= k < |trace| ==> trace[k] == l[index + k]
  {
    trace := [];
    var i := index;
    while i != length
      invariant index <= i <= length
      invariant |trace| == i - index
      invariant forall k :: 0 <= k < |trace| ==> trace[k] == l[index + k]
      decreases length - i
    {
      var visited := At(i, l);
      trace := trace + [visited.value];
      i := i + 1;
    }
  }

  /** `hierarchy_iterator<D_ANCESTORS>::exec` with its default arguments visits
      every index of the list once, in increasing order; an empty list gives
      no call at all. */
  method Dispatch<U>(l: seq<U>) returns (trace: seq<U>)
    ensures trace == l
  {
    trace := HierarchyIterator(l, |l|, 0);
  }
}
