/** `get_ancestors` of include/mpml.h: the family tree of a type among the
    tokens of a list, from the most ancient base down to the type itself.
    `std::is_base_of` is a caller-supplied relation `isBaseOf(base, derived)`. */
module Ancestors {
  import opened TypeList

  /** No token occurs twice. */
  predicate NoDuplicates<T(==)>(s: seq<T>)
  {
    forall i, j :: 0 <= i < j < |s| ==> s[i] != s[j]
  }

  /** No token is a base of a token placed before it, so every ancestor comes
      before its descendants. */
  ghost predicate BasesFirst<T>(s: seq<T>, isBaseOf: (T, T) -> bool)
  {
    forall i, j :: 0 <= i < j < |s| ==> !isBaseOf(s[j], s[i])
  }

  /** The trait `base_of_T<U>` = `is_base_of<U, TYPE>`. */
  function BaseOf<T>(isBaseOf: (T, T) -> bool, target: T): T -> bool
  {
    u => isBaseOf(u, target)
  }

  /** The trait `not_most_ancient_t<TYPE>` = `!is_same<most_ancient, TYPE>`. */
  function NotSame<T(==)>(m: T): T -> bool
  {
    u => u != m
  }

  /** `details::get_ancestors<SRCLIST, DESTLIST>`: pick the most ancient token
      of `src` with `get_the_best` under `is_base_of`, append it to `dest`,
      drop every copy of it from `src`, and go on until `src` is empty. Each
      round removes at least the chosen token, so `src` shrinks. */
  function Linearize<T(==)>(src: seq<T>, dest: seq<T>, isBaseOf: (T, T) -> bool): seq<T>
    decreases |src|
  {
    if |src| == 0 then dest
    else
      var mostAncient := GetTheBest(src, isBaseOf);
      var allButMostAncient := GetFiltered(src, NotSame(mostAncient));
      GetFilteredShrinks(src, NotSame(mostAncient), mostAncient);
      Linearize(allButMostAncient, PushBack(mostAncient, dest), isBaseOf)
  }

  /** The accumulator is kept, in order, as a prefix of the result. */
  lemma {:induction false} LinearizeExtends<T>(src: seq<T>, dest: seq<T>, isBaseOf: (T, T) -> bool)
    ensures |Linearize(src, dest, isBaseOf)| >= |dest|
    ensures Linearize(src, dest, isBaseOf)[..|dest|] == dest
    decreases |src|
  {
    if |src| > 0 {
      var mostAncient := GetTheBest(src, isBaseOf);
      var allButMostAncient := GetFiltered(src, NotSame(mostAncient));
      GetFilteredShrinks(src, NotSame(mostAncient), mostAncient);
      var dest' := PushBack(mostAncient, dest);
      LinearizeExtends(allButMostAncient, dest', isBaseOf);
      assert dest'[..|dest|] == dest;
    }
  }

  /** The result holds exactly the tokens of the accumulator and of `src`. */
  lemma {:induction false} LinearizeMembers<T>(src: seq<T>, dest: seq<T>, isBaseOf: (T, T) -> bool)
    ensures forall x :: x in Linearize(src, dest, isBaseOf) ==> x in dest || x in src
    ensures forall x :: x in dest || x in src ==> x in Linearize(src, dest, isBaseOf)
    decreases |src|
  {
    if |src| > 0 {
      var mostAncient := GetTheBest(src, isBaseOf);
      var allButMostAncient := GetFiltered(src, NotSame(mostAncient));
      GetFilteredMembers(src, NotSame(mostAncient));
      GetFilteredShrinks(src, NotSame(mostAncient), mostAncient);
      LinearizeMembers(allButMostAncient, PushBack(mostAncient, dest), isBaseOf);
    }
  }

  /** One round of `details::get_ancestors`, with its chosen token and the
      remaining list spelled out. */
  lemma LinearizeRound<T>(src: seq<T>, dest: seq<T>, isBaseOf: (T, T) -> bool, mostAncient: T, rest: seq<T>)
    requires |src| > 0
    requires GetTheBest(src, isBaseOf) == mostAncient
    requires GetFiltered(src, NotSame(mostAncient)) == rest
    ensures Linearize(src, dest, isBaseOf) == Linearize(rest, dest + [mostAncient], isBaseOf)
  {
  }

  /** `get_ancestors<TYPE, TYPELIST>`: filter the list down to the bases of
      `target` and linearize them into an empty accumulator. Every base of
      `target` present in `l` appears exactly once, and nothing else does. */
  function GetAncestors<T(==)>(target: T, l: seq<T>, isBaseOf: (T, T) -> bool): (r: seq<T>)
    ensures forall x :: x in r ==> x in l && isBaseOf(x, target)
    ensures forall x :: x in l && isBaseOf(x, target) ==> x in r
    ensures NoDuplicates(r)
  {
    var bases := GetFiltered(l, BaseOf(isBaseOf, target));
    GetFilteredMembers(l, BaseOf(isBaseOf, target));
    LinearizeMembers(bases, [], isBaseOf);
    LinearizeNoDuplicates(bases, [], isBaseOf);
    Linearize(bases, [], isBaseOf)
  }

  /** The accumulator never receives a token twice: the chosen token is
      removed, every copy of it, before the next round. */
  lemma {:induction false} LinearizeNoDuplicates<T>(src: seq<T>, dest: seq<T>, isBaseOf: (T, T) -> bool)
    requires NoDuplicates(dest)
    requires forall x :: x in dest ==> x !in src
    ensures NoDuplicates(Linearize(src, dest, isBaseOf))
    decreases |src|
  {
    if |src| > 0 {
      var mostAncient := GetTheBest(src, isBaseOf);
      var allButMostAncient := GetFiltered(src, NotSame(mostAncient));
      var dest' := PushBack(mostAncient, dest);
      GetFilteredMembers(src, NotSame(mostAncient));
      GetFilteredShrinks(src, NotSame(mostAncient), mostAncient);
      assert forall x :: x in dest' ==> x in dest || x == mostAncient;
      assert NoDuplicates(dest') by {
        forall i, j | 0 <= i < j < |dest'|
          ensures dest'[i] != dest'[j]
        {
          if j == |dest| {
            assert dest'[i] in dest;
          } else {
            assert dest'[i] == dest[i] && dest'[j] == dest[j];
          }
        }
      }
      LinearizeNoDuplicates(allButMostAncient, dest', isBaseOf);
    }
  }

  /** Linearizing keeps the accumulator's order and places no token after one
      of its descendants, provided the relation is a partial order on `src`
      and no remaining token is a base of one already placed. */
  lemma {:induction false} LinearizeBasesFirst<T>(src: seq<T>, dest: seq<T>, isBaseOf: (T, T) -> bool)
    requires PartialOrderOn(isBaseOf, src)
    requires BasesFirst(dest, isBaseOf)
    requires forall x, y :: x in dest && y in src ==> !isBaseOf(y, x)
    ensures BasesFirst(Linearize(src, dest, isBaseOf), isBaseOf)
    decreases |src|
  {
    if |src| > 0 {
      var mostAncient := GetTheBest(src, isBaseOf);
      var allButMostAncient := GetFiltered(src, NotSame(mostAncient));
      var dest' := PushBack(mostAncient, dest);
      GetTheBestIsMinimal(src, isBaseOf);
      GetFilteredMembers(src, NotSame(mostAncient));
      GetFilteredShrinks(src, NotSame(mostAncient), mostAncient);
      PartialOrderOnSubset(isBaseOf, src, allButMostAncient);
      assert forall x :: x in dest' ==> x in dest || x == mostAncient;
      LinearizeBasesFirst(allButMostAncient, dest', isBaseOf);
    }
  }

  /** `get_ancestors` lists every ancestor before its descendants when
      `is_base_of` is a partial order on the list, as C++ inheritance is. */
  lemma GetAncestorsBasesFirst<T>(target: T, l: seq<T>, isBaseOf: (T, T) -> bool)
    requires PartialOrderOn(isBaseOf, l)
    ensures BasesFirst(GetAncestors(target, l, isBaseOf), isBaseOf)
  {
    var bases := GetFiltered(l, BaseOf(isBaseOf, target));
    GetFilteredMembers(l, BaseOf(isBaseOf, target));
    PartialOrderOnSubset(isBaseOf, l, bases);
    LinearizeBasesFirst(bases, [], isBaseOf);
  }

  /** In a list without duplicates, a token occurs once if present and not at
      all otherwise. */
  lemma {:induction false} NoDuplicatesCount<T>(s: seq<T>, x: T)
    requires NoDuplicates(s)
    ensures multiset(s)[x] == if x in s then 1 else 0
  {
    if |s| > 0 {
      var tail := s[1..];
      assert s == [s[0]] + tail;
      assert NoDuplicates(tail) by {
        forall i, j | 0 <= i < j < |tail|
          ensures tail[i] != tail[j]
        {
          assert tail[i] == s[i + 1] && tail[j] == s[j + 1];
        }
      }
      forall k | 0 <= k < |tail|
        ensures tail[k] != s[0]
      {
        assert tail[k] == s[k + 1];
      }
      NoDuplicatesCount(tail, x);
    }
  }

  /** Two lists without duplicates that hold the same tokens are
      permutations of each other. */
  lemma NoDuplicatesSameMembers<T>(s1: seq<T>, s2: seq<T>)
    requires NoDuplicates(s1) && NoDuplicates(s2)
    requires forall x :: x in s1 <==> x in s2
    ensures multiset(s1) == multiset(s2)
  {
    forall x
      ensures multiset(s1)[x] == multiset(s2)[x]
    {
      NoDuplicatesCount(s1, x);
      NoDuplicatesCount(s2, x);
    }
  }

  /** The chain's tokens do not depend on the order of the list or on repeats
      in it: two lists holding the same tokens give chains that are
      permutations of each other. Only the order of unrelated bases can
      differ. */
  lemma GetAncestorsOrderFree<T>(target: T, l1: seq<T>, l2: seq<T>, isBaseOf: (T, T) -> bool)
    requires forall x :: x in l1 <==> x in l2
    ensures multiset(GetAncestors(target, l1, isBaseOf)) == multiset(GetAncestors(target, l2, isBaseOf))
  {
    var r1 := GetAncestors(target, l1, isBaseOf);
    var r2 := GetAncestors(target, l2, isBaseOf);
    assert forall x :: x in r1 ==> x in r2;
    assert forall x :: x in r2 ==> x in r1;
    NoDuplicatesSameMembers(r1, r2);
  }

  /** With a reflexive `is_base_of`, a listed `target` is its own base, and
      being a descendant of every other entry it closes the chain. */
  lemma GetAncestorsEndsWithTarget<T>(target: T, l: seq<T>, isBaseOf: (T, T) -> bool)
    requires target in l && isBaseOf(target, target)
    requires PartialOrderOn(isBaseOf, l)
    ensures |GetAncestors(target, l, isBaseOf)| > 0
    ensures GetAncestors(target, l, isBaseOf)[|GetAncestors(target, l, isBaseOf)| - 1] == target
  {
    var r := GetAncestors(target, l, isBaseOf);
    GetAncestorsBasesFirst(target, l, isBaseOf);
    var k :| 0 <= k < |r| && r[k] == target;
    assert r[|r| - 1] in r;
  }
}
