/** The type-list algebra of include/mpml.h.
    A `typelist<TS...>` is modelled as a `seq<T>` over an opaque token type
    that only has equality; each template specialization becomes one branch
    of a function on sequences. */
module TypeList {

  /** The two compile-time diagnostics of `at`. */
  datatype AccessError = EmptyTypelistAccess | OutOfBoundsAccess

  /** Either the element `at` names, or the diagnostic it raises. */
  datatype Access<T> = Found(value: T) | Rejected(error: AccessError)

  /** The model takes `size_t` to be 64 bits wide. Only `back` depends on
      it, and on the empty list `back` raises "Out of bounds access" at any
      width. */
  const SizeModulus: nat := 0x1_0000_0000_0000_0000

  /** `TYPELIST::size - 1` evaluated in `size_t`: 0 wraps to the largest value. */
  function SizeMinusOne(n: nat): (r: nat)
    requires n < SizeModulus
    ensures r < SizeModulus
    ensures n > 0 ==> r + 1 == n
    ensures n == 0 ==> r == SizeModulus - 1
  {
    (n + SizeModulus - 1) % SizeModulus
  }

  /** `push_back<TYPE, typelist<TS...>>`: the new token goes last. */
  function PushBack<T>(t: T, l: seq<T>): (r: seq<T>)
    ensures |r| == |l| + 1
    ensures r[..|l|] == l && r[|l|] == t
  {
    l + [t]
  }

  /** `push_front<TYPE, typelist<TS...>>`: the new token goes first. */
  function PushFront<T>(t: T, l: seq<T>): (r: seq<T>)
    ensures |r| == |l| + 1
    ensures r[0] == t && r[1..] == l
  {
    [t] + l
  }

  /** `pop_front<typelist<TYPE, TS...>>`; the empty list has no specialization,
      so naming `pop_front_t<typelist<>>` does not compile. */
  function PopFront<T>(l: seq<T>): (r: seq<T>)
    requires |l| > 0
    ensures |r| == |l| - 1
    ensures PushFront(l[0], r) == l
  {
    l[1..]
  }

  /** `pop_front` undoes `push_front`. */
  lemma PopFrontPushFront<T>(t: T, l: seq<T>)
    ensures PopFront(PushFront(t, l)) == l
  {
  }

  /** `at<IDX, TYPELIST>`, one branch per specialization: index 0 of the empty
      list asserts "Empty typelist access", any other index past the end
      asserts "Out of bounds access", and a non-zero index recurses on the tail. */
  function At<T>(i: nat, l: seq<T>): (r: Access<T>)
    ensures r.Found? <==> i < |l|
    ensures r.Found? ==> r.value == l[i]
    ensures r.Rejected? && |l| == 0 && i == 0 ==> r.error == EmptyTypelistAccess
    ensures r.Rejected? && (|l| > 0 || i > 0) ==> r.error == OutOfBoundsAccess
  {
    if |l| == 0 then
      if i == 0 then Rejected(EmptyTypelistAccess) else Rejected(OutOfBoundsAccess)
    else if i >= |l| then Rejected(OutOfBoundsAccess)
    else if i == 0 then Found(l[0])
    else At(i - 1, l[1..])
  }

  /** `front_t`: `at<0, TYPELIST>`. */
  function Front<T>(l: seq<T>): (r: Access<T>)
    ensures r.Found? <==> |l| > 0
    ensures r.Found? ==> r.value == l[0]
    ensures r.Rejected? ==> r.error == EmptyTypelistAccess
  {
    At(0, l)
  }

  /** `back_t`: `at<TYPELIST::size - 1, TYPELIST>`; on the empty list the
      index wraps, so the diagnostic is "Out of bounds access". */
  function Back<T>(l: seq<T>): (r: Access<T>)
    requires |l| < SizeModulus
    ensures r.Found? <==> |l| > 0
    ensures r.Found? ==> r.value == l[|l| - 1]
    ensures r.Rejected? ==> r.error == OutOfBoundsAccess
  {
    At(SizeMinusOne(|l|), l)
  }

  /** `concat<typelist<ARGS1...>, typelist<ARGS2...>>`. */
  function Concat<T>(l1: seq<T>, l2: seq<T>): (r: seq<T>)
    ensures |r| == |l1| + |l2|
    ensures r[..|l1|] == l1 && r[|l1|..] == l2
  {
    l1 + l2
  }

  /** `invert`: the inverted tail followed by the head. */
  function Invert<T>(l: seq<T>): (r: seq<T>)
    ensures |r| == |l|
  {
    if |l| == 0 then [] else Concat(Invert(l[1..]), [l[0]])
  }

  /** Position k of the inverted list holds the element mirrored from the end. */
  lemma {:induction false} InvertAt<T>(l: seq<T>, k: nat)
    requires k < |l|
    ensures Invert(l)[k] == l[|l| - 1 - k]
  {
    if k < |l| - 1 {
      InvertAt(l[1..], k);
    }
  }

  /** Inverting twice gives the list back. */
  lemma {:induction false} InvertInvolution<T>(l: seq<T>)
    ensures Invert(Invert(l)) == l
  {
    var r := Invert(l);
    forall k | 0 <= k < |l|
      ensures Invert(r)[k] == l[k]
    {
      InvertAt(r, k);
      InvertAt(l, |l| - 1 - k);
    }
  }

  /** `index_of_first<TYPE, TYPELIST, N>`: `N` is carried unchanged down the
      recursion, the empty list yields `-(N + 1)` and every skipped token adds 1. */
  function IndexOfFirstFrom<T(==)>(t: T, l: seq<T>, n: int): (r: int)
    ensures t !in l ==> r == |l| - (n + 1)
    ensures t in l ==> 0 <= r < |l| && l[r] == t && t !in l[..r]
  {
    if |l| == 0 then -(n + 1)
    else if l[0] == t then 0
    else
      assert l[1..] == l[1..][..|l| - 1];
      var r' := IndexOfFirstFrom(t, l[1..], n);
      assert t in l[1..] ==> l[..r' + 1] == [l[0]] + l[1..][..r'];
      1 + r'
  }

  /** `index_of_first<TYPE, TYPELIST>` with its default `N = TYPELIST::size`:
      the first position holding `t`, or -1. */
  function IndexOfFirst<T(==)>(t: T, l: seq<T>): (r: int)
    ensures r == -1 <==> t !in l
    ensures r != -1 ==> 0 <= r < |l| && l[r] == t
    ensures forall j :: 0 <= j < r ==> l[j] != t
  {
    var r := IndexOfFirstFrom(t, l, |l|);
    assert t in l ==> forall j :: 0 <= j < r ==> l[..r][j] == l[j];
    r
  }

  /** `details::contains`: true when some token of `l` is the same as `t`. */
  function Contains<T(==)>(t: T, l: seq<T>): (r: bool)
    ensures r <==> t in l
  {
    if |l| == 0 then false
    else if l[0] == t then true
    else
      assert l == [l[0]] + l[1..];
      Contains(t, l[1..])
  }

  /** `a` can be obtained from `b` by deleting tokens. */
  ghost predicate IsSubsequence<T>(a: seq<T>, b: seq<T>)
    decreases |b|
  {
    if |a| == 0 then true
    else if |b| == 0 then false
    else (a[0] == b[0] && IsSubsequence(a[1..], b[1..])) || IsSubsequence(a, b[1..])
  }

  /** `get_filtered<TYPELIST, TRAIT>`: the tokens for which the trait holds,
      in their original order and with their multiplicities. */
  function GetFiltered<T>(l: seq<T>, p: T -> bool): (r: seq<T>)
    ensures |r| <= |l|
  {
    if |l| == 0 then []
    else if p(l[0]) then [l[0]] + GetFiltered(l[1..], p)
    else GetFiltered(l[1..], p)
  }

  /** A token survives the filter exactly when it is in the list and the trait
      holds for it. */
  lemma {:induction false} GetFilteredMembers<T>(l: seq<T>, p: T -> bool)
    ensures forall x :: x in GetFiltered(l, p) ==> x in l && p(x)
    ensures forall x :: x in l && p(x) ==> x in GetFiltered(l, p)
  {
    if |l| > 0 {
      GetFilteredMembers(l[1..], p);
      assert l == [l[0]] + l[1..];
    }
  }

  /** Filtering out a token that is present makes the list strictly shorter. */
  lemma {:induction false} GetFilteredShrinks<T>(l: seq<T>, p: T -> bool, x: T)
    requires x in l && !p(x)
    ensures |GetFiltered(l, p)| < |l|
  {
    if l[0] != x {
      GetFilteredShrinks(l[1..], p, x);
    }
  }

  /** Filtering distributes over concatenation. */
  lemma {:induction false} GetFilteredConcat<T>(a: seq<T>, b: seq<T>, p: T -> bool)
    ensures GetFiltered(a + b, p) == GetFiltered(a, p) + GetFiltered(b, p)
  {
    if |a| == 0 {
      assert a + b == b;
    } else {
      assert (a + b)[0] == a[0];
      assert (a + b)[1..] == a[1..] + b;
      GetFilteredConcat(a[1..], b, p);
    }
  }

  /** A list none of whose tokens satisfies the trait filters to nothing. */
  lemma {:induction false} GetFilteredNone<T>(l: seq<T>, p: T -> bool)
    requires forall x :: x in l ==> !p(x)
    ensures GetFiltered(l, p) == []
  {
    if |l| > 0 {
      assert l[0] in l;
      GetFilteredNone(l[1..], p);
    }
  }

  /** A list all of whose tokens satisfy the trait filters to itself. */
  lemma {:induction false} GetFilteredAll<T>(l: seq<T>, p: T -> bool)
    requires forall x :: x in l ==> p(x)
    ensures GetFiltered(l, p) == l
  {
    if |l| > 0 {
      assert l[0] in l;
      GetFilteredAll(l[1..], p);
      assert l == [l[0]] + l[1..];
    }
  }

  /** `get_filtered` keeps every copy of a token satisfying the trait and
      none of the others. */
  lemma {:induction false} GetFilteredCount<T>(l: seq<T>, p: T -> bool, x: T)
    ensures multiset(GetFiltered(l, p))[x] == if p(x) then multiset(l)[x] else 0
  {
    if |l| > 0 {
      GetFilteredCount(l[1..], p, x);
      assert l == [l[0]] + l[1..];
    }
  }

  /** `get_filtered` only deletes tokens. */
  lemma {:induction false} GetFilteredIsSubsequence<T>(l: seq<T>, p: T -> bool)
    ensures IsSubsequence(GetFiltered(l, p), l)
  {
    if |l| > 0 {
      GetFilteredIsSubsequence(l[1..], p);
      var rest := GetFiltered(l[1..], p);
      if p(l[0]) {
        assert ([l[0]] + rest)[1..] == rest;
      }
    }
  }

  /** A subsequence never outgrows the sequence it comes from. */
  lemma {:induction false} SubsequenceLength<T>(a: seq<T>, b: seq<T>)
    requires IsSubsequence(a, b)
    ensures |a| <= |b|
    ensures |a| == |b| ==> a == b
    decreases |b|
  {
    if |a| > 0 {
      if a[0] == b[0] && IsSubsequence(a[1..], b[1..]) {
        SubsequenceLength(a[1..], b[1..]);
        if |a| == |b| {
          assert a == [a[0]] + a[1..] && b == [b[0]] + b[1..];
        }
      } else {
        SubsequenceLength(a, b[1..]);
      }
    }
  }

  /** A subsequence of `l` made only of tokens satisfying `p` is a
      subsequence of `GetFiltered(l, p)`. */
  lemma {:induction false} SubsequenceOfFiltered<T>(a: seq<T>, l: seq<T>, p: T -> bool)
    requires IsSubsequence(a, l)
    requires forall x :: x in a ==> p(x)
    ensures IsSubsequence(a, GetFiltered(l, p))
    decreases |l|
  {
    if |a| > 0 {
      var rest := GetFiltered(l[1..], p);
      if a[0] == l[0] && IsSubsequence(a[1..], l[1..]) {
        assert a[0] in a;
        SubsequenceOfFiltered(a[1..], l[1..], p);
        assert GetFiltered(l, p) == [l[0]] + rest;
      } else {
        SubsequenceOfFiltered(a, l[1..], p);
        if p(l[0]) {
          assert GetFiltered(l, p)[1..] == rest;
        }
      }
    }
  }

  /** `GetFiltered` is the longest subsequence of `l` whose tokens all satisfy
      `p`: any other such subsequence at least as long is equal to it. */
  lemma GetFilteredIsLongest<T>(a: seq<T>, l: seq<T>, p: T -> bool)
    requires IsSubsequence(a, l)
    requires forall x :: x in a ==> p(x)
    ensures |a| <= |GetFiltered(l, p)|
    ensures |a| == |GetFiltered(l, p)| ==> a == GetFiltered(l, p)
  {
    SubsequenceOfFiltered(a, l, p);
    SubsequenceLength(a, GetFiltered(l, p));
  }

  /** `get_the_best<TYPELIST, CMP>`: a right-to-left fold that keeps the head
      when `CMP<head, best(tail)>` holds and `best(tail)` otherwise. The empty
      list trips the `at<0, typelist<>>` assertion. */
  function GetTheBest<T>(l: seq<T>, cmp: (T, T) -> bool): (r: T)
    requires |l| > 0
    ensures r in l
  {
    if |l| == 1 then l[0]
    else
      var best := GetTheBest(PopFront(l), cmp);
      if cmp(l[0], best) then l[0] else best
  }

  /** `rel` is transitive and antisymmetric on the tokens of `l`. */
  ghost predicate PartialOrderOn<T>(rel: (T, T) -> bool, l: seq<T>)
  {
    && (forall x, y, z :: x in l && y in l && z in l && rel(x, y) && rel(y, z) ==> rel(x, z))
    && (forall x, y :: x in l && y in l && rel(x, y) && rel(y, x) ==> x == y)
  }

  lemma PartialOrderOnSubset<T>(rel: (T, T) -> bool, l: seq<T>, l': seq<T>)
    requires PartialOrderOn(rel, l)
    requires forall x :: x in l' ==> x in l
    ensures PartialOrderOn(rel, l')
  {
  }

  /** Under a partial order the fold returns a minimal token: nothing else in
      the list is related to it from below. */
  lemma {:induction false} GetTheBestIsMinimal<T>(l: seq<T>, cmp: (T, T) -> bool)
    requires |l| > 0
    requires PartialOrderOn(cmp, l)
    ensures forall y :: y in l && cmp(y, GetTheBest(l, cmp)) ==> y == GetTheBest(l, cmp)
  {
    if |l| > 1 {
      var tail := l[1..];
      PartialOrderOnSubset(cmp, l, tail);
      GetTheBestIsMinimal(tail, cmp);
      assert l == [l[0]] + tail;
    }
  }
}
