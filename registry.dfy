/** The point-indexed registry behind `MPML_DECLARE`, `MPML_ADD`,
    `MPML_CONTAINS` and `MPML_TYPES` in include/mpml.h. Each macro use takes a
    fresh value of the compiler's `__COUNTER__`; here that value is an explicit
    natural number, the point. The specializations of `_name##_mpml_history`
    form a sparse map from point to list, and `_name##_mpml_read` resolves a
    point by walking back to the nearest defined entry. */
module TypeRegistry {
  import opened TypeList

  /** `_name##_mpml_read<p>`: the entry at `p` when there is one; otherwise the
      read of `p - 1` while `p` is above the declared point, and the empty list
      once it is not. */
  function ReadAt<T>(history: map<nat, seq<T>>, declared: nat, p: nat): seq<T>
    decreases p
  {
    if p in history then history[p]
    else if p > declared then ReadAt(history, declared, p - 1)
    else []
  }

  /** The history as the macros build it: the declared point holds the empty
      list, no entry lies below it or above `top`, and every later entry is the
      read just before it with one token pushed at the back. */
  ghost predicate WellFormed<T>(history: map<nat, seq<T>>, declared: nat, top: nat)
  {
    && declared in history && history[declared] == []
    && top in history && declared <= top
    && (forall k :: k in history ==> declared <= k <= top)
    && (forall k {:trigger EntryExtendsRead(history, declared, k)} ::
          k in history && k != declared ==> EntryExtendsRead(history, declared, k))
  }

  /** The entry at `k` is the read at `k - 1` with one token pushed at the back. */
  ghost predicate EntryExtendsRead<T>(history: map<nat, seq<T>>, declared: nat, k: nat)
    requires k in history && k > 0
  {
    |history[k]| > 0 && history[k][..|history[k]| - 1] == ReadAt(history, declared, k - 1)
  }

  /** A read at a point without an entry resolves to the nearest earlier entry. */
  lemma {:induction false} ReadAtNearest<T>(history: map<nat, seq<T>>, declared: nat, q: nat, p: nat)
    requires q in history && declared <= q <= p
    requires forall k :: q < k <= p ==> k !in history
    ensures ReadAt(history, declared, p) == history[q]
    decreases p
  {
    if p > q {
      ReadAtNearest(history, declared, q, p - 1);
    }
  }

  /** A read below every entry resolves to the empty list. */
  lemma {:induction false} ReadAtBelowEntries<T>(history: map<nat, seq<T>>, declared: nat, p: nat)
    requires forall k :: k <= p ==> k !in history
    ensures ReadAt(history, declared, p) == []
    decreases p
  {
    if p > declared {
      ReadAtBelowEntries(history, declared, p - 1);
    }
  }

  /** An entry at `p` does not change any read at an earlier point. */
  lemma {:induction false} ReadAtUnaffected<T>(history: map<nat, seq<T>>, declared: nat, p: nat, v: seq<T>, q: nat)
    requires q < p
    ensures ReadAt(history[p := v], declared, q) == ReadAt(history, declared, q)
    decreases q
  {
    if q !in history && q > declared {
      ReadAtUnaffected(history, declared, p, v, q - 1);
    }
  }

  /** Reads only grow: the list at an earlier point is a prefix of the list at
      a later one. */
  lemma {:induction false} ReadAtPrefix<T>(history: map<nat, seq<T>>, declared: nat, top: nat, p1: nat, p2: nat)
    requires WellFormed(history, declared, top)
    requires p1 <= p2
    ensures ReadAt(history, declared, p1) <= ReadAt(history, declared, p2)
    decreases p2
  {
    if p1 < p2 {
      if p2 in history && p2 != declared {
        assert EntryExtendsRead(history, declared, p2);
        ReadAtPrefix(history, declared, top, p1, p2 - 1);
        var h := history[p2];
        assert h == h[..|h| - 1] + [h[|h| - 1]];
      } else if p2 !in history && p2 > declared {
        ReadAtPrefix(history, declared, top, p1, p2 - 1);
      } else {
        ReadAtBelowEntries(history, declared, p1);
      }
    }
  }

  /** One registry `_name`, from its `MPML_DECLARE` on. */
  class Registry<T(==)> {
    /** The counter value taken by `MPML_DECLARE`. */
    const declared: nat
    /** The most recent point holding an entry. */
    var top: nat
    /** The specializations of `_name##_mpml_history` defined so far. */
    var history: map<nat, seq<T>>

    ghost predicate Valid()
      reads this
    {
      WellFormed(history, declared, top)
    }

    /** `INTERNAL_MPML_DECLARE(_name, _idx)`: the history starts at `point`
        with the empty list. */
    constructor Declare(point: nat)
      ensures Valid()
      ensures declared == point && top == point
      ensures history == map[point := []]
    {
      declared := point;
      top := point;
      history := map[point := []];
    }

    /** `_name##_mpml_read<p>`: step back one point at a time until an entry
        is defined or the declared point is passed. */
    method Read(p: nat) returns (r: seq<T>)
      requires Valid()
      ensures r == ReadAt(history, declared, p)
    {
      var q: nat := p;
      while q !in history && q > declared
        invariant q <= p
        invariant ReadAt(history, declared, q) == ReadAt(history, declared, p)
        decreases q
      {
        q := q - 1;
      }
      if q in history {
        r := history[q];
      } else {
        r := [];
      }
    }

    /** `INTERNAL_MPML_ADD(_name, _type, _idx)`: define the entry at `p` as
        `push_back<t, read<p - 1>>`. Points come from `__COUNTER__`, so each one
        is above every point used before. */
    method Add(p: nat, t: T)
      requires Valid()
      requires p > top
      modifies this
      ensures Valid()
      ensures top == p
      ensures history == old(history)[p := PushBack(t, old(ReadAt(history, declared, p - 1)))]
      ensures history[p] == old(history[top]) + [t]
      ensures ReadAt(history, declared, p) == old(ReadAt(history, declared, p - 1)) + [t]
    {
      var previous := Read(p - 1);
      ReadAtNearest(history, declared, top, p - 1);
      ghost var before := history;
      history := history[p := PushBack(t, previous)];
      top := p;
      forall q: nat | q < p
        ensures ReadAt(history, declared, q) == ReadAt(before, declared, q)
      {
        ReadAtUnaffected(before, declared, p, PushBack(t, previous), q);
      }
      forall k | k in history && k != declared
        ensures EntryExtendsRead(history, declared, k)
      {
        if k < p {
          assert EntryExtendsRead(before, declared, k);
        }
      }
    }

    /** `MPML_TYPES(_name)`: the read at `__COUNTER__ - 1`. The macro names
        `_name##_mpml_read_t<P>`, which the header never declares; the model
        reads it as `typename _name##_mpml_read<P>::type`. The counter has
        moved past every point used so far, so the result is the most recent
        entry. */
    method Types(counter: nat) returns (r: seq<T>)
      requires Valid()
      requires counter > top
      ensures r == ReadAt(history, declared, counter - 1)
      ensures r == history[top]
    {
      r := Read(counter - 1);
      ReadAtNearest(history, declared, top, counter - 1);
    }

    /** `INTERNAL_MPML_CONTAINS(_name, _type)`: `contains` applied to
        `MPML_TYPES(_name)`. */
    method ContainsType(t: T, counter: nat) returns (b: bool)
      requires Valid()
      requires counter > top
      ensures b <==> t in history[top]
    {
      var types := Types(counter);
      b := Contains(t, types);
    }
  }
}
