/**
 * The token multiset every similarity score is built on
 * (refDiffTS/packages/refdiffts-core/src/Diff/Multiset.ts).
 *
 * A multiset is its `values` map from key to count. A key that was never
 * added is absent and counts 0; `Sub` may store keys whose count is 0.
 */
module Multisets {

  type Counts<T> = map<T, nat>

  /** `get`: the count of `key`, 0 when the key is absent. */
  function Count<T(!new)>(m: Counts<T>, key: T): nat
  {
    if key in m then m[key] else 0
  }

  function MaxNat(x: nat, y: nat): nat
  {
    if x < y then y else x
  }

  /** `add`: one more occurrence of `key`. */
  function AddOne<T(!new)>(m: Counts<T>, key: T): (r: Counts<T>)
    ensures Count(r, key) == Count(m, key) + 1
    ensures forall k :: k != key ==> Count(r, k) == Count(m, k)
    ensures r.Keys == m.Keys + {key}
  {
    m[key := Count(m, key) + 1]
  }

  /** Static `max`: a fresh multiset with the larger count of each key. */
  function Max<T(!new)>(a: Counts<T>, b: Counts<T>): (r: Counts<T>)
    ensures r.Keys == a.Keys + b.Keys
    ensures forall k :: Count(r, k) == MaxNat(Count(a, k), Count(b, k))
  {
    map k | k in a.Keys + b.Keys :: MaxNat(Count(a, k), Count(b, k))
  }

  /** `sub`: a fresh multiset over the receiver's keys with counts truncated at 0. */
  function Sub<T(!new)>(a: Counts<T>, b: Counts<T>): (r: Counts<T>)
    ensures r.Keys == a.Keys
    ensures forall k :: Count(r, k) == if Count(a, k) < Count(b, k) then 0 else Count(a, k) - Count(b, k)
    ensures forall k :: Count(r, k) <= Count(a, k)
  {
    map k | k in a :: if a[k] < Count(b, k) then 0 else a[k] - Count(b, k)
  }

  /** `removeKeys`: a fresh multiset without the given keys. */
  function RemoveKeys<T(!new)>(a: Counts<T>, keys: set<T>): (r: Counts<T>)
    ensures r.Keys == a.Keys - keys
    ensures forall k :: Count(r, k) == if k in keys then 0 else Count(a, k)
  {
    map k | k in a && k !in keys :: a[k]
  }

  /** The multiset obtained by adding the elements of `s` one by one, in order. */
  function Tally<T(!new)>(s: seq<T>): (r: Counts<T>)
  {
    if s == [] then map[] else AddOne(Tally(s[..|s| - 1]), s[|s| - 1])
  }

  /** Adding one more element to the sequence adds it to the multiset. */
  lemma TallySnoc<T(!new)>(s: seq<T>, y: T)
    ensures Tally(s + [y]) == AddOne(Tally(s), y)
  {
    assert (s + [y])[..|s|] == s;
  }

  /** `max` is commutative. */
  lemma MaxCommutes<T(!new)>(a: Counts<T>, b: Counts<T>)
    ensures Max(a, b) == Max(b, a)
  {
  }

  /** `max(a, a)` is `a` itself. */
  lemma MaxIdempotent<T(!new)>(a: Counts<T>)
    ensures Max(a, a) == a
  {
  }

  /** A key absent from the receiver counts 0 after `sub`. */
  lemma SubOfAbsent<T(!new)>(a: Counts<T>, b: Counts<T>, k: T)
    requires k !in a
    ensures Count(Sub(a, b), k) == 0
  {
  }

  /** Adding the elements of `s` gives Dafny's own multiset of `s`. */
  lemma {:induction false} TallyIsMultiset<T(!new)>(s: seq<T>, x: T)
    ensures Count(Tally(s), x) == multiset(s)[x]
  {
    if s != [] {
      var init := s[..|s| - 1];
      TallyIsMultiset(init, x);
      assert s == init + [s[|s| - 1]];
    }
  }

  /** The mutable multiset of the source: `add` updates `values` in place. */
  class Multiset<T(==,!new)> {
    var values: Counts<T>

    /** A new multiset counts 0 for every key. */
    constructor()
      ensures values == map[]
    {
      values := map[];
    }

    function Get(key: T): nat
      reads this
    {
      Count(values, key)
    }

    /** Raises the count of `key` by one and leaves every other count alone. */
    method Add(key: T)
      modifies this
      ensures values == AddOne(old(values), key)
    {
      values := AddOne(values, key);
    }
  }
}
