/** Sequence facts shared by the model: distinctness, arena positions, and the
    orderings that stand for Go's unspecified map iteration order. */
module Seqs {

  /** No element occurs twice. */
  predicate Distinct<T(==)>(s: seq<T>) {
    forall i, j :: 0 <= i < j < |s| ==> s[i] != s[j]
  }

  /** Every element is a position in an arena of `n` slots. */
  predicate InRange(s: seq<nat>, n: nat) {
    forall i :: 0 <= i < |s| ==> s[i] < n
  }

  /** `order` lists each of the positions 0 .. n-1 exactly once. */
  predicate IsOrdering(order: seq<nat>, n: nat) {
    && InRange(order, n)
    && Distinct(order)
    && forall v :: 0 <= v < n ==> v in order
  }

  /** `order` lists each key of `m` exactly once: one run of `for k := range m`. */
  predicate IsKeyOrder<K(==), V>(order: seq<K>, m: map<K, V>) {
    && Distinct(order)
    && (forall i :: 0 <= i < |order| ==> order[i] in m)
    && forall k :: k in m ==> k in order
  }

  function Elems<T(==)>(s: seq<T>): set<T> {
    set x | x in s
  }

  /** The positions 0 .. n-1. */
  function Below(n: nat): (r: set<nat>)
    ensures forall v :: v in r <==> 0 <= v < n
  {
    if n == 0 then {} else Below(n - 1) + {n - 1}
  }

  lemma {:induction false} DistinctCard<T>(s: seq<T>)
    requires Distinct(s)
    ensures |Elems(s)| == |s|
  {
    if s != [] {
      var t := s[..|s| - 1];
      var last := s[|s| - 1];
      assert Distinct(t);
      DistinctCard(t);
      assert Elems(s) == Elems(t) + {last};
      assert last !in Elems(t);
    }
  }

  lemma {:induction false} BelowCard(n: nat)
    ensures |Below(n)| == n
  {
    if n > 0 {
      BelowCard(n - 1);
      assert Below(n) == Below(n - 1) + {n - 1};
    }
  }

  /** A sequence of distinct positions of an `n`-slot arena has at most `n` elements. */
  lemma DistinctBound(s: seq<nat>, n: nat)
    requires Distinct(s) && InRange(s, n)
    ensures |s| <= n
  {
    DistinctCard(s);
    BelowCard(n);
    SubsetCard(Elems(s), Below(n));
  }

  lemma SubsetCard<T>(a: set<T>, b: set<T>)
    requires a <= b
    ensures |a| <= |b|
  {
    assert b == a + (b - a);
  }

  /** A sequence of distinct positions that contains every position lists them all. */
  lemma CoveringLength(s: seq<nat>, n: nat)
    requires Distinct(s) && InRange(s, n)
    requires forall v :: 0 <= v < n ==> v in s
    ensures |s| == n
  {
    DistinctCard(s);
    BelowCard(n);
    assert Elems(s) == Below(n);
  }

  /** An ordering of a map's keys has as many elements as the map. */
  lemma KeyOrderLength<K, V>(order: seq<K>, m: map<K, V>)
    requires IsKeyOrder(order, m)
    ensures |order| == |m|
  {
    DistinctCard(order);
    assert Elems(order) == m.Keys;
  }
}
