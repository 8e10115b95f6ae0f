/**
  Python's `sorted(xs, key=…)`, which is stable: elements with equal keys keep
  their input order. `reverse=True` is stable too, so a descending sort is the
  ascending sort on negated keys. Keys are exact reals or strings (strings
  compare by code point, as Python compares `str`).

  The sort is given as an order of indices into the input, built by insertion;
  `Pick` applies such an order to the elements.
 */
module Sorting {

  /** A sort key: a number, or a string compared lexicographically. */
  datatype Key = Num(n: real) | Text(s: string)

  /** Python's `a < b` on `str`: by code point, a proper prefix before its extensions. */
  predicate LexLess(a: string, b: string)
    decreases |a|
  {
    if a == [] then b != []
    else if b == [] then false
    else if a[0] != b[0] then a[0] < b[0]
    else LexLess(a[1..], b[1..])
  }

  lemma {:induction false} LexIrreflexive(a: string)
    ensures !LexLess(a, a)
    decreases |a|
  {
    if a != [] {
      LexIrreflexive(a[1..]);
    }
  }

  lemma {:induction false} LexTotal(a: string, b: string)
    ensures LexLess(a, b) || a == b || LexLess(b, a)
    decreases |a|
  {
    if a != [] && b != [] && a[0] == b[0] {
      LexTotal(a[1..], b[1..]);
      if a[1..] == b[1..] {
        assert a == [a[0]] + a[1..] && b == [b[0]] + b[1..];
      }
    }
  }

  lemma {:induction false} LexTransitive(a: string, b: string, c: string)
    requires LexLess(a, b) && LexLess(b, c)
    ensures LexLess(a, c)
    decreases |a|
  {
    if a != [] && a[0] == b[0] && b[0] == c[0] {
      LexTransitive(a[1..], b[1..], c[1..]);
    }
  }

  /** The strict order on keys (numbers before strings; the sorts here never mix them). */
  predicate KeyLess(a: Key, b: Key)
  {
    match (a, b)
    case (Num(x), Num(y)) => x < y
    case (Text(x), Text(y)) => LexLess(x, y)
    case (Num(_), Text(_)) => true
    case (Text(_), Num(_)) => false
  }

  lemma KeyIrreflexive(a: Key)
    ensures !KeyLess(a, a)
  {
    if a.Text? {
      LexIrreflexive(a.s);
    }
  }

  lemma KeyTotal(a: Key, b: Key)
    ensures KeyLess(a, b) || a == b || KeyLess(b, a)
  {
    if a.Text? && b.Text? {
      LexTotal(a.s, b.s);
    }
  }

  lemma KeyTransitive(a: Key, b: Key, c: Key)
    requires KeyLess(a, b) && KeyLess(b, c)
    ensures KeyLess(a, c)
  {
    if a.Text? && b.Text? && c.Text? {
      LexTransitive(a.s, b.s, c.s);
    }
  }

  /** Every entry of `order` indexes `keys`. */
  predicate InRange(keys: seq<Key>, order: seq<nat>)
  {
    forall k :: 0 <= k < |order| ==> order[k] < |keys|
  }

  /** Position `i` comes before position `j` in a stable sort: a smaller key, or an equal key and an earlier position. */
  predicate Before(keys: seq<Key>, i: nat, j: nat)
    requires i < |keys| && j < |keys|
  {
    KeyLess(keys[i], keys[j]) || (keys[i] == keys[j] && i < j)
  }

  /** `order` lists positions in strictly increasing `Before` order (so no position twice). */
  ghost predicate Sorted(keys: seq<Key>, order: seq<nat>)
  {
    InRange(keys, order) && forall a, b :: 0 <= a < b < |order| ==> Before(keys, order[a], order[b])
  }

  lemma BeforeTransitive(keys: seq<Key>, i: nat, j: nat, k: nat)
    requires i < |keys| && j < |keys| && k < |keys|
    requires Before(keys, i, j) && Before(keys, j, k)
    ensures Before(keys, i, k)
  {
    if KeyLess(keys[i], keys[j]) && KeyLess(keys[j], keys[k]) {
      KeyTransitive(keys[i], keys[j], keys[k]);
    }
  }

  lemma BeforeTotal(keys: seq<Key>, i: nat, j: nat)
    requires i < |keys| && j < |keys| && i != j
    ensures Before(keys, i, j) || Before(keys, j, i)
  {
    KeyTotal(keys[i], keys[j]);
  }

  /** Inserts position `j` into a sorted order, before the first position it precedes. */
  function Insert(keys: seq<Key>, order: seq<nat>, j: nat): (r: seq<nat>)
    requires j < |keys| && InRange(keys, order)
    ensures |r| == |order| + 1 && InRange(keys, r)
    ensures forall x :: x in r <==> x in order || x == j
    decreases |order|
  {
    if order == [] then [j]
    else if Before(keys, j, order[0]) then [j] + order
    else [order[0]] + Insert(keys, order[1..], j)
  }

  lemma {:induction false} InsertSorted(keys: seq<Key>, order: seq<nat>, j: nat)
    requires j < |keys| && Sorted(keys, order) && j !in order
    ensures Sorted(keys, Insert(keys, order, j))
    decreases |order|
  {
    if order != [] {
      var r := Insert(keys, order, j);
      if Before(keys, j, order[0]) {
        forall b | 1 <= b < |r|
          ensures Before(keys, j, r[b])
        {
          if b > 1 {
            BeforeTransitive(keys, j, order[0], order[b - 1]);
          }
        }
      } else {
        BeforeTotal(keys, j, order[0]);
        InsertSorted(keys, order[1..], j);
        var t := Insert(keys, order[1..], j);
        assert r == [order[0]] + t;
        forall b | 0 <= b < |t|
          ensures Before(keys, order[0], t[b])
        {
          assert t[b] in order[1..] || t[b] == j;
          if t[b] != j {
            var c :| 0 <= c < |order[1..]| && order[1..][c] == t[b];
            assert order[c + 1] == t[b];
          }
        }
      }
    }
  }

  /** The stable ascending order of the first `n` positions. */
  function OrderPrefix(keys: seq<Key>, n: nat): (r: seq<nat>)
    requires n <= |keys|
    ensures |r| == n && InRange(keys, r)
    ensures forall x: int :: x in r <==> 0 <= x < n
  {
    if n == 0 then [] else Insert(keys, OrderPrefix(keys, n - 1), n - 1)
  }

  /** The order in which a stable sort on `keys` visits the input positions. */
  function StableOrder(keys: seq<Key>): (r: seq<nat>)
    ensures |r| == |keys| && InRange(keys, r)
    ensures forall x: int :: x in r <==> 0 <= x < |keys|
  {
    OrderPrefix(keys, |keys|)
  }

  lemma {:induction false} OrderPrefixSorted(keys: seq<Key>, n: nat)
    requires n <= |keys|
    ensures Sorted(keys, OrderPrefix(keys, n))
  {
    if n > 0 {
      OrderPrefixSorted(keys, n - 1);
      InsertSorted(keys, OrderPrefix(keys, n - 1), n - 1);
    }
  }

  /**
    The stable order is sorted by key, keeps input order among equal keys, and
    is a permutation of the positions.
   */
  lemma StableOrderSorted(keys: seq<Key>)
    ensures Sorted(keys, StableOrder(keys))
    ensures forall a, b :: 0 <= a < b < |keys| ==> !KeyLess(keys[StableOrder(keys)[b]], keys[StableOrder(keys)[a]])
    ensures forall a, b :: 0 <= a < b < |keys| && keys[StableOrder(keys)[a]] == keys[StableOrder(keys)[b]]
              ==> StableOrder(keys)[a] < StableOrder(keys)[b]
  {
    OrderPrefixSorted(keys, |keys|);
    var r := StableOrder(keys);
    forall a, b | 0 <= a < b < |keys|
      ensures !KeyLess(keys[r[b]], keys[r[a]])
    {
      assert Before(keys, r[a], r[b]);
      if KeyLess(keys[r[b]], keys[r[a]]) {
        if KeyLess(keys[r[a]], keys[r[b]]) {
          KeyTransitive(keys[r[a]], keys[r[b]], keys[r[a]]);
        }
        KeyIrreflexive(keys[r[a]]);
      }
    }
    forall a, b | 0 <= a < b < |keys| && keys[r[a]] == keys[r[b]]
      ensures r[a] < r[b]
    {
      assert Before(keys, r[a], r[b]);
      KeyIrreflexive(keys[r[a]]);
    }
  }

  /** A sorted order names every position at most once. */
  lemma SortedDistinct(keys: seq<Key>, order: seq<nat>)
    requires Sorted(keys, order)
    ensures forall a, b :: 0 <= a < b < |order| ==> order[a] != order[b]
  {
    forall a, b | 0 <= a < b < |order|
      ensures order[a] != order[b]
    {
      assert Before(keys, order[a], order[b]);
      KeyIrreflexive(keys[order[a]]);
    }
  }

  /** The elements of `xs` in the order `order` gives. */
  function Pick<T>(xs: seq<T>, order: seq<nat>): (r: seq<T>)
    requires forall k :: 0 <= k < |order| ==> order[k] < |xs|
    ensures |r| == |order|
    ensures forall k :: 0 <= k < |order| ==> r[k] == xs[order[k]]
  {
    seq(|order|, k requires 0 <= k < |order| => xs[order[k]])
  }

  /** `sorted(xs, key=…)` with the keys given position by position. */
  function SortBy<T>(xs: seq<T>, keys: seq<Key>): (r: seq<T>)
    requires |keys| == |xs|
    ensures |r| == |xs|
    ensures forall k :: 0 <= k < |r| ==> r[k] == xs[StableOrder(keys)[k]]
  {
    Pick(xs, StableOrder(keys))
  }

  lemma PickCons<T>(xs: seq<T>, a: nat, order: seq<nat>)
    requires a < |xs| && forall k :: 0 <= k < |order| ==> order[k] < |xs|
    ensures Pick(xs, [a] + order) == [xs[a]] + Pick(xs, order)
  {
  }

  lemma {:induction false} PickInsert<T>(xs: seq<T>, keys: seq<Key>, order: seq<nat>, j: nat)
    requires |keys| == |xs| && j < |keys| && InRange(keys, order)
    ensures multiset(Pick(xs, Insert(keys, order, j))) == multiset(Pick(xs, order)) + multiset{xs[j]}
    decreases |order|
  {
    if order == [] {
      assert Pick(xs, Insert(keys, order, j)) == [xs[j]];
    } else if Before(keys, j, order[0]) {
      PickCons(xs, j, order);
    } else {
      var rest := order[1..];
      PickInsert(xs, keys, rest, j);
      PickCons(xs, order[0], Insert(keys, rest, j));
      assert order == [order[0]] + rest;
      PickCons(xs, order[0], rest);
    }
  }

  lemma {:induction false} PickOrderPrefix<T>(xs: seq<T>, keys: seq<Key>, n: nat)
    requires |keys| == |xs| && n <= |xs|
    ensures multiset(Pick(xs, OrderPrefix(keys, n))) == multiset(xs[..n])
  {
    if n > 0 {
      var prev := OrderPrefix(keys, n - 1);
      PickOrderPrefix(xs, keys, n - 1);
      PickInsert(xs, keys, prev, n - 1);
      assert OrderPrefix(keys, n) == Insert(keys, prev, n - 1);
      assert xs[..n] == xs[..n - 1] + [xs[n - 1]];
      assert multiset(xs[..n]) == multiset(xs[..n - 1]) + multiset{xs[n - 1]};
    }
  }

  /** A stable sort is a permutation of its input. */
  lemma SortByPermutation<T>(xs: seq<T>, keys: seq<Key>)
    requires |keys| == |xs|
    ensures multiset(SortBy(xs, keys)) == multiset(xs)
  {
    PickOrderPrefix(xs, keys, |xs|);
    assert xs[..|xs|] == xs;
  }

  /** Sorting a list without repeats gives a list without repeats. */
  lemma SortByDistinct<T>(xs: seq<T>, keys: seq<Key>)
    requires |keys| == |xs|
    requires forall i, j :: 0 <= i < j < |xs| ==> xs[i] != xs[j]
    ensures forall i, j :: 0 <= i < j < |xs| ==> SortBy(xs, keys)[i] != SortBy(xs, keys)[j]
  {
    StableOrderSorted(keys);
    SortedDistinct(keys, StableOrder(keys));
  }

  /** Every element sorted is an input element and vice versa. */
  lemma SortByMembers<T>(xs: seq<T>, keys: seq<Key>)
    requires |keys| == |xs|
    ensures forall x :: x in SortBy(xs, keys) <==> x in xs
  {
    SortByPermutation(xs, keys);
    forall x
      ensures x in SortBy(xs, keys) <==> x in xs
    {
      assert x in SortBy(xs, keys) <==> x in multiset(SortBy(xs, keys));
    }
  }

  /** Numeric keys for an ascending sort. */
  function Ascending(ks: seq<real>): (r: seq<Key>)
    ensures |r| == |ks| && forall i :: 0 <= i < |ks| ==> r[i] == Num(ks[i])
  {
    seq(|ks|, i requires 0 <= i < |ks| => Num(ks[i]))
  }

  /** Numeric keys for a descending (`reverse=True`) sort: negation keeps ties in input order. */
  function Descending(ks: seq<real>): (r: seq<Key>)
    ensures |r| == |ks| && forall i :: 0 <= i < |ks| ==> r[i] == Num(-ks[i])
  {
    seq(|ks|, i requires 0 <= i < |ks| => Num(-ks[i]))
  }

  /** String keys for `sorted(…, key=lambda x: x.id)`. */
  function ByText(ks: seq<string>): (r: seq<Key>)
    ensures |r| == |ks| && forall i :: 0 <= i < |ks| ==> r[i] == Text(ks[i])
  {
    seq(|ks|, i requires 0 <= i < |ks| => Text(ks[i]))
  }

  /** The values of a list of (key, number) pairs, the usual sort key. */
  function Values(d: seq<(string, real)>): (r: seq<real>)
    ensures |r| == |d| && forall i :: 0 <= i < |d| ==> r[i] == d[i].1
  {
    seq(|d|, i requires 0 <= i < |d| => d[i].1)
  }
}
