/**
  Small value types shared by every script model: an optional value (Python's
  `None` or a missing key), the `defaultdict(int)` read used by the load
  ledgers, and Python's insertion-ordered `dict`, represented as a sequence of
  key/value pairs whose keys are distinct.
 */
module Common {

  datatype Option<T> = None | Some(value: T)

  /** `d.get(k, default)` once the lookup has been made: the value found, or the default. */
  function OrElse<T>(o: Option<T>, default: T): T
  {
    if o.Some? then o.value else default
  }

  /** `d.get(k, 0)`, and a read of a `defaultdict(int)`. */
  function Get(m: map<string, int>, k: string): int
  {
    if k in m then m[k] else 0
  }

  /** Adds one to `m[k]`, as `counter[k] += 1` does on a `defaultdict(int)`. */
  function Bump(m: map<string, int>, k: string): (r: map<string, int>)
    ensures Get(r, k) == Get(m, k) + 1
    ensures forall j :: j != k ==> Get(r, j) == Get(m, j)
    ensures r.Keys == m.Keys + {k}
  {
    m[k := Get(m, k) + 1]
  }

  /** Keys of an insertion-ordered dictionary, in insertion order. */
  function Keys<V>(d: seq<(string, V)>): (r: seq<string>)
    ensures |r| == |d|
    ensures forall i :: 0 <= i < |d| ==> r[i] == d[i].0
  {
    seq(|d|, i requires 0 <= i < |d| => d[i].0)
  }

  /** The keys of an ordered dictionary are distinct. */
  ghost predicate DistinctKeys<V>(d: seq<(string, V)>)
  {
    forall i, j :: 0 <= i < j < |d| ==> d[i].0 != d[j].0
  }

  ghost predicate Distinct<T>(s: seq<T>)
  {
    forall i, j :: 0 <= i < j < |s| ==> s[i] != s[j]
  }

  /** Position of key `k` in `d`, or `|d|` when it is absent. */
  function IndexOfKey<V>(d: seq<(string, V)>, k: string): (n: nat)
    ensures n <= |d|
    ensures n < |d| ==> d[n].0 == k
    ensures forall j :: 0 <= j < n ==> d[j].0 != k
    decreases |d|
  {
    if d == [] then 0
    else if d[0].0 == k then 0
    else IndexOfKey(d[1..], k) + 1
  }

  /** The search runs off the end exactly when the key is absent. */
  lemma IndexOfKeyKeys<V>(d: seq<(string, V)>, k: string)
    ensures IndexOfKey(d, k) == |d| <==> k !in Keys(d)
  {
    var n := IndexOfKey(d, k);
    if n < |d| {
      assert Keys(d)[n] == k;
    }
  }

  /** `d[k] = v` on an insertion-ordered dictionary: an existing key keeps its place, a new one goes last. */
  function Put<V>(d: seq<(string, V)>, k: string, v: V): (r: seq<(string, V)>)
    requires DistinctKeys(d)
    ensures DistinctKeys(r)
    ensures k !in Keys(d) ==> r == d + [(k, v)]
    ensures k in Keys(d) ==> |r| == |d| && forall i :: 0 <= i < |d| ==> r[i] == if d[i].0 == k then (k, v) else d[i]
  {
    var n := IndexOfKey(d, k);
    IndexOfKeyKeys(d, k);
    if n == |d| then d + [(k, v)] else d[n := (k, v)]
  }

  /** `d.get(k)` on an insertion-ordered dictionary. */
  function Lookup<V>(d: seq<(string, V)>, k: string): Option<V>
  {
    var n := IndexOfKey(d, k);
    if n == |d| then None else Some(d[n].1)
  }

  /** A lookup fails exactly on a missing key, and what it finds is an entry under that key. */
  lemma LookupKeys<V>(d: seq<(string, V)>, k: string)
    ensures Lookup(d, k).None? <==> k !in Keys(d)
    ensures Lookup(d, k).Some? ==> exists i :: 0 <= i < |d| && d[i] == (k, Lookup(d, k).value)
  {
    IndexOfKeyKeys(d, k);
  }

  /** Every entry of an ordered dictionary is what a lookup of its key finds. */
  lemma LookupAt<V>(d: seq<(string, V)>, i: nat)
    requires DistinctKeys(d) && i < |d|
    ensures Lookup(d, d[i].0) == Some(d[i].1)
  {
    assert Keys(d)[i] == d[i].0;
  }

  /** Reading back an entry after `d[k] = v`. */
  lemma LookupPut<V>(d: seq<(string, V)>, k: string, v: V, q: string)
    requires DistinctKeys(d)
    ensures Lookup(Put(d, k, v), q) == if q == k then Some(v) else Lookup(d, q)
  {
    var r := Put(d, k, v);
    var n := IndexOfKey(d, q);
    var m := IndexOfKey(r, q);
    if q == k {
      if k in Keys(d) {
        assert m == IndexOfKey(d, k);
      } else {
        assert r[|d|].0 == k;
      }
    } else {
      if n < |d| {
        assert r[n].0 == q;
        assert m == n;
      } else {
        assert q !in Keys(r);
      }
    }
  }

  /** The key set of an ordered dictionary after `d[k] = v`. */
  lemma PutKeys<V>(d: seq<(string, V)>, k: string, v: V)
    requires DistinctKeys(d)
    ensures forall x :: x in Keys(Put(d, k, v)) <==> x in Keys(d) || x == k
  {
    var r := Put(d, k, v);
    forall x
      ensures x in Keys(r) <==> x in Keys(d) || x == k
    {
      if x in Keys(d) {
        var i :| 0 <= i < |d| && Keys(d)[i] == x;
        assert Keys(r)[i] == x;
      }
      if x in Keys(r) {
        var i :| 0 <= i < |r| && Keys(r)[i] == x;
        if i < |d| && d[i].0 != k {
          assert r[i] == d[i];
          assert Keys(d)[i] == x;
        }
      }
      if x == k {
        var n := IndexOfKey(d, k);
        if n < |d| {
          assert r[n] == (k, v);
        } else {
          assert r[|d|] == (k, v);
        }
        assert Keys(r)[n] == k;
      }
    }
  }

  /** Number of entries of an assignment dictionary whose list holds `r`. */
  function Holders(d: seq<(string, seq<string>)>, r: string): (n: nat)
    ensures n <= |d|
  {
    if d == [] then 0 else (if r in d[0].1 then 1 else 0) + Holders(d[1..], r)
  }

  lemma {:induction false} HoldersAppend(d: seq<(string, seq<string>)>, e: (string, seq<string>), r: string)
    ensures Holders(d + [e], r) == Holders(d, r) + (if r in e.1 then 1 else 0)
    decreases |d|
  {
    if d != [] {
      assert (d + [e])[1..] == d[1..] + [e];
      HoldersAppend(d[1..], e, r);
    }
  }

  /** `d[k].append(x)` on a `defaultdict(list)` kept in insertion order. */
  function AppendTo(d: seq<(string, seq<string>)>, k: string, x: string): (r: seq<(string, seq<string>)>)
    requires DistinctKeys(d)
    ensures DistinctKeys(r)
    ensures k !in Keys(d) ==> r == d + [(k, [x])]
    ensures k in Keys(d) ==> |r| == |d| && forall i :: 0 <= i < |d| ==> r[i] == if d[i].0 == k then (k, d[i].1 + [x]) else d[i]
  {
    var n := IndexOfKey(d, k);
    IndexOfKeyKeys(d, k);
    if n == |d| then d + [(k, [x])] else d[n := (k, d[n].1 + [x])]
  }

  /** Number of occurrences of `x` in `s` (Python's `s.count(x)` on a list). */
  function Count<T(==)>(s: seq<T>, x: T): (n: nat)
    ensures n <= |s|
    ensures x !in s ==> n == 0
  {
    if s == [] then 0 else (if s[0] == x then 1 else 0) + Count(s[1..], x)
  }

  lemma CountAppend<T>(s: seq<T>, t: seq<T>, x: T)
    ensures Count(s + t, x) == Count(s, x) + Count(t, x)
  {
    if s == [] {
      assert s + t == t;
    } else {
      assert (s + t)[1..] == s[1..] + t;
      CountAppend(s[1..], t, x);
    }
  }

  /** Indexing into a concatenation. */
  lemma ConcatAt<T>(s: seq<T>, t: seq<T>, n: nat)
    requires n < |s| + |t|
    ensures (s + t)[n] == if n < |s| then s[n] else t[n - |s|]
  {
  }

  lemma CountDistinct<T>(s: seq<T>, x: T)
    requires Distinct(s)
    ensures Count(s, x) == if x in s then 1 else 0
  {
    if s != [] {
      CountDistinct(s[1..], x);
    }
  }
}
