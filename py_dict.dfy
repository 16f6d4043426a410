/**
  A Python `dict` with `str` keys. Python dicts remember insertion order:
  `d[k] = v` on a new key appends it to the key order, on a present key
  replaces the value and keeps the key where it was. `list(d)` is that key
  order, and `sorted(list(d))` the keys in ascending order.
 */
module PyDict {
  import Sorting

  datatype Dict<V> = Dict(keys: seq<string>, items: map<string, V>)

  /** The key order lists each key of the mapping exactly once. */
  ghost predicate Valid<V>(d: Dict<V>) {
    && (forall i, j :: 0 <= i < j < |d.keys| ==> d.keys[i] != d.keys[j])
    && (forall k :: k in d.items <==> k in d.keys)
  }

  /** `{}`. */
  function Empty<V>(): (d: Dict<V>)
    ensures Valid(d) && d.items == map[]
  {
    Dict([], map[])
  }

  /** `d[k] = v`. */
  function Put<V>(d: Dict<V>, k: string, v: V): (r: Dict<V>)
    requires Valid(d)
    ensures Valid(r)
    ensures r.items == d.items[k := v]
    ensures k in d.items ==> r.keys == d.keys
    ensures k !in d.items ==> r.keys == d.keys + [k]
  {
    if k in d.items then Dict(d.keys, d.items[k := v])
    else Dict(d.keys + [k], d.items[k := v])
  }

  /** A second store under the same key overwrites the first and leaves the
      key order as the first store made it. */
  lemma PutOverwrites<V>(d: Dict<V>, k: string, v1: V, v2: V)
    requires Valid(d)
    ensures Put(Put(d, k, v1), k, v2) == Put(d, k, v2)
  {
  }

  /** `len(d)`. */
  function Len<V>(d: Dict<V>): (n: nat)
    requires Valid(d)
    ensures n == |d.items|
  {
    KeyCount(d);
    |d.keys|
  }

  lemma KeyCount<V>(d: Dict<V>)
    requires Valid(d)
    ensures |d.keys| == |d.items|
  {
    DistinctCardinality(d.keys);
    assert d.items.Keys == set k | k in d.keys;
  }

  lemma {:induction false} DistinctCardinality(s: seq<string>)
    requires forall i, j :: 0 <= i < j < |s| ==> s[i] != s[j]
    ensures |set k | k in s| == |s|
  {
    if s != [] {
      var t := s[..|s| - 1];
      DistinctCardinality(t);
      assert (set k | k in s) == (set k | k in t) + {s[|s| - 1]};
      assert s[|s| - 1] !in t by {
        assert forall m :: 0 <= m < |t| ==> t[m] == s[m] != s[|s| - 1];
      }
    }
  }

  /** `sorted(list(d))`: every key once, in strictly ascending order. */
  function SortedKeys<V>(d: Dict<V>): (names: seq<string>)
    requires Valid(d)
    ensures Sorting.StrictlyAscending(names)
    ensures forall k :: k in names <==> k in d.items
    ensures |names| == |d.items|
  {
    Sorting.SortDistinct(d.keys);
    KeyCount(d);
    Sorting.Sort(d.keys)
  }

  /** `[d[k] for k in names]`, one lookup per name in the given order. */
  method ValuesAt<V>(d: Dict<V>, names: seq<string>) returns (vs: seq<V>)
    requires forall k :: k in names ==> k in d.items
    ensures |vs| == |names|
    ensures forall i :: 0 <= i < |names| ==> vs[i] == d.items[names[i]]
  {
    vs := [];
    var i := 0;
    while i < |names|
      invariant 0 <= i <= |names|
      invariant |vs| == i
      invariant forall k :: 0 <= k < i ==> vs[k] == d.items[names[k]]
    {
      vs := vs + [d.items[names[i]]];
      i := i + 1;
    }
  }
}
