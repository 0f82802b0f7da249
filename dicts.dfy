/**
 Python dictionaries with string keys.

 A Python dict remembers the order in which its keys were FIRST inserted:
 assigning to a key that is already present replaces its value and leaves the
 key where it was. `items()` yields the keys in that order.
 */
module Dicts {

  /** `order` lists every key once, in first-insertion order; `entries` holds
      each key's current value. */
  datatype Dict<V> = Dict(order: seq<string>, entries: map<string, V>)
  {
    /** The representation invariant: no key twice, and the same keys in both. */
    ghost predicate Valid()
    {
      && (forall i, j :: 0 <= i < j < |order| ==> order[i] != order[j])
      && (forall k :: k in entries <==> k in order)
    }
  }

  /** The keys of a list of key/value pairs, in list order. */
  function Keys<V>(pairs: seq<(string, V)>): (ks: seq<string>)
    ensures |ks| == |pairs|
    ensures forall i :: 0 <= i < |pairs| ==> ks[i] == pairs[i].0
  {
    seq(|pairs|, i requires 0 <= i < |pairs| => pairs[i].0)
  }

  /** The position of the first occurrence of `k` in `ks`. */
  function FirstIndex(ks: seq<string>, k: string): (r: nat)
    requires k in ks
    ensures r < |ks| && ks[r] == k
    ensures forall j :: 0 <= j < r ==> ks[j] != k
  {
    var n := |ks| - 1;
    if k in ks[..n] then FirstIndex(ks[..n], k) else n
  }

  /** The position of the last occurrence of `k` in `ks`. */
  function LastIndex(ks: seq<string>, k: string): (r: nat)
    requires k in ks
    ensures r < |ks| && ks[r] == k
    ensures forall j :: r < j < |ks| ==> ks[j] != k
  {
    var n := |ks| - 1;
    if ks[n] == k then n else LastIndex(ks[..n], k)
  }

  /** The store `d[k] = v`. */
  function Insert<V>(d: Dict<V>, k: string, v: V): (r: Dict<V>)
    requires d.Valid()
    ensures r.Valid()
    ensures k in r.entries && r.entries[k] == v
    ensures forall k' :: k' != k ==> (k' in r.entries <==> k' in d.entries)
    ensures forall k' :: k' != k && k' in d.entries ==> r.entries[k'] == d.entries[k']
    ensures k in d.entries ==> r.order == d.order
    ensures k !in d.entries ==> r.order == d.order + [k]
  {
    Dict(if k in d.entries then d.order else d.order + [k], d.entries[k := v])
  }

  /** The comprehension `{k: v for (k, v) in pairs}`, which stores the pairs
      one after the other, left to right. */
  function FromPairs<V>(pairs: seq<(string, V)>): (d: Dict<V>)
    ensures d.Valid()
  {
    if pairs == [] then Dict([], map[])
    else
      var n := |pairs| - 1;
      Insert(FromPairs(pairs[..n]), pairs[n].0, pairs[n].1)
  }

  lemma KeysPrefix<V>(pairs: seq<(string, V)>, n: nat)
    requires n <= |pairs|
    ensures Keys(pairs[..n]) == Keys(pairs)[..n]
  {
  }

  /** The comprehension has exactly the keys of its pairs. */
  lemma {:induction false} FromPairsKeys<V>(pairs: seq<(string, V)>)
    ensures forall k :: k in FromPairs(pairs).entries <==> k in Keys(pairs)
    ensures forall k :: k in FromPairs(pairs).order <==> k in Keys(pairs)
  {
    if pairs != [] {
      var n := |pairs| - 1;
      FromPairsKeys(pairs[..n]);
      KeysPrefix(pairs, n);
      assert Keys(pairs) == Keys(pairs[..n]) + [pairs[n].0];
    }
  }

  /** Last write wins: a pair that no later pair overrides gives its key's value. */
  lemma {:induction false} FromPairsLastWins<V>(pairs: seq<(string, V)>, i: nat)
    requires i < |pairs|
    requires forall j :: i < j < |pairs| ==> pairs[j].0 != pairs[i].0
    ensures pairs[i].0 in FromPairs(pairs).entries
    ensures FromPairs(pairs).entries[pairs[i].0] == pairs[i].1
  {
    var n := |pairs| - 1;
    var prev := FromPairs(pairs[..n]);
    assert FromPairs(pairs) == Insert(prev, pairs[n].0, pairs[n].1);
    if i < n {
      var k := pairs[i].0;
      assert pairs[..n][i] == pairs[i];
      FromPairsLastWins(pairs[..n], i);
      assert k in prev.entries && prev.entries[k] == pairs[i].1;
      assert pairs[n].0 != k;
    }
  }

  /** Every value in the comprehension comes from the last pair with its key. */
  lemma FromPairsValue<V>(pairs: seq<(string, V)>, k: string)
    requires k in Keys(pairs)
    ensures k in FromPairs(pairs).entries
    ensures FromPairs(pairs).entries[k] == pairs[LastIndex(Keys(pairs), k)].1
  {
    FromPairsLastWins(pairs, LastIndex(Keys(pairs), k));
  }

  lemma FirstIndexPrefix(ks: seq<string>, m: nat, k: string)
    requires m <= |ks| && k in ks[..m]
    ensures FirstIndex(ks, k) == FirstIndex(ks[..m], k)
  {
  }

  /** The keys come out in the order of their first occurrence among the pairs. */
  lemma {:induction false} FromPairsOrder<V>(pairs: seq<(string, V)>)
    ensures forall k :: k in FromPairs(pairs).order ==> k in Keys(pairs)
    ensures forall a, b :: 0 <= a < b < |FromPairs(pairs).order| ==>
      FirstIndex(Keys(pairs), FromPairs(pairs).order[a]) < FirstIndex(Keys(pairs), FromPairs(pairs).order[b])
  {
    FromPairsKeys(pairs);
    if pairs != [] {
      var n := |pairs| - 1;
      var ks, ks' := Keys(pairs), Keys(pairs[..n]);
      var o, o' := FromPairs(pairs).order, FromPairs(pairs[..n]).order;
      FromPairsOrder(pairs[..n]);
      FromPairsKeys(pairs[..n]);
      KeysPrefix(pairs, n);
      forall a, b | 0 <= a < b < |o|
        ensures FirstIndex(ks, o[a]) < FirstIndex(ks, o[b])
      {
        assert a < |o'| && o[a] == o'[a];
        FirstIndexPrefix(ks, n, o[a]);
        if b < |o'| {
          FirstIndexPrefix(ks, n, o[b]);
        } else {
          assert o[b] == pairs[n].0 && o[b] !in ks';
        }
      }
    }
  }

  lemma {:induction false} DistinctCard(s: seq<string>)
    requires forall i, j :: 0 <= i < j < |s| ==> s[i] != s[j]
    ensures |set x | x in s| == |s|
  {
    if s != [] {
      var n := |s| - 1;
      DistinctCard(s[..n]);
      assert (set x | x in s) == (set x | x in s[..n]) + {s[n]};
      assert s[n] !in s[..n];
    }
  }

  /** The comprehension holds one entry per distinct key. */
  lemma FromPairsSize<V>(pairs: seq<(string, V)>)
    ensures |FromPairs(pairs).order| == |set k | k in Keys(pairs)|
  {
    var d := FromPairs(pairs);
    FromPairsKeys(pairs);
    DistinctCard(d.order);
    assert (set k | k in d.order) == (set k | k in Keys(pairs));
  }

  /** Two comprehensions over the same key list have the same key order. */
  lemma {:induction false} FromPairsSameKeys<V, W>(p: seq<(string, V)>, q: seq<(string, W)>)
    requires Keys(p) == Keys(q)
    ensures FromPairs(p).order == FromPairs(q).order
    ensures forall k :: k in FromPairs(p).entries <==> k in FromPairs(q).entries
  {
    if p != [] {
      var n := |p| - 1;
      KeysPrefix(p, n);
      KeysPrefix(q, n);
      FromPairsSameKeys(p[..n], q[..n]);
    }
  }
}
