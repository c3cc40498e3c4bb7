/** Python's `dict` as the inventory code uses it: key/value pairs kept in
    insertion order, assignment `d[k] = v` that keeps an existing key in
    place and appends a new one, and `d.pop(k)`. */
module OrderedDict {
  import opened Wrappers

  type Dict<K, V> = seq<(K, V)>

  /** The keys in iteration order, as `list(d.keys())`. */
  function Keys<K, V>(d: Dict<K, V>): seq<K> {
    if d == [] then [] else [d[0].0] + Keys(d[1..])
  }

  /** `d.get(k)`: the value of the first pair with key `k`. */
  function Get<K(==), V>(d: Dict<K, V>, k: K): Option<V> {
    if d == [] then None
    else if d[0].0 == k then Some(d[0].1)
    else Get(d[1..], k)
  }

  /** A key has a value exactly when it is one of the dict's keys, and the
      value found is paired with that key in the dict. */
  lemma {:induction false} GetFindsKey<K, V>(d: Dict<K, V>, k: K)
    ensures Get(d, k).Some? <==> k in Keys(d)
    ensures Get(d, k).Some? ==> (k, Get(d, k).value) in d
  {
    if d != [] {
      assert Keys(d) == [d[0].0] + Keys(d[1..]);
      if d[0].0 != k {
        GetFindsKey(d[1..], k);
      }
    }
  }

  /** `d[k] = v`. */
  function Put<K(==,!new), V>(d: Dict<K, V>, k: K, v: V): (r: Dict<K, V>)
    ensures Get(r, k) == Some(v)
    ensures forall k' :: k' != k ==> Get(r, k') == Get(d, k')
    ensures Keys(r) == if k in Keys(d) then Keys(d) else Keys(d) + [k]
  {
    if d == [] then [(k, v)]
    else if d[0].0 == k then
      assert Keys(d) == [k] + Keys(d[1..]);
      assert Keys([(k, v)] + d[1..]) == [k] + Keys(d[1..]);
      [(k, v)] + d[1..]
    else
      var rest := Put(d[1..], k, v);
      assert Keys(d) == [d[0].0] + Keys(d[1..]);
      assert Keys([d[0]] + rest) == [d[0].0] + Keys(rest);
      [d[0]] + rest
  }

  /** `d.pop(k)`: the value of the first pair with key `k` (for a Python
      dict, the only one), and the dict with that pair taken out, the
      others kept in order. */
  function Pop<K(==), V>(d: Dict<K, V>, k: K): (r: (Option<V>, Dict<K, V>))
    ensures r.0 == Get(d, k)
    ensures r.0.None? ==> r.1 == d
    ensures r.0.Some? ==> exists i :: 0 <= i < |d| && d[i] == (k, r.0.value) && r.1 == d[..i] + d[i + 1..]
  {
    if d == [] then (None, d)
    else if d[0].0 == k then
      assert d[1..] == d[..0] + d[1..];
      (Some(d[0].1), d[1..])
    else
      var (v, rest) := Pop(d[1..], k);
      if v.None? then (v, d)
      else
        PopUnderHead(d, k, v.value, rest);
        (v, [d[0]] + rest)
  }

  /** Taking a pair out of the tail of `d` takes it out of `d`. */
  lemma PopUnderHead<K, V>(d: Dict<K, V>, k: K, v: V, rest: Dict<K, V>)
    requires d != []
    requires exists i :: 0 <= i < |d[1..]| && d[1..][i] == (k, v) && rest == d[1..][..i] + d[1..][i + 1..]
    ensures exists i :: 0 <= i < |d| && d[i] == (k, v) && [d[0]] + rest == d[..i] + d[i + 1..]
  {
    var i :| 0 <= i < |d[1..]| && d[1..][i] == (k, v) && rest == d[1..][..i] + d[1..][i + 1..];
    assert d[i + 1] == (k, v);
    assert [d[0]] + rest == d[..i + 1] + d[i + 2..];
  }

  /** No key occurs twice, as in any Python dict. */
  predicate UniqueKeys<K(==), V>(d: Dict<K, V>) {
    forall i, j :: 0 <= i < j < |d| ==> d[i].0 != d[j].0
  }

  /** `Keys` lists the first components of the pairs, position by position. */
  lemma {:induction false} KeysAreFirsts<K, V>(d: Dict<K, V>)
    ensures |Keys(d)| == |d|
    ensures forall i :: 0 <= i < |d| ==> Keys(d)[i] == d[i].0
  {
    if d != [] {
      KeysAreFirsts(d[1..]);
    }
  }

  /** In a dict without repeated keys, looking up the key of any pair finds
      that pair's value. */
  lemma {:induction false} GetAtUniqueKey<K, V>(d: Dict<K, V>, i: nat)
    requires UniqueKeys(d) && i < |d|
    ensures Get(d, d[i].0) == Some(d[i].1)
  {
    if i > 0 {
      assert d[0].0 != d[i].0;
      assert UniqueKeys(d[1..]) by {
        forall a, b | 0 <= a < b < |d[1..]|
          ensures d[1..][a].0 != d[1..][b].0
        {
          assert d[1..][a] == d[a + 1] && d[1..][b] == d[b + 1];
        }
      }
      GetAtUniqueKey(d[1..], i - 1);
    }
  }

  /** A dict whose key list has no repeats has unique keys. */
  lemma DistinctKeysUnique<K, V>(d: Dict<K, V>)
    requires forall i, j :: 0 <= i < j < |Keys(d)| ==> Keys(d)[i] != Keys(d)[j]
    ensures UniqueKeys(d)
  {
    KeysAreFirsts(d);
  }
}
