/** Python's `dict` as the engine uses it: keys kept in insertion order,
    assigning to an existing key keeps its position, a new key goes last. */
module OrderedDict {

  datatype Option<+T> = None | Some(value: T)

  type Dict<K, V> = seq<(K, V)>

  /** No key appears twice. */
  predicate Keyed<K(==), V>(d: Dict<K, V>) {
    forall i, j :: 0 <= i < j < |d| ==> d[i].0 != d[j].0
  }

  function KeyList<K, V>(d: Dict<K, V>): (ks: seq<K>)
    ensures |ks| == |d|
    ensures forall i :: 0 <= i < |d| ==> ks[i] == d[i].0
  {
    if d == [] then [] else [d[0].0] + KeyList(d[1..])
  }

  /** `d.get(k)`. */
  function Get<K(==), V>(d: Dict<K, V>, k: K): (r: Option<V>)
    ensures r.None? <==> k !in KeyList(d)
    ensures r.Some? ==> (k, r.value) in d
  {
    if d == [] then None
    else if d[0].0 == k then Some(d[0].1)
    else Get(d[1..], k)
  }

  predicate HasKey<K(==), V>(d: Dict<K, V>, k: K) {
    k in KeyList(d)
  }

  /** `d[k] = v`. */
  function Put<K(==), V>(d: Dict<K, V>, k: K, v: V): (r: Dict<K, V>) {
    if d == [] then [(k, v)]
    else if d[0].0 == k then [(k, v)] + d[1..]
    else [d[0]] + Put(d[1..], k, v)
  }

  lemma {:induction false} GetPut<K, V>(d: Dict<K, V>, k: K, v: V, k': K)
    ensures Get(Put(d, k, v), k') == if k' == k then Some(v) else Get(d, k')
  {
    if d != [] && d[0].0 != k {
      GetPut(d[1..], k, v, k');
    }
  }

  /** Writing a key the dict does not hold appends the pair. */
  lemma {:induction false} PutNew<K, V>(d: Dict<K, V>, k: K, v: V)
    requires k !in KeyList(d)
    ensures Put(d, k, v) == d + [(k, v)]
  {
    if d != [] {
      assert KeyList(d) == [d[0].0] + KeyList(d[1..]);
      PutNew(d[1..], k, v);
      assert d == [d[0]] + d[1..];
    }
  }

  /** A new key goes last, an existing key keeps its place. */
  lemma {:induction false} KeyListPut<K, V>(d: Dict<K, V>, k: K, v: V)
    ensures KeyList(Put(d, k, v)) == if k in KeyList(d) then KeyList(d) else KeyList(d) + [k]
  {
    if d == [] {
    } else if d[0].0 == k {
      assert KeyList(Put(d, k, v)) == [k] + KeyList(d[1..]);
    } else {
      KeyListPut(d[1..], k, v);
      assert KeyList(d) == [d[0].0] + KeyList(d[1..]);
      assert KeyList(Put(d, k, v)) == [d[0].0] + KeyList(Put(d[1..], k, v));
    }
  }

  lemma PutKeyed<K, V>(d: Dict<K, V>, k: K, v: V)
    requires Keyed(d)
    ensures Keyed(Put(d, k, v))
  {
    KeyListPut(d, k, v);
    var r := Put(d, k, v);
    var ks := KeyList(r);
    forall i, j | 0 <= i < j < |r| ensures r[i].0 != r[j].0 {
      assert ks[i] == r[i].0 && ks[j] == r[j].0;
      if k !in KeyList(d) && j == |d| {
        assert ks[i] == KeyList(d)[i];
      } else {
        assert ks[i] == KeyList(d)[i] && ks[j] == KeyList(d)[j];
      }
    }
  }

  /** In a keyed dict the entry of a key is its only one. */
  lemma KeyedGet<K, V>(d: Dict<K, V>, i: nat)
    requires Keyed(d) && i < |d|
    ensures Get(d, d[i].0) == Some(d[i].1)
  {
    if i > 0 {
      assert d[1..][i - 1] == d[i];
      assert d[0].0 != d[i].0;
      KeyedGet(d[1..], i - 1);
    }
  }
}
