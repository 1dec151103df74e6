/** Python's `dict` with string keys: a map that remembers the order in
    which keys were first inserted. Assigning to a key already present
    replaces its value and keeps its place. */
module OrderedMap {
  import opened Wrappers

  datatype Dict<V> = Dict(keys: seq<string>, entries: map<string, V>)

  /** The keys are distinct and are exactly the keys of the entries. */
  predicate Valid<V>(d: Dict<V>) {
    (forall i, j :: 0 <= i < j < |d.keys| ==> d.keys[i] != d.keys[j])
    && (forall k :: k in d.entries ==> k in d.keys)
    && (forall i :: 0 <= i < |d.keys| ==> d.keys[i] in d.entries)
  }

  /** `{}`. */
  function Empty<V>(): (d: Dict<V>)
    ensures Valid(d) && |d.keys| == 0
    ensures forall k :: Get(d, k).None?
  {
    Dict([], map[])
  }

  /** `d.get(k)`. */
  function Get<V>(d: Dict<V>, k: string): Option<V> {
    if k in d.entries then Some(d.entries[k]) else None
  }

  /** `d[k] = v`. */
  function Put<V>(d: Dict<V>, k: string, v: V): (r: Dict<V>)
    requires Valid(d)
    ensures Valid(r)
    ensures Get(r, k) == Some(v)
    ensures forall k' :: k' != k ==> Get(r, k') == Get(d, k')
    ensures k in d.keys ==> r.keys == d.keys
    ensures k !in d.keys ==> r.keys == d.keys + [k]
  {
    if k in d.keys then Dict(d.keys, d.entries[k := v])
    else Dict(d.keys + [k], d.entries[k := v])
  }

  /** Every stored key is listed, and a key is present exactly when `get`
      finds it. */
  lemma GetIffListed<V>(d: Dict<V>, k: string)
    requires Valid(d)
    ensures Get(d, k).Some? <==> k in d.keys
  {
  }

  /** Writing a key again leaves every key where it was. */
  lemma {:induction false} PutKeepsPositions<V>(d: Dict<V>, k: string, v: V, i: nat)
    requires Valid(d) && i < |d.keys|
    ensures i < |Put(d, k, v).keys| && Put(d, k, v).keys[i] == d.keys[i]
  {
    if k !in d.keys {
      assert (d.keys + [k])[i] == d.keys[i];
    }
  }
}
