/**
  Python's insertion-ordered `dict`, as the sequence of its items. Assigning
  to a key that is already present replaces its value where it stands;
  a new key goes to the end.
*/
module PyDicts {
  import opened Wrappers

  type Dict<K, V> = seq<(K, V)>

  function Keys<K(==), V>(d: Dict<K, V>): (ks: seq<K>)
    ensures |ks| == |d|
    ensures forall i :: 0 <= i < |d| ==> ks[i] == d[i].0
  {
    seq(|d|, i requires 0 <= i < |d| => d[i].0)
  }

  predicate DistinctKeys<K(==), V>(d: Dict<K, V>) {
    forall i, j :: 0 <= i < j < |d| ==> d[i].0 != d[j].0
  }

  /** `d.get(k)`. */
  function Get<K(==), V>(d: Dict<K, V>, k: K): Option<V>
    decreases |d|
  {
    if d == [] then None
    else if d[0].0 == k then Some(d[0].1)
    else Get(d[1..], k)
  }

  /** The dictionary after `d[k] = v`. */
  function Put<K(==), V>(d: Dict<K, V>, k: K, v: V): Dict<K, V>
    decreases |d|
  {
    if d == [] then [(k, v)]
    else if d[0].0 == k then [(k, v)] + d[1..]
    else [d[0]] + Put(d[1..], k, v)
  }

  lemma {:induction false} GetSome<K, V>(d: Dict<K, V>, k: K)
    ensures Get(d, k).Some? <==> k in Keys(d)
    decreases |d|
  {
    if d != [] {
      GetSome(d[1..], k);
      assert Keys(d) == [d[0].0] + Keys(d[1..]);
    }
  }

  lemma {:induction false} GetAt<K, V>(d: Dict<K, V>, i: nat)
    requires DistinctKeys(d) && i < |d|
    ensures Get(d, d[i].0) == Some(d[i].1)
    decreases i
  {
    if i > 0 {
      GetAt(d[1..], i - 1);
    }
  }

  /** `d[k] = v` makes `k` map to `v` and leaves every other key's value alone. */
  lemma {:induction false} PutGet<K, V>(d: Dict<K, V>, k: K, v: V)
    ensures Get(Put(d, k, v), k) == Some(v)
    ensures forall k' :: k' != k ==> Get(Put(d, k, v), k') == Get(d, k')
    decreases |d|
  {
    if d != [] && d[0].0 != k {
      PutGet(d[1..], k, v);
    }
  }

  /** `d[k] = v` changes the key order only by appending a key that was not there. */
  lemma {:induction false} PutKeys<K, V>(d: Dict<K, V>, k: K, v: V)
    ensures k in Keys(d) ==> Keys(Put(d, k, v)) == Keys(d)
    ensures k !in Keys(d) ==> Keys(Put(d, k, v)) == Keys(d) + [k]
    decreases |d|
  {
    if d != [] {
      var t := d[1..];
      assert d == [d[0]] + t;
      KeysCons(d[0], t);
      if d[0].0 != k {
        PutKeys(t, k, v);
        KeysCons(d[0], Put(t, k, v));
      } else {
        KeysCons((k, v), t);
      }
    }
  }

  lemma KeysCons<K, V>(h: (K, V), t: Dict<K, V>)
    ensures Keys([h] + t) == [h.0] + Keys(t)
  {
  }

  /** `d[k] = v` keeps the keys distinct. */
  lemma PutDistinct<K, V>(d: Dict<K, V>, k: K, v: V)
    requires DistinctKeys(d)
    ensures DistinctKeys(Put(d, k, v))
  {
    PutKeys(d, k, v);
    var r := Put(d, k, v);
    forall i, j | 0 <= i < j < |r| ensures r[i].0 != r[j].0 {
      assert Keys(r)[i] == r[i].0 && Keys(r)[j] == r[j].0;
      if k in Keys(d) {
        assert Keys(d)[i] == d[i].0 && Keys(d)[j] == d[j].0;
      } else if j < |d| {
        assert Keys(d)[i] == d[i].0 && Keys(d)[j] == d[j].0;
      } else {
        assert Keys(d)[i] == d[i].0;
      }
    }
  }

  /** A new key is appended with its value; the other items stay in place. */
  lemma {:induction false} PutNew<K, V>(d: Dict<K, V>, k: K, v: V)
    requires k !in Keys(d)
    ensures Put(d, k, v) == d + [(k, v)]
    decreases |d|
  {
    if d != [] {
      assert Keys(d) == [d[0].0] + Keys(d[1..]);
      PutNew(d[1..], k, v);
      assert d == [d[0]] + d[1..];
    }
  }

  /** Every item after `d[k] = v` is the new one or an item of `d`. */
  lemma {:induction false} PutItems<K, V>(d: Dict<K, V>, k: K, v: V)
    ensures forall e :: e in Put(d, k, v) ==> e == (k, v) || e in d
    decreases |d|
  {
    if d != [] && d[0].0 != k {
      PutItems(d[1..], k, v);
    }
  }
}
