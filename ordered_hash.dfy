/** A Ruby Hash as an association list in insertion order: `hash[k]`, `hash[k] = v`,
    `hash.key(v)`, `hash.keys` and `hash.values`. */
module OrderedHash {

  import opened Wrappers

  type Hash<K, V> = seq<(K, V)>

  /** No key occurs twice, as in every Ruby Hash. */
  predicate UniqueKeys<K(==), V>(h: Hash<K, V>) {
    forall i, j :: 0 <= i < j < |h| ==> h[i].0 != h[j].0
  }

  /** `hash.keys`, in insertion order. */
  function Keys<K, V>(h: Hash<K, V>): (ks: seq<K>)
    ensures |ks| == |h|
  {
    seq(|h|, i requires 0 <= i < |h| => h[i].0)
  }

  /** `hash.values`, in insertion order. */
  function Values<K, V>(h: Hash<K, V>): (vs: seq<V>)
    ensures |vs| == |h|
  {
    seq(|h|, i requires 0 <= i < |h| => h[i].1)
  }

  /** The position of the first entry with key k, or |h| when there is none. */
  function FindKey<K(==), V>(h: Hash<K, V>, k: K): (i: nat)
    ensures i <= |h|
    ensures i < |h| ==> h[i].0 == k
    ensures forall j :: 0 <= j < i ==> h[j].0 != k
  {
    if h == [] then 0
    else if h[0].0 == k then 0
    else 1 + FindKey(h[1..], k)
  }

  /** The position of the first entry with value v, or |h| when there is none. */
  function FindValue<K, V(==)>(h: Hash<K, V>, v: V): (i: nat)
    ensures i <= |h|
    ensures i < |h| ==> h[i].1 == v
    ensures forall j :: 0 <= j < i ==> h[j].1 != v
  {
    if h == [] then 0
    else if h[0].1 == v then 0
    else 1 + FindValue(h[1..], v)
  }

  /** `hash[k]`: the value stored under k, or nil. */
  function Get<K(==), V>(h: Hash<K, V>, k: K): (r: Option<V>)
    ensures r.Some? ==> (k, r.value) in h
    ensures r.None? ==> forall i :: 0 <= i < |h| ==> h[i].0 != k
  {
    var i := FindKey(h, k);
    if i < |h| then Some(h[i].1) else None
  }

  /** `hash.key(v)`: the key of the first-inserted entry whose value is v, or nil. */
  function KeyOf<K, V(==)>(h: Hash<K, V>, v: V): (r: Option<K>)
    ensures r.None? ==> forall i :: 0 <= i < |h| ==> h[i].1 != v
  {
    var i := FindValue(h, v);
    if i < |h| then Some(h[i].0) else None
  }

  /** `hash[k] = v`: an existing key keeps its position and gets the new value;
      a new key is appended. */
  function Put<K(==), V>(h: Hash<K, V>, k: K, v: V): (r: Hash<K, V>)
    ensures (k, v) in r
    ensures |h| <= |r| <= |h| + 1
    ensures forall j :: 0 <= j < |h| && h[j].0 != k ==> r[j] == h[j]
  {
    var i := FindKey(h, k);
    if i < |h| then
      assert h[i := (k, v)][i] == (k, v);
      h[i := (k, v)]
    else h + [(k, v)]
  }

  /** The ensures of FindKey determine it. */
  lemma FindKeyAt<K, V>(h: Hash<K, V>, k: K, i: nat)
    requires i <= |h| && (i < |h| ==> h[i].0 == k)
    requires forall j :: 0 <= j < i ==> h[j].0 != k
    ensures FindKey(h, k) == i
  {
  }

  lemma InKeys<K, V>(h: Hash<K, V>, k: K)
    ensures k in Keys(h) <==> FindKey(h, k) < |h|
  {
    var f := FindKey(h, k);
    if f < |h| {
      assert Keys(h)[f] == k;
    } else {
      forall j | 0 <= j < |h| ensures Keys(h)[j] != k {
        assert Keys(h)[j] == h[j].0;
      }
    }
  }

  lemma InValues<K, V>(h: Hash<K, V>, v: V)
    ensures v in Values(h) <==> FindValue(h, v) < |h|
  {
    var f := FindValue(h, v);
    if f < |h| {
      assert Values(h)[f] == v;
    } else {
      forall j | 0 <= j < |h| ensures Values(h)[j] != v {
        assert Values(h)[j] == h[j].1;
      }
    }
  }

  /** In a hash with unique keys, `hash[k]` is v exactly when (k, v) is an entry,
      and nil exactly when k is not a key. */
  lemma GetIsEntry<K, V>(h: Hash<K, V>, k: K, v: V)
    requires UniqueKeys(h)
    ensures Get(h, k) == Some(v) <==> (k, v) in h
    ensures Get(h, k) == None <==> k !in Keys(h)
  {
    InKeys(h, k);
    if (k, v) in h {
      var i :| 0 <= i < |h| && h[i] == (k, v);
      FindKeyAt(h, k, i);
    }
  }

  /** `hash.key(v)` is nil exactly when no entry has value v; otherwise it is the key of
      the first entry that does. */
  lemma KeyOfIsFirst<K, V>(h: Hash<K, V>, v: V)
    ensures KeyOf(h, v) == None <==> v !in Values(h)
    ensures KeyOf(h, v).Some? ==>
      exists i :: 0 <= i < |h| && h[i] == (KeyOf(h, v).value, v) && forall j :: 0 <= j < i ==> h[j].1 != v
  {
    InValues(h, v);
    var f := FindValue(h, v);
    if f < |h| {
      assert h[f] == (KeyOf(h, v).value, v);
    }
  }

  /** When every entry with value v has key k, `hash.key(v)` is k. */
  lemma KeyOfSoleEntry<K, V>(h: Hash<K, V>, k: K, v: V)
    requires (k, v) in h
    requires forall i :: 0 <= i < |h| && h[i].1 == v ==> h[i].0 == k
    ensures KeyOf(h, v) == Some(k)
  {
    var i :| 0 <= i < |h| && h[i] == (k, v);
    assert FindValue(h, v) <= i;
  }

  /** After `hash[k] = v`, k maps to v and every other key maps to what it mapped to before. */
  lemma PutGet<K, V>(h: Hash<K, V>, k: K, v: V, other: K)
    ensures Get(Put(h, k, v), k) == Some(v)
    ensures other != k ==> Get(Put(h, k, v), other) == Get(h, other)
  {
    var r := Put(h, k, v);
    var i := FindKey(h, k);
    if i < |h| {
      FindKeyAt(r, k, i);
      if other != k {
        var j := FindKey(h, other);
        FindKeyAt(r, other, j);
      }
    } else {
      FindKeyAt(r, k, |h|);
      if other != k {
        var j := FindKey(h, other);
        FindKeyAt(r, other, if j < |h| then j else |r|);
      }
    }
  }

  /** `hash[k] = v` keeps the order of the keys: a known key stays where it was, a new key
      goes last. */
  lemma PutKeys<K, V>(h: Hash<K, V>, k: K, v: V)
    ensures Keys(Put(h, k, v)) == if k in Keys(h) then Keys(h) else Keys(h) + [k]
  {
    InKeys(h, k);
  }

  /** `hash[k] = v` keeps the keys unique. */
  lemma PutUnique<K, V>(h: Hash<K, V>, k: K, v: V)
    requires UniqueKeys(h)
    ensures UniqueKeys(Put(h, k, v))
  {
    var r := Put(h, k, v);
    var f := FindKey(h, k);
    forall i, j | 0 <= i < j < |r|
      ensures r[i].0 != r[j].0
    {
      if f == |h| && j == |h| {
        assert h[i].0 != k;
      }
    }
  }
}
