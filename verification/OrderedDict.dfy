/** Python dictionaries iterate in insertion order, and assigning to an existing
    key keeps its place. A dictionary is an association list with distinct keys. */
module OrderedDict {
  datatype Option<+T> = None | Some(value: T)

  type Dict<K(==), V> = seq<(K, V)>

  predicate HasKey<K(==), V>(d: Dict<K, V>, k: K) {
    exists i | 0 <= i < |d| :: d[i].0 == k
  }

  predicate Distinct<K(==), V>(d: Dict<K, V>) {
    forall i, j | 0 <= i < j < |d| :: d[i].0 != d[j].0
  }

  /** Position of key `k`, or -1. */
  function Find<K(==), V>(d: Dict<K, V>, k: K): (i: int)
    ensures -1 <= i < |d|
    ensures i >= 0 ==> d[i].0 == k
    ensures i < 0 ==> forall j | 0 <= j < |d| :: d[j].0 != k
  {
    if d == [] then -1
    else if d[|d| - 1].0 == k then |d| - 1
    else Find(d[..|d| - 1], k)
  }

  function Get<K(==), V>(d: Dict<K, V>, k: K): (r: Option<V>)
    ensures r.Some? <==> HasKey(d, k)
    ensures r.Some? ==> (k, r.value) in d
  {
    var i := Find(d, k);
    if i < 0 then None else Some(d[i].1)
  }

  /** `d[k] = v` */
  function Put<K(==), V>(d: Dict<K, V>, k: K, v: V): Dict<K, V> {
    var i := Find(d, k);
    if i < 0 then d + [(k, v)] else d[i := (k, v)]
  }

  function Values<K, V>(d: seq<(K, V)>): (r: seq<V>)
    ensures |r| == |d|
    ensures forall i | 0 <= i < |d| :: r[i] == d[i].1
  {
    seq(|d|, i requires 0 <= i < |d| => d[i].1)
  }

  /** Assignment writes one key and keeps every other entry and its position. */
  lemma PutShape<K, V>(d: Dict<K, V>, k: K, v: V)
    requires Distinct(d)
    ensures Distinct(Put(d, k, v))
    ensures HasKey(d, k) ==>
              && |Put(d, k, v)| == |d|
              && forall i | 0 <= i < |d| :: Put(d, k, v)[i] == if d[i].0 == k then (k, v) else d[i]
    ensures !HasKey(d, k) ==> Put(d, k, v) == d + [(k, v)]
  {
    hide Find;
  }

  lemma GetUnique<K, V>(d: Dict<K, V>, i: int)
    requires Distinct(d) && 0 <= i < |d|
    ensures Get(d, d[i].0) == Some(d[i].1)
  {
    hide Find;
  }

  lemma FindAt<K, V>(d: Dict<K, V>, i: int)
    requires Distinct(d) && 0 <= i < |d|
    ensures Find(d, d[i].0) == i
  {
    hide Find;
  }

  /** Reading after a write. */
  lemma GetPut<K, V>(d: Dict<K, V>, k: K, v: V, j: K)
    requires Distinct(d)
    ensures Get(Put(d, k, v), j) == if j == k then Some(v) else Get(d, j)
  {
    hide Distinct, Find;
    PutShape(d, k, v);
    var p := Put(d, k, v);
    if j == k {
      FindAt(p, if Find(d, k) < 0 then |d| else Find(d, k));
    } else if Find(d, j) >= 0 {
      FindAt(p, Find(d, j));
    } else {
      assert forall m | 0 <= m < |p| :: p[m].0 != j;
    }
  }

  // ---- the order of keys ----------------------------------------------------------------

  function Keys<K, V>(d: seq<(K, V)>): seq<K> { seq(|d|, i requires 0 <= i < |d| => d[i].0) }

  /** The first occurrence of every key, in order. */
  function Firsts<K(==)>(ks: seq<K>): seq<K> {
    if ks == [] then []
    else
      var before := Firsts(ks[..|ks| - 1]);
      if ks[|ks| - 1] in before then before else before + [ks[|ks| - 1]]
  }

  lemma FirstsSnoc<K>(ks: seq<K>, k: K)
    ensures Firsts(ks + [k]) == if k in Firsts(ks) then Firsts(ks) else Firsts(ks) + [k]
  {
    assert (ks + [k])[..|ks|] == ks;
  }

  /** A new key goes to the end, an old one stays where it is. */
  lemma KeysPut<K, V>(d: Dict<K, V>, k: K, v: V)
    requires Distinct(d)
    ensures Keys(Put(d, k, v)) == if k in Keys(d) then Keys(d) else Keys(d) + [k]
  {
    hide Find, Put;
    PutShape(d, k, v);
    assert HasKey(d, k) <==> k in Keys(d) by {
      if HasKey(d, k) {
        var i :| 0 <= i < |d| && d[i].0 == k;
        assert Keys(d)[i] == k;
      }
      if k in Keys(d) {
        var i :| 0 <= i < |d| && Keys(d)[i] == k;
        assert d[i].0 == k;
      }
    }
  }
}
