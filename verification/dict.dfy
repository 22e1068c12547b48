/** Python dictionaries keyed by strings, as association lists in insertion order. */
module Dict {
  import opened Wrappers
  import opened Text

  type Dict<V> = seq<(String, V)>

  /** No key occurs twice. */
  ghost predicate UniqueKeys<V>(d: Dict<V>) {
    forall i, j | 0 <= i < j < |d| :: d[i].0 != d[j].0
  }

  /** `d[k]` if `k in d`, else None. */
  function Get<V>(d: Dict<V>, k: String): (r: Option<V>)
    ensures r.Some? ==> exists i | 0 <= i < |d| :: d[i] == (k, r.value)
    ensures r.None? ==> forall i | 0 <= i < |d| :: d[i].0 != k
  {
    if |d| == 0 then None
    else if d[0].0 == k then Some(d[0].1)
    else Get(d[1..], k)
  }

  /** `d[k] = v`: an existing key keeps its position and takes the new value; a new key goes last. */
  function Put<V>(d: Dict<V>, k: String, v: V): (r: Dict<V>)
    ensures Get(r, k) == Some(v)
    ensures forall k' | k' != k :: Get(r, k') == Get(d, k')
  {
    if |d| == 0 then [(k, v)]
    else if d[0].0 == k then [(k, v)] + d[1..]
    else
      var rest := Put(d[1..], k, v);
      var r := [d[0]] + rest;
      assert r[1..] == rest;
      r
  }

  /** Assignment keeps the key order: existing keys stay in place and a new key is appended. */
  lemma {:induction false} PutKeepsOrder<V>(d: Dict<V>, k: String, v: V)
    ensures |Put(d, k, v)| == if Get(d, k).Some? then |d| else |d| + 1
    ensures forall i | 0 <= i < |d| :: Put(d, k, v)[i].0 == d[i].0
    ensures Get(d, k).None? ==> Put(d, k, v)[|d|] == (k, v)
  {
    if |d| > 0 && d[0].0 != k {
      var rest := Put(d[1..], k, v);
      PutKeepsOrder(d[1..], k, v);
      var r := Put(d, k, v);
      assert r == [d[0]] + rest;
      assert Get(d, k) == Get(d[1..], k);
      forall i | 0 < i < |d| ensures r[i].0 == d[i].0 {
        assert r[i] == rest[i - 1] && d[i] == d[1..][i - 1];
      }
    }
  }

  /** A dictionary without repeated keys keeps that property under assignment. */
  lemma PutKeepsKeysUnique<V>(d: Dict<V>, k: String, v: V)
    requires UniqueKeys(d)
    ensures UniqueKeys(Put(d, k, v))
  {
    PutKeepsOrder(d, k, v);
    var r := Put(d, k, v);
    forall i, j | 0 <= i < j < |r| ensures r[i].0 != r[j].0 {
      if j == |d| {
        assert Get(d, k).None?;
      }
    }
  }
}
