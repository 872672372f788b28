/** Python's `dict`, which remembers insertion order: a sequence of key/value
    pairs. `Put` overwrites a present key in place and appends a new one, so
    iterating over `Keys` visits keys in the order they were first inserted,
    as `for k in d:` does. */
module Dict {
  import opened Wrappers

  type Dict<K, V> = seq<(K, V)>

  /** `list(d.keys())`. */
  function Keys<K, V>(d: Dict<K, V>): (ks: seq<K>)
    ensures |ks| == |d|
  {
    if |d| == 0 then [] else [d[0].0] + Keys(d[1..])
  }

  lemma {:induction false} KeyAt<K, V>(d: Dict<K, V>, i: nat)
    requires i < |d|
    ensures Keys(d)[i] == d[i].0
    decreases i
  {
    if i > 0 {
      KeyAt(d[1..], i - 1);
      assert Keys(d) == [d[0].0] + Keys(d[1..]);
    }
  }

  /** Every key appears once, as in any dictionary built by `Put`. */
  predicate UniqueKeys<K(==), V>(d: Dict<K, V>) {
    var ks := Keys(d);
    forall i, j :: 0 <= i < j < |ks| ==> ks[i] != ks[j]
  }

  /** `d.get(k)`: the value stored under `k`, if any. */
  function Get<K(==, !new), V>(d: Dict<K, V>, k: K): (r: Option<V>)
    ensures r.None? <==> k !in Keys(d)
  {
    if |d| == 0 then None
    else if d[0].0 == k then Some(d[0].1)
    else
      var r := Get(d[1..], k);
      assert Keys(d) == [d[0].0] + Keys(d[1..]);
      r
  }

  /** In a dictionary without repeated keys, each entry is what `Get` finds. */
  lemma {:induction false} GetEntry<K(!new), V>(d: Dict<K, V>, i: nat)
    requires UniqueKeys(d) && i < |d|
    ensures Get(d, d[i].0) == Some(d[i].1)
    decreases i
  {
    if i > 0 {
      assert Keys(d) == [d[0].0] + Keys(d[1..]);
      assert UniqueKeys(d[1..]) by {
        assert forall j :: 0 <= j < |d| - 1 ==> Keys(d[1..])[j] == Keys(d)[j + 1];
      }
      KeyAt(d, 0);
      KeyAt(d, i);
      assert Keys(d)[0] != Keys(d)[i];
      GetEntry(d[1..], i - 1);
    }
  }

  /** `d[k] = v`. */
  function Put<K(==, !new), V>(d: Dict<K, V>, k: K, v: V): (r: Dict<K, V>)
    ensures Get(r, k) == Some(v)
    ensures k in Keys(d) ==> Keys(r) == Keys(d)
    ensures k !in Keys(d) ==> Keys(r) == Keys(d) + [k]
  {
    if |d| == 0 then [(k, v)]
    else if d[0].0 == k then
      assert Keys(d) == [k] + Keys(d[1..]);
      [(k, v)] + d[1..]
    else
      var r := [d[0]] + Put(d[1..], k, v);
      assert Keys(d) == [d[0].0] + Keys(d[1..]);
      assert Keys(r) == [d[0].0] + Keys(Put(d[1..], k, v));
      r
  }

  /** Writing `k` leaves every other key's entry as it was. */
  lemma {:induction false} GetPutOther<K(!new), V>(d: Dict<K, V>, k: K, v: V, k2: K)
    requires k2 != k
    ensures Get(Put(d, k, v), k2) == Get(d, k2)
    decreases |d|
  {
    if |d| > 0 && d[0].0 != k {
      GetPutOther(d[1..], k, v, k2);
    }
  }

  /** Writing a key never creates a duplicate key. */
  lemma PutKeepsUnique<K(!new), V>(d: Dict<K, V>, k: K, v: V)
    requires UniqueKeys(d)
    ensures UniqueKeys(Put(d, k, v))
  {
    var ks, rs := Keys(d), Keys(Put(d, k, v));
    if k !in ks {
      forall i, j | 0 <= i < j < |rs|
        ensures rs[i] != rs[j]
      {
        if j == |ks| {
          assert rs[i] == ks[i];
        }
      }
    }
  }

  /** `dict(ps)`: a later pair overwrites an earlier one with the same key. */
  function FromPairs<K(==, !new), V>(ps: seq<(K, V)>): (d: Dict<K, V>)
    ensures UniqueKeys(d)
    ensures forall k :: k in Keys(d) <==> exists i :: 0 <= i < |ps| && ps[i].0 == k
    decreases |ps|
  {
    if |ps| == 0 then []
    else
      var d0 := FromPairs(ps[..|ps| - 1]);
      var d := Put(d0, ps[|ps| - 1].0, ps[|ps| - 1].1);
      PutKeepsUnique(d0, ps[|ps| - 1].0, ps[|ps| - 1].1);
      assert forall i :: 0 <= i < |ps| - 1 ==> ps[..|ps| - 1][i] == ps[i];
      d
  }
}
