/**
 * Python's `dict` with string keys: an insertion-ordered sequence of
 * (key, value) pairs in which no key occurs twice. Assigning to a key that
 * is already present replaces its value in place and keeps its position.
 */
module PyDict {
  import opened Common

  predicate DistinctKeys<V>(d: seq<(string, V)>) {
    forall i, j :: 0 <= i < j < |d| ==> d[i].0 != d[j].0
  }

  type Dict<V> = d: seq<(string, V)> | DistinctKeys(d)

  /** `list(d.keys())`, in insertion order. */
  function Keys<V>(d: seq<(string, V)>): seq<string> {
    seq(|d|, i requires 0 <= i < |d| => d[i].0)
  }

  /** `d.get(k)`: the value stored under `k`, if any. */
  function Get<V>(d: Dict<V>, k: string): (r: Option<V>)
    ensures r.Some? <==> k in Keys(d)
    ensures forall i :: 0 <= i < |d| && d[i].0 == k ==> r == Some(d[i].1)
  {
    if d == [] then None
    else if d[0].0 == k then
      assert Keys(d)[0] == k;
      Some(d[0].1)
    else
      var r := Get(d[1..], k);
      assert Keys(d) == [d[0].0] + Keys(d[1..]);
      r
  }

  /** The position of key `k` in `d`. */
  function KeyIndex<V>(d: seq<(string, V)>, k: string): (i: nat)
    requires k in Keys(d)
    ensures i < |d| && d[i].0 == k
  {
    if d[0].0 == k then 0
    else
      assert Keys(d) == [d[0].0] + Keys(d[1..]);
      1 + KeyIndex(d[1..], k)
  }

  /**
   * `d[k] = v`: afterwards `k` maps to `v`, every other key keeps its value,
   * and the key order is unchanged unless `k` is new, which goes last.
   */
  function Put<V>(d: Dict<V>, k: string, v: V): (r: Dict<V>)
    ensures Keys(r) == if k in Keys(d) then Keys(d) else Keys(d) + [k]
    ensures Get(r, k) == Some(v)
    ensures forall k' :: k' != k ==> Get(r, k') == Get(d, k')
  {
    if k in Keys(d) then
      var i := KeyIndex(d, k);
      var r := d[i := (k, v)];
      assert Keys(r) == Keys(d);
      assert DistinctKeys(r);
      r
    else
      var r := d + [(k, v)];
      assert forall j :: 0 <= j < |d| ==> Keys(d)[j] == d[j].0 != k;
      assert Keys(r) == Keys(d) + [k];
      assert DistinctKeys(r);
      r
  }

  /** Every pair of `d[k] = v` is the new pair or one that was already there. */
  lemma PutElements<V>(d: Dict<V>, k: string, v: V)
    ensures forall e :: e in Put(d, k, v) ==> e == (k, v) || e in d
  {
    var r := Put(d, k, v);
    forall e | e in r
      ensures e == (k, v) || e in d
    {
      var j :| 0 <= j < |r| && r[j] == e;
      assert Keys(r)[j] == r[j].0;
      if r[j].0 != k {
        assert Get(r, r[j].0) == Some(r[j].1);
        var i := KeyIndex(d, r[j].0);
        assert d[i] == r[j];
      } else {
        assert Get(r, k) == Some(r[j].1);
      }
    }
  }
}
