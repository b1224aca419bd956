/** Python's insertion-ordered `dict` with string keys, as a sequence of pairs.
    `Put` is the statement `d[k] = v`: an existing key keeps its position and
    gets the new value, a new key is appended at the end. */
module OrderedDict {
  import opened Wrappers

  type Dict<V> = seq<(string, V)>

  function Keys<V>(d: Dict<V>): (ks: seq<string>)
    ensures |ks| == |d|
    ensures forall i :: 0 <= i < |d| ==> ks[i] == d[i].0
  {
    seq(|d|, i requires 0 <= i < |d| => d[i].0)
  }

  /** No key occurs twice: true of every dictionary the source builds. */
  predicate UniqueKeys<V>(d: Dict<V>) {
    forall i, j :: 0 <= i < j < |d| ==> d[i].0 != d[j].0
  }

  lemma FirstKey<V>(d: Dict<V>)
    ensures d != [] ==> d[0].0 in Keys(d)
  {
  }

  /** The position of the first entry with key `k` at or after `start`. */
  function IndexFrom<V>(d: Dict<V>, k: string, start: nat): (i: nat)
    requires start <= |d| && exists j :: start <= j < |d| && d[j].0 == k
    ensures start <= i < |d| && d[i].0 == k
    ensures forall j :: start <= j < i ==> d[j].0 != k
    decreases |d| - start
  {
    if d[start].0 == k then start else IndexFrom(d, k, start + 1)
  }

  /** The position of the first entry with key `k`. */
  function IndexOf<V>(d: Dict<V>, k: string): (i: nat)
    requires k in Keys(d)
    ensures i < |d| && d[i].0 == k
    ensures forall j :: 0 <= j < i ==> d[j].0 != k
  {
    var ks := Keys(d);
    var j :| 0 <= j < |ks| && ks[j] == k;
    assert d[j].0 == k;
    IndexFrom(d, k, 0)
  }

  /** `d.get(k)`: the value stored under `k`, if any. */
  function Get<V>(d: Dict<V>, k: string): (r: Option<V>)
    ensures r.None? <==> k !in Keys(d)
  {
    if k in Keys(d) then Some(d[IndexOf(d, k)].1) else None
  }

  /** Looking up in a dictionary whose first entry is `x`. */
  lemma GetCons<V>(x: (string, V), rest: Dict<V>, k: string)
    ensures Get([x] + rest, k) == if x.0 == k then Some(x.1) else Get(rest, k)
  {
    var d := [x] + rest;
    var kd, kr := Keys(d), Keys(rest);
    if x.0 == k {
      assert kd[0] == k;
      var i := IndexOf(d, k);
      assert i == 0;
    } else {
      if k in kr {
        var n := IndexOf(rest, k);
        assert d[n + 1] == rest[n];
        assert kd[n + 1] == k;
        var i := IndexOf(d, k);
        assert d[i] == rest[i - 1];
        assert i == n + 1;
      }
    }
  }

  lemma GetUnique<V>(d: Dict<V>, i: nat)
    requires UniqueKeys(d) && i < |d|
    ensures Get(d, d[i].0) == Some(d[i].1)
  {
    assert Keys(d)[i] == d[i].0;
  }

  function Put<V>(d: Dict<V>, k: string, v: V): (r: Dict<V>)
    ensures k in Keys(d) ==> Keys(r) == Keys(d)
    ensures k !in Keys(d) ==> Keys(r) == Keys(d) + [k]
    ensures Get(r, k) == Some(v)
    ensures forall k' :: k' != k ==> Get(r, k') == Get(d, k')
  {
    if k in Keys(d) then
      var i := IndexOf(d, k);
      var r := d[i := (k, v)];
      assert Keys(r) == Keys(d);
      assert IndexOf(r, k) == i;
      assert forall k' :: k' != k && k' in Keys(d) ==> IndexOf(r, k') == IndexOf(d, k');
      r
    else
      var r := d + [(k, v)];
      assert Keys(r) == Keys(d) + [k];
      assert IndexOf(r, k) == |d|;
      forall k' | k' != k && k' in Keys(d) ensures IndexOf(r, k') == IndexOf(d, k') {
        var n := IndexOf(d, k');
        assert r[n] == d[n];
        assert forall j :: 0 <= j < n ==> r[j] == d[j];
      }
      r
  }

  /** Keys that were distinct stay distinct after `d[k] = v`. */
  lemma PutUnique<V>(d: Dict<V>, k: string, v: V)
    requires UniqueKeys(d)
    ensures UniqueKeys(Put(d, k, v))
  {
    var r := Put(d, k, v);
    var kd, kr := Keys(d), Keys(r);
    forall i, j | 0 <= i < j < |r| ensures r[i].0 != r[j].0 {
      assert kr[i] == r[i].0 && kr[j] == r[j].0;
      if j < |d| {
        assert kr[..|d|] == kd;
      }
    }
  }
}
