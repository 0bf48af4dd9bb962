/** Python's insertion-ordered `dict`, as an association list.
    Assigning `d[k] = v` overwrites the value of an existing key in place and
    appends a new key at the end, so the key order is the order of first
    insertion. */
module Dicts {
  import opened Results

  type Dict<K, V> = seq<(K, V)>

  function Keys<K, V>(d: Dict<K, V>): (ks: seq<K>)
    ensures |ks| == |d|
    ensures forall i :: 0 <= i < |d| ==> ks[i] == d[i].0
  {
    seq(|d|, i requires 0 <= i < |d| => d[i].0)
  }

  predicate UniqueKeys<K(==), V>(d: Dict<K, V>) {
    forall i, j :: 0 <= i < j < |d| ==> d[i].0 != d[j].0
  }

  /** Position of the first entry holding `k`. */
  function IndexOf<K(==), V>(d: Dict<K, V>, k: K): (i: nat)
    requires k in Keys(d)
    ensures i < |d| && d[i].0 == k
    ensures forall j :: 0 <= j < i ==> d[j].0 != k
  {
    if d[0].0 == k then 0
    else
      assert Keys(d) == [d[0].0] + Keys(d[1..]);
      1 + IndexOf(d[1..], k)
  }

  /** The first position holding `k` is determined by the keys alone. */
  lemma IndexOfIsFirst<K, V>(d: Dict<K, V>, k: K, i: nat)
    requires i < |d| && d[i].0 == k
    requires forall j :: 0 <= j < i ==> d[j].0 != k
    ensures k in Keys(d) && IndexOf(d, k) == i
  {
    assert Keys(d)[i] == k;
  }

  /** Looking a key up; `None` where Python raises KeyError. */
  function Get<K(==), V>(d: Dict<K, V>, k: K): (r: Option<V>)
    ensures r.None? <==> k !in Keys(d)
  {
    if k in Keys(d) then Some(d[IndexOf(d, k)].1) else None
  }

  /** `d[k] = v`. */
  function Put<K(==,!new), V>(d: Dict<K, V>, k: K, v: V): (r: Dict<K, V>)
    ensures |r| == |d| + (if k in Keys(d) then 0 else 1)
    ensures UniqueKeys(d) ==> UniqueKeys(r)
    ensures Get(r, k) == Some(v)
    ensures forall k' :: k' != k ==> Get(r, k') == Get(d, k')
    ensures k in Keys(d) ==> Keys(r) == Keys(d)
    ensures k !in Keys(d) ==> Keys(r) == Keys(d) + [k]
  {
    if k in Keys(d) then
      var r := d[IndexOf(d, k) := (k, v)];
      assert Keys(r) == Keys(d);
      IndexOfIsFirst(r, k, IndexOf(d, k));
      forall k' | k' in Keys(d) && k' != k ensures IndexOf(r, k') == IndexOf(d, k') {
        IndexOfIsFirst(r, k', IndexOf(d, k'));
      }
      r
    else
      var r := d + [(k, v)];
      assert Keys(r) == Keys(d) + [k];
      forall k' | k' in Keys(d) ensures IndexOf(r, k') == IndexOf(d, k') {
        IndexOfIsFirst(r, k', IndexOf(d, k'));
      }
      r
  }

  /** The dict left by assigning the pairs one after the other. */
  function FromPairs<K(==,!new), V>(ps: seq<(K, V)>): (d: Dict<K, V>)
    ensures UniqueKeys(d)
    ensures forall k :: k in Keys(d) <==> exists i :: 0 <= i < |ps| && ps[i].0 == k
  {
    if |ps| == 0 then []
    else
      var init := ps[..|ps| - 1];
      var d := Put(FromPairs(init), ps[|ps| - 1].0, ps[|ps| - 1].1);
      assert forall i :: 0 <= i < |init| ==> init[i] == ps[i];
      d
  }

  predicate DistinctKeys<K(==), V>(ps: seq<(K, V)>) {
    forall i, j :: 0 <= i < j < |ps| ==> ps[i].0 != ps[j].0
  }

  /** Pairs whose keys are all different are stored as given, in order. */
  lemma {:induction false} FromDistinctPairs<K(!new), V>(ps: seq<(K, V)>)
    requires DistinctKeys(ps)
    ensures FromPairs(ps) == ps
  {
    if |ps| > 0 {
      var init := ps[..|ps| - 1];
      FromDistinctPairs(init);
      var k := ps[|ps| - 1].0;
      assert k !in Keys(init);
    }
  }

  /** The dict after the last assignment is the dict before it, updated. */
  lemma FromPairsSnoc<K(!new), V>(ps: seq<(K, V)>)
    requires |ps| > 0
    ensures FromPairs(ps) == Put(FromPairs(ps[..|ps| - 1]), ps[|ps| - 1].0, ps[|ps| - 1].1)
  {
  }

  /** After the assignments, a key holds the value of its last assignment. */
  lemma {:induction false} FromPairsGet<K(!new), V>(ps: seq<(K, V)>, k: K, i: nat)
    requires i < |ps| && ps[i].0 == k
    requires forall j :: i < j < |ps| ==> ps[j].0 != k
    ensures Get(FromPairs(ps), k) == Some(ps[i].1)
  {
    var n := |ps| - 1;
    FromPairsSnoc(ps);
    if i < n {
      var init := ps[..n];
      assert init[i] == ps[i];
      FromPairsGet(init, k, i);
      assert ps[n].0 != k;
    }
  }

  /** A key of the resulting dict holds the value of one of its
      assignments. */
  lemma {:induction false} FromPairsGetSome<K(!new), V>(ps: seq<(K, V)>, k: K) returns (i: nat)
    requires k in Keys(FromPairs(ps))
    ensures i < |ps| && ps[i].0 == k && Get(FromPairs(ps), k) == Some(ps[i].1)
  {
    var n := |ps| - 1;
    if ps[n].0 == k {
      i := n;
    } else {
      var init := ps[..n];
      var j :| 0 <= j < |ps| && ps[j].0 == k;
      assert init[j] == ps[j];
      i := FromPairsGetSome(init, k);
      assert ps[i] == init[i];
    }
  }

  /** Two runs of assignments to the same keys in the same order that
      assign `k` the same values leave `k` with the same value. */
  lemma {:induction false} FromPairsGetAgree<K(!new), V>(a: seq<(K, V)>, b: seq<(K, V)>, k: K)
    requires |a| == |b|
    requires forall i :: 0 <= i < |a| ==> a[i].0 == b[i].0
    requires forall i :: 0 <= i < |a| && a[i].0 == k ==> a[i].1 == b[i].1
    ensures Get(FromPairs(a), k) == Get(FromPairs(b), k)
  {
    if |a| > 0 {
      var n := |a| - 1;
      FromPairsSnoc(a);
      FromPairsSnoc(b);
      FromPairsGetAgree(a[..n], b[..n], k);
    }
  }
}
