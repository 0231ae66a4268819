/**
 * Python's dict as the simulator uses it: an insertion-ordered table of
 * key/value pairs. Assigning to an existing key replaces its value in place;
 * assigning to a new key appends it at the end.
 */
module Dict {
  import opened Wrappers
  import opened Seqs

  type Dict<K, V> = seq<(K, V)>

  /** The keys in iteration order (`d.keys()`). */
  function Keys<K, V>(d: Dict<K, V>): (ks: seq<K>)
    ensures |ks| == |d|
  {
    seq(|d|, i requires 0 <= i < |d| => d[i].0)
  }

  /** The values in iteration order (`d.values()`). */
  function Values<K, V>(d: Dict<K, V>): (vs: seq<V>)
    ensures |vs| == |d|
  {
    seq(|d|, i requires 0 <= i < |d| => d[i].1)
  }

  lemma KeysCons<K, V>(p: (K, V), d: Dict<K, V>)
    ensures Keys([p] + d) == [p.0] + Keys(d)
  {
  }

  lemma KeysSnoc<K, V>(d: Dict<K, V>, p: (K, V))
    ensures Keys(d + [p]) == Keys(d) + [p.0]
  {
  }

  lemma KeysAt<K, V>(d: Dict<K, V>, i: int)
    requires 0 <= i < |d|
    ensures Keys(d)[i] == d[i].0
  {
  }

  /** Every key occurs once: the shape every Python dict has. */
  predicate Keyed<K(==), V>(d: Dict<K, V>)
  {
    Distinct(Keys(d))
  }

  /** `d.get(k)`: the value stored under `k`, if any. */
  function Get<K(==), V>(d: Dict<K, V>, k: K): (r: Option<V>)
    ensures r.None? <==> k !in Keys(d)
    ensures r.Some? ==> (k, r.value) in d
  {
    if |d| == 0 then None
    else if d[0].0 == k then KeysAt(d, 0); Some(d[0].1)
    else
      KeysCons(d[0], d[1..]);
      assert d == [d[0]] + d[1..];
      Get(d[1..], k)
  }

  /** In a dict with distinct keys, the pair stored at any position is what `get` finds. */
  lemma {:induction false} GetAt<K, V>(d: Dict<K, V>, i: int)
    requires Keyed(d) && 0 <= i < |d|
    ensures Get(d, d[i].0) == Some(d[i].1)
  {
    if d[0].0 != d[i].0 {
      KeysCons(d[0], d[1..]);
      assert d == [d[0]] + d[1..];
      DistinctCons(d[0].0, Keys(d[1..]));
      assert d[1..][i - 1] == d[i];
      GetAt(d[1..], i - 1);
    } else {
      assert Keys(d)[0] == d[0].0 && Keys(d)[i] == d[i].0;
    }
  }

  /** `d[k]`, which raises KeyError when `k` is absent. */
  function Lookup<K(==), V>(d: Dict<K, V>, k: K): V
    requires k in Keys(d)
  {
    Get(d, k).value
  }

  /** `d[k] = v`. */
  function Put<K(==,!new), V>(d: Dict<K, V>, k: K, v: V): (r: Dict<K, V>)
    ensures Keys(r) == if k in Keys(d) then Keys(d) else Keys(d) + [k]
    ensures Keyed(d) ==> Keyed(r)
    ensures Get(r, k) == Some(v)
    ensures forall k' :: k' != k ==> Get(r, k') == Get(d, k')
  {
    if |d| == 0 then [(k, v)]
    else if d[0].0 == k then
      PutHere(d, v);
      [(k, v)] + d[1..]
    else
      var rest := Put(d[1..], k, v);
      PutFurther(d, k, v, rest);
      [d[0]] + rest
  }

  /** Overwriting the first pair's value keeps every key and every other lookup. */
  lemma PutHere<K(!new), V>(d: Dict<K, V>, v: V)
    requires |d| > 0
    ensures var k, r := d[0].0, [(d[0].0, v)] + d[1..];
      Keys(r) == Keys(d) && Get(r, k) == Some(v) && forall k' :: k' != k ==> Get(r, k') == Get(d, k')
  {
    var r := [(d[0].0, v)] + d[1..];
    SameKeysHere(d, v);
    forall k' | k' != d[0].0
      ensures Get(r, k') == Get(d, k')
    {
      assert r[1..] == d[1..];
    }
  }

  /** Overwriting the first pair's value keeps the keys. */
  lemma SameKeysHere<K, V>(d: Dict<K, V>, v: V)
    requires |d| > 0
    ensures Keys([(d[0].0, v)] + d[1..]) == Keys(d)
  {
    assert d == [d[0]] + d[1..];
    KeysCons(d[0], d[1..]);
    KeysCons((d[0].0, v), d[1..]);
  }

  /** Putting into the tail of a dict whose first key differs puts into the whole dict. */
  lemma PutFurther<K(!new), V>(d: Dict<K, V>, k: K, v: V, rest: Dict<K, V>)
    requires |d| > 0 && d[0].0 != k
    requires Keys(rest) == if k in Keys(d[1..]) then Keys(d[1..]) else Keys(d[1..]) + [k]
    requires Keyed(d[1..]) ==> Keyed(rest)
    requires Get(rest, k) == Some(v)
    requires forall k' :: k' != k ==> Get(rest, k') == Get(d[1..], k')
    ensures var r := [d[0]] + rest;
      Keys(r) == (if k in Keys(d) then Keys(d) else Keys(d) + [k]) && (Keyed(d) ==> Keyed(r))
      && Get(r, k) == Some(v) && forall k' :: k' != k ==> Get(r, k') == Get(d, k')
  {
    var r := [d[0]] + rest;
    KeysFurther(d, k, rest);
    assert r[1..] == rest;
    forall k' | k' != k
      ensures Get(r, k') == Get(d, k')
    {
      if k' != d[0].0 {
        assert Get(d, k') == Get(d[1..], k');
      }
    }
  }

  /** The keys after putting into the tail of a dict whose first key differs. */
  lemma KeysFurther<K(!new), V>(d: Dict<K, V>, k: K, rest: Dict<K, V>)
    requires |d| > 0 && d[0].0 != k
    requires Keys(rest) == if k in Keys(d[1..]) then Keys(d[1..]) else Keys(d[1..]) + [k]
    requires Keyed(d[1..]) ==> Keyed(rest)
    ensures var r := [d[0]] + rest;
      Keys(r) == (if k in Keys(d) then Keys(d) else Keys(d) + [k]) && (Keyed(d) ==> Keyed(r))
  {
    assert d == [d[0]] + d[1..];
    KeysCons(d[0], d[1..]);
    KeysCons(d[0], rest);
    assert k in Keys(d) <==> k in Keys(d[1..]);
    if Keyed(d) {
      DistinctCons(d[0].0, Keys(d[1..]));
      DistinctCons(d[0].0, Keys(rest));
    }
  }

  /** No pair after position `j` assigns the key assigned at `j`. */
  predicate LastWithKey<K(==), V>(ps: seq<(K, V)>, j: int)
    requires 0 <= j < |ps|
  {
    forall j' :: j < j' < |ps| ==> ps[j'].0 != ps[j].0
  }

  /**
   * The dict filled by assigning the pairs of `ps` one after the other: it
   * holds each key once, in order of first assignment, with the value of the
   * last assignment.
   */
  function FromPairs<K(==,!new), V>(ps: seq<(K, V)>): (d: Dict<K, V>)
    ensures Keyed(d)
    ensures Keys(d) == Dedup(Keys(ps))
    ensures forall j :: 0 <= j < |ps| && LastWithKey(ps, j) ==> Get(d, ps[j].0) == Some(ps[j].1)
  {
    if |ps| == 0 then []
    else
      var di := FromPairs(ps[..|ps| - 1]);
      FromPairsStep(ps, di);
      Put(di, ps[|ps| - 1].0, ps[|ps| - 1].1)
  }

  /** Assigning the last pair to the dict filled from the others fills the dict from all of them. */
  lemma FromPairsStep<K(!new), V>(ps: seq<(K, V)>, di: Dict<K, V>)
    requires |ps| > 0
    requires Keyed(di) && Keys(di) == Dedup(Keys(ps[..|ps| - 1]))
    requires forall j :: 0 <= j < |ps| - 1 && LastWithKey(ps[..|ps| - 1], j) ==> Get(di, ps[j].0) == Some(ps[j].1)
    ensures var d := Put(di, ps[|ps| - 1].0, ps[|ps| - 1].1);
      Keyed(d) && Keys(d) == Dedup(Keys(ps))
      && forall j :: 0 <= j < |ps| && LastWithKey(ps, j) ==> Get(d, ps[j].0) == Some(ps[j].1)
  {
    var init, last := ps[..|ps| - 1], ps[|ps| - 1];
    assert ps == init + [last];
    KeysSnoc(init, last);
    assert Keys(ps)[..|ps| - 1] == Keys(init);
    var d := Put(di, last.0, last.1);
    forall j | 0 <= j < |ps| && LastWithKey(ps, j)
      ensures Get(d, ps[j].0) == Some(ps[j].1)
    {
      if j < |init| {
        assert ps[j].0 != last.0;
        forall j' | j < j' < |init|
          ensures init[j'].0 != init[j].0
        {
          assert ps[j'] == init[j'];
        }
        assert LastWithKey(init, j);
      }
    }
  }

  /** Assigning a fresh key appends it. */
  lemma {:induction false} PutFresh<K(!new), V>(d: Dict<K, V>, k: K, v: V)
    requires k !in Keys(d)
    ensures Put(d, k, v) == d + [(k, v)]
  {
    if |d| > 0 {
      KeysCons(d[0], d[1..]);
      assert d == [d[0]] + d[1..];
      PutFresh(d[1..], k, v);
    }
  }

  /** Assigning pairs whose keys are already distinct yields exactly those pairs, in order. */
  lemma {:induction false} FromDistinctPairs<K(!new), V>(ps: seq<(K, V)>)
    requires Keyed(ps)
    ensures FromPairs(ps) == ps
  {
    if |ps| > 0 {
      var init := ps[..|ps| - 1];
      assert ps == init + [ps[|ps| - 1]];
      KeysSnoc(init, ps[|ps| - 1]);
      DistinctSnoc(Keys(init), ps[|ps| - 1].0);
      FromDistinctPairs(init);
      PutFresh(init, ps[|ps| - 1].0, ps[|ps| - 1].1);
    }
  }

  /** `dict(zip(ks, vs))`. */
  function Zip<K, V>(ks: seq<K>, vs: seq<V>): (d: Dict<K, V>)
    requires |ks| == |vs|
    ensures Keys(d) == ks && Values(d) == vs
  {
    seq(|ks|, i requires 0 <= i < |ks| => (ks[i], vs[i]))
  }

  /** The last assignment of the key assigned at position `i`. */
  lemma LastOccurrence<K, V>(ps: seq<(K, V)>, i: int) returns (j: int)
    requires 0 <= i < |ps|
    ensures i <= j < |ps| && ps[j].0 == ps[i].0 && LastWithKey(ps, j)
  {
    j := |ps| - 1;
    while ps[j].0 != ps[i].0
      invariant i <= j < |ps|
      invariant forall j' :: j < j' < |ps| ==> ps[j'].0 != ps[i].0
      decreases j
    {
      j := j - 1;
    }
  }

  /** A dict is the zip of its keys and values. */
  lemma ZipKeysValues<K, V>(d: Dict<K, V>)
    ensures Zip(Keys(d), Values(d)) == d
  {
  }
}
