/** Python dicts with string keys: the keys in insertion order together with the mapping. */
module Dicts {

  datatype RawDict<V> = RawDict(keys: seq<string>, vals: map<string, V>)

  /** Keys are listed once each, and exactly the mapped keys are listed. */
  predicate WellFormed<V>(d: RawDict<V>)
  {
    && (forall i, j :: 0 <= i < j < |d.keys| ==> d.keys[i] != d.keys[j])
    && (forall k :: k in d.keys ==> k in d.vals)
    && (forall k {:trigger k in d.keys} :: k in d.vals ==> k in d.keys)
  }

  type Dict<V> = d: RawDict<V> | WellFormed(d) witness RawDict([], map[])

  predicate Distinct(ks: seq<string>)
  {
    forall i, j :: 0 <= i < j < |ks| ==> ks[i] != ks[j]
  }

  function Empty<V>(): (r: Dict<V>)
    ensures r.keys == [] && r.vals == map[]
  {
    RawDict([], map[])
  }

  /** `d.get(k, dflt)` */
  function GetOr<V>(d: Dict<V>, k: string, dflt: V): V
  {
    if k in d.vals then d.vals[k] else dflt
  }

  /** `d[k] = v`: a new key goes to the end, an existing key keeps its place. */
  function Put<V>(d: Dict<V>, k: string, v: V): (r: Dict<V>)
    ensures r.vals == d.vals[k := v]
    ensures r.keys == if k in d.vals then d.keys else d.keys + [k]
  {
    if k in d.vals then RawDict(d.keys, d.vals[k := v])
    else RawDict(d.keys + [k], d.vals[k := v])
  }

  /** The keys without `k`, in the same order. */
  function Remove(ks: seq<string>, k: string): (r: seq<string>)
    ensures forall x :: x in r <==> x in ks && x != k
    ensures Distinct(ks) ==> Distinct(r)
  {
    if ks == [] then []
    else
      var init, last := ks[..|ks| - 1], ks[|ks| - 1];
      var rest := Remove(init, k);
      assert forall x :: x in ks <==> x in init || x == last;
      assert Distinct(ks) ==> Distinct(init) && last !in init;
      if ks[|ks| - 1] == k then rest else rest + [ks[|ks| - 1]]
  }

  /** `del d[k]` (`d.__delitem__(k)`), for a key that is present. */
  function Del<V>(d: Dict<V>, k: string): (r: Dict<V>)
    requires k in d.vals
    ensures r.vals == d.vals - {k}
    ensures r.keys == Remove(d.keys, k)
  {
    RawDict(Remove(d.keys, k), d.vals - {k})
  }

  /** Put for every key of `ks`, in order, with its value in `m`. */
  function PutAll<V>(d: Dict<V>, ks: seq<string>, m: map<string, V>): (r: Dict<V>)
    requires forall k :: k in ks ==> k in m
    ensures r.vals.Keys == d.vals.Keys + set k | k in ks
    ensures forall k :: k in r.vals ==> r.vals[k] == if k in ks then m[k] else d.vals[k]
  {
    if ks == [] then d
    else
      var init, last := ks[..|ks| - 1], ks[|ks| - 1];
      assert forall x :: x in ks <==> x in init || x == last;
      Put(PutAll(d, init, m), last, m[last])
  }

  /** `d.update(e)` */
  function Update<V>(d: Dict<V>, e: Dict<V>): (r: Dict<V>)
    ensures r.vals == d.vals + e.vals
  {
    var r := PutAll(d, e.keys, e.vals);
    assert r.vals == d.vals + e.vals;
    r
  }

  /** `list(d.items())` */
  function Items<V>(d: Dict<V>): (r: seq<(string, V)>)
    ensures |r| == |d.keys|
    ensures forall i :: 0 <= i < |r| ==> r[i] == (d.keys[i], d.vals[d.keys[i]])
  {
    seq(|d.keys|, i requires 0 <= i < |d.keys| => (d.keys[i], d.vals[d.keys[i]]))
  }

  /** The sum of the values of the listed keys. */
  function SumOf(ks: seq<string>, m: map<string, real>): real
    requires forall k :: k in ks ==> k in m
  {
    if ks == [] then 0.0 else SumOf(ks[..|ks| - 1], m) + m[ks[|ks| - 1]]
  }

  /** `sum(d.values())` */
  function Total(d: Dict<real>): real
  {
    SumOf(d.keys, d.vals)
  }

  /** The loop `total = 0; for value in d.values(): total += value`. */
  method SumValues(d: Dict<real>) returns (total: real)
    ensures total == Total(d)
  {
    total := 0.0;
    for i := 0 to |d.keys|
      invariant total == SumOf(d.keys[..i], d.vals)
    {
      assert d.keys[..i + 1][..i] == d.keys[..i];
      total := total + d.vals[d.keys[i]];
    }
    assert d.keys[..|d.keys|] == d.keys;
  }

  lemma {:induction false} SumOfFrame(ks: seq<string>, m: map<string, real>, k: string, v: real)
    requires forall x :: x in ks ==> x in m
    requires k !in ks
    ensures SumOf(ks, m[k := v]) == SumOf(ks, m)
  {
    if ks != [] {
      assert ks[|ks| - 1] in ks;
      SumOfFrame(ks[..|ks| - 1], m, k, v);
    }
  }

  lemma {:induction false} SumOfUpdate(ks: seq<string>, m: map<string, real>, k: string, v: real)
    requires forall x :: x in ks ==> x in m
    requires Distinct(ks) && k in ks
    ensures SumOf(ks, m[k := v]) == SumOf(ks, m) - m[k] + v
  {
    var init, last := ks[..|ks| - 1], ks[|ks| - 1];
    assert ks == init + [last];
    if last == k {
      assert k !in init;
      SumOfFrame(init, m, k, v);
    } else {
      assert k in init;
      SumOfUpdate(init, m, k, v);
    }
  }

  /** `d[k] = d.get(k, 0) + w`: the weight `w` added to what `d` holds under `k`. */
  function AddTo(d: Dict<real>, k: string, w: real): Dict<real>
  {
    Put(d, k, GetOr(d, k, 0.0) + w)
  }

  /** Adding `w` under one key adds `w` to the sum of the values. */
  lemma TotalAddTo(d: Dict<real>, k: string, w: real)
    ensures Total(AddTo(d, k, w)) == Total(d) + w
  {
    var v := GetOr(d, k, 0.0) + w;
    if k in d.vals {
      assert v == d.vals[k] + w;
      SumOfUpdate(d.keys, d.vals, k, v);
      assert AddTo(d, k, w) == RawDict(d.keys, d.vals[k := v]);
    } else {
      SumOfFrame(d.keys, d.vals, k, v);
      assert AddTo(d, k, w) == RawDict(d.keys + [k], d.vals[k := v]);
      assert (d.keys + [k])[..|d.keys|] == d.keys;
    }
  }
}
