/** The per-line logic of the file stages: `reduceorder`, `filter`, `normalise`, `maketotals`,
    `load_vectors`, `output` and the thresholds of `load_rowtotals`/`load_coltotals`.
    A line `entry<TAB>f1<TAB>w1<TAB>f2<TAB>w2...` is given as the entry and its pairs
    [(f1, w1), (f2, w2), ...]. The stages take pairs off the end with `pop()`, so what a
    stage writes comes out last pair first. */
module Lines {
  import opened Dicts
  import opened Codec
  import opened Words
  import opened Outcomes

  datatype Line<W> = Line(entry: string, feats: seq<(string, W)>)

  /** The test a filter applies to each feature. */
  datatype FeatureTest =
    | OrderWindow(minorder: int, maxorder: int)
    | ColumnThreshold(coltotals: Dict<real>, filterfreq: int)

  predicate Passes(t: FeatureTest, feat: string)
  {
    match t
    case OrderWindow(lo, hi) => lo <= Order(feat) <= hi
    case ColumnThreshold(coltotals, filterfreq) => GetOr(coltotals, feat, 0.0) > filterfreq as real
  }

  /** The pairs that pass, in the order a `pop()` loop meets them: last pair first. */
  function Kept<W>(ps: seq<(string, W)>, t: FeatureTest): seq<(string, W)>
  {
    if ps == [] then []
    else
      var last := ps[|ps| - 1];
      (if Passes(t, last.0) then [last] else []) + Kept(ps[..|ps| - 1], t)
  }

  /** The pairs that pass, in input order. */
  function Filter<W>(ps: seq<(string, W)>, t: FeatureTest): seq<(string, W)>
  {
    if ps == [] then []
    else (if Passes(t, ps[0].0) then [ps[0]] else []) + Filter(ps[1..], t)
  }

  function Reversed<T>(s: seq<T>): seq<T>
  {
    if s == [] then [] else [s[|s| - 1]] + Reversed(s[..|s| - 1])
  }

  /** What a stage writes for a line: nothing when no pair is left. */
  function Emit<W>(entry: string, feats: seq<(string, W)>): Option<Line<W>>
  {
    if feats == [] then None else Some(Line(entry, feats))
  }

  lemma {:induction false} FilterSnoc<W>(ps: seq<(string, W)>, x: (string, W), t: FeatureTest)
    ensures Filter(ps + [x], t) == Filter(ps, t) + if Passes(t, x.0) then [x] else []
  {
    if ps != [] {
      assert (ps + [x])[1..] == ps[1..] + [x];
      FilterSnoc(ps[1..], x, t);
    }
  }

  /** A pop-loop filter keeps what the in-order filter keeps, in reverse order. */
  lemma {:induction false} KeptIsReversedFilter<W>(ps: seq<(string, W)>, t: FeatureTest)
    ensures Kept(ps, t) == Reversed(Filter(ps, t))
  {
    if ps != [] {
      var init, last := ps[..|ps| - 1], ps[|ps| - 1];
      assert ps == init + [last];
      KeptIsReversedFilter(init, t);
      FilterSnoc(init, last, t);
      assert Kept(ps, t) == (if Passes(t, last.0) then [last] else []) + Kept(init, t);
      if Passes(t, last.0) {
        var f := Filter(init, t) + [last];
        assert f[..|f| - 1] == Filter(init, t);
        assert Reversed(f) == [last] + Reversed(Filter(init, t));
      } else {
        assert Filter(ps, t) == Filter(init, t);
      }
    }
  }

  /** The in-order filter keeps exactly the pairs that pass. */
  lemma {:induction false} FilterMembers<W>(ps: seq<(string, W)>, t: FeatureTest)
    ensures forall p :: p in Filter(ps, t) <==> p in ps && Passes(t, p.0)
  {
    if ps != [] {
      FilterMembers(ps[1..], t);
      assert ps == [ps[0]] + ps[1..];
    }
  }

  /** A pop-loop filter keeps exactly the pairs that pass. */
  lemma {:induction false} KeptMembers<W>(ps: seq<(string, W)>, t: FeatureTest)
    ensures forall p :: p in Kept(ps, t) <==> p in ps && Passes(t, p.0)
  {
    if ps != [] {
      KeptMembers(ps[..|ps| - 1], t);
      assert ps == ps[..|ps| - 1] + [ps[|ps| - 1]];
    }
  }

  /** The pop loop shared by `reduceorder` and `filter`. */
  method KeepPassing<W>(features: seq<(string, W)>, t: FeatureTest) returns (outfeats: seq<(string, W)>, nofeats: nat)
    ensures outfeats == Kept(features, t)
    ensures nofeats == |outfeats|
  {
    var rest := features;
    outfeats, nofeats := [], 0;
    while |rest| > 0
      invariant outfeats + Kept(rest, t) == Kept(features, t)
      invariant nofeats == |outfeats|
    {
      var (feat, freq) := rest[|rest| - 1];
      var before := rest;
      rest := rest[..|rest| - 1];
      assert Kept(before, t) == (if Passes(t, feat) then [(feat, freq)] else []) + Kept(rest, t);
      if Passes(t, feat) {
        outfeats := outfeats + [(feat, freq)];
        nofeats := nofeats + 1;
      }
    }
  }

  /** `reduceorder`, one line: keep the features whose order lies in [minorder, maxorder]. */
  method ReduceOrderLine<W>(entry: string, features: seq<(string, W)>, minorder: int, maxorder: int)
    returns (out: Option<Line<W>>)
    ensures out == Emit(entry, Kept(features, OrderWindow(minorder, maxorder)))
    ensures out.Some? ==> forall p :: p in out.value.feats <==> p in features && minorder <= Order(p.0) <= maxorder
  {
    var outfeats, nofeats := KeepPassing(features, OrderWindow(minorder, maxorder));
    out := if nofeats > 0 then Some(Line(entry, outfeats)) else None;
    KeptMembers(features, OrderWindow(minorder, maxorder));
  }

  /** `filter`, one line: the entry must have a row total above the threshold (0 when it has
      none) and be a word of interest; then keep the features whose column total is above it. */
  method FilterLine<W>(entry: string, features: seq<(string, W)>, rowtotals: Dict<real>,
                       coltotals: Dict<real>, filterfreq: int, words: seq<string>)
    returns (out: Option<Line<W>>)
    ensures out == if GetOr(rowtotals, entry, 0.0) > filterfreq as real && Include(words, entry)
                   then Emit(entry, Kept(features, ColumnThreshold(coltotals, filterfreq)))
                   else None
    ensures out.Some? ==> GetOr(rowtotals, entry, 0.0) > filterfreq as real && Include(words, entry)
    ensures out.Some? ==> forall p :: p in out.value.feats <==>
              p in features && GetOr(coltotals, p.0, 0.0) > filterfreq as real
  {
    var entrytot := GetOr(rowtotals, entry, 0.0);
    if entrytot > filterfreq as real && Include(words, entry) {
      var outfeats, nofeats := KeepPassing(features, ColumnThreshold(coltotals, filterfreq));
      out := if nofeats > 0 then Some(Line(entry, outfeats)) else None;
      KeptMembers(features, ColumnThreshold(coltotals, filterfreq));
    } else {
      out := None;
    }
  }

  /** The sum of the weights of the pairs. */
  function SumW(ps: seq<(string, real)>): real
  {
    if ps == [] then 0.0 else ps[0].1 + SumW(ps[1..])
  }

  lemma {:induction false} SumWSnoc(ps: seq<(string, real)>, x: (string, real))
    ensures SumW(ps + [x]) == SumW(ps) + x.1
  {
    if ps != [] {
      assert (ps + [x])[1..] == ps[1..] + [x];
      SumWSnoc(ps[1..], x);
    }
  }

  /** Every weight divided by `tot`, in pop order. */
  function Scaled(ps: seq<(string, real)>, tot: real): seq<(string, real)>
    requires tot != 0.0
  {
    if ps == [] then []
    else
      var last := ps[|ps| - 1];
      [(last.0, last.1 / tot)] + Scaled(ps[..|ps| - 1], tot)
  }

  /** The pair at position k of the output is the k-th pair from the end, its weight divided. */
  lemma {:induction false} ScaledAt(ps: seq<(string, real)>, tot: real, k: nat)
    requires tot != 0.0 && k < |ps|
    ensures |Scaled(ps, tot)| == |ps|
    ensures Scaled(ps, tot)[k] == (ps[|ps| - 1 - k].0, ps[|ps| - 1 - k].1 / tot)
  {
    if k > 0 {
      ScaledAt(ps[..|ps| - 1], tot, k - 1);
    } else if |ps| > 1 {
      ScaledAt(ps[..|ps| - 1], tot, 0);
    }
  }

  /** Normalising divides the line's total weight by the row total. */
  lemma {:induction false} ScaledSum(ps: seq<(string, real)>, tot: real)
    requires tot != 0.0
    ensures SumW(Scaled(ps, tot)) == SumW(ps) / tot
  {
    if ps != [] {
      var init, last := ps[..|ps| - 1], ps[|ps| - 1];
      ScaledSum(init, tot);
      assert ps == init + [last];
      SumWSnoc(init, last);
      var s := [(last.0, last.1 / tot)] + Scaled(init, tot);
      assert s[1..] == Scaled(init, tot);
      assert SumW(s) == last.1 / tot + SumW(init) / tot;
    }
  }

  /** What `normalise` does with a line (before formatting the weights). */
  function Normalised(entry: string, features: seq<(string, real)>, rowtotals: Dict<real>): Result<Line<real>>
  {
    if entry !in rowtotals.vals then Err(KeyError(entry))
    else if rowtotals.vals[entry] == 0.0 then
      (if features == [] then Ok(Line(entry, [])) else Err(ZeroDivisionError))
    else Ok(Line(entry, Scaled(features, rowtotals.vals[entry])))
  }

  /** `normalise`, one line: every weight divided by the entry's row total. Unlike the
      filters it writes the entry even when it has no features. */
  method NormaliseLine(entry: string, features: seq<(string, real)>, rowtotals: Dict<real>)
    returns (out: Result<Line<real>>)
    ensures out == Normalised(entry, features, rowtotals)
  {
    if entry !in rowtotals.vals {
      return Err(KeyError(entry));
    }
    var entrytot := rowtotals.vals[entry];
    var rest := features;
    var outfeats: seq<(string, real)> := [];
    while |rest| > 0
      invariant entrytot != 0.0 ==> outfeats + Scaled(rest, entrytot) == Scaled(features, entrytot)
      invariant entrytot == 0.0 ==> rest == features && outfeats == []
    {
      var weight := rest[|rest| - 1].1;
      var feat := rest[|rest| - 1].0;
      if entrytot == 0.0 {
        return Err(ZeroDivisionError);
      }
      var before := rest;
      rest := rest[..|rest| - 1];
      assert Scaled(before, entrytot) == [(feat, weight / entrytot)] + Scaled(rest, entrytot);
      weight := weight / entrytot;
      outfeats := outfeats + [(feat, weight)];
    }
    if entrytot != 0.0 {
      assert outfeats + Scaled(rest, entrytot) == outfeats;
    }
    out := Ok(Line(entry, outfeats));
  }

  predicate HasFeature<W>(ps: seq<(string, W)>, f: string)
  {
    exists k :: 0 <= k < |ps| && ps[k].0 == f
  }

  lemma HasFeatureCons(ps: seq<(string, real)>, f: string)
    requires ps != []
    ensures HasFeature(ps, f) <==> ps[0].0 == f || HasFeature(ps[1..], f)
  {
    if HasFeature(ps[1..], f) {
      var k :| 0 <= k < |ps[1..]| && ps[1..][k].0 == f;
      assert ps[k + 1].0 == f;
    }
    if HasFeature(ps, f) && ps[0].0 != f {
      var k :| 0 <= k < |ps| && ps[k].0 == f;
      assert ps[1..][k - 1].0 == f;
    }
  }

  /** Each pair's weight added to the column total of its feature. The pop loop meets the
      pairs last pair first, so the first pair is the last one added. */
  function Accumulate(ft: Dict<real>, ps: seq<(string, real)>): Dict<real>
  {
    if ps == [] then ft
    else
      var r := Accumulate(ft, ps[1..]);
      AddTo(r, ps[0].0, ps[0].1)
  }

  /** The sum of the weights that the pairs give feature `f`. */
  function SumFor(ps: seq<(string, real)>, f: string): real
  {
    if ps == [] then 0.0
    else (if ps[0].0 == f then ps[0].1 else 0.0) + SumFor(ps[1..], f)
  }

  /** Each column total grows by the weights the line gives its feature, and the features of
      the line join the column totals. */
  lemma {:induction false} AccumulateTotals(ft: Dict<real>, ps: seq<(string, real)>)
    ensures forall f :: GetOr(Accumulate(ft, ps), f, 0.0) == GetOr(ft, f, 0.0) + SumFor(ps, f)
    ensures forall f :: f in Accumulate(ft, ps).vals <==> f in ft.vals || HasFeature(ps, f)
  {
    if ps != [] {
      AccumulateTotals(ft, ps[1..]);
      forall f ensures HasFeature(ps, f) <==> ps[0].0 == f || HasFeature(ps[1..], f) {
        HasFeatureCons(ps, f);
      }
    }
  }

  /** The grand total grows by the line's row total. */
  lemma {:induction false} AccumulateGrandTotal(ft: Dict<real>, ps: seq<(string, real)>)
    ensures Total(Accumulate(ft, ps)) == Total(ft) + SumW(ps)
  {
    if ps != [] {
      var r := Accumulate(ft, ps[1..]);
      var (f, w) := ps[0];
      AccumulateGrandTotal(ft, ps[1..]);
      TotalAddTo(r, f, w);
      assert SumW(ps) == w + SumW(ps[1..]);
    }
  }

  /** One step of the pop loop of `maketotals`: the pair at position `i` is added on top of
      the pairs after it. */
  lemma AccumulateStep(ft: Dict<real>, ps: seq<(string, real)>, i: nat, totals: Dict<real>, rowtotal: real)
    requires i < |ps|
    requires totals == Accumulate(ft, ps[i + 1..]) && rowtotal == SumW(ps[i + 1..])
    ensures AddTo(totals, ps[i].0, ps[i].1) == Accumulate(ft, ps[i..])
    ensures rowtotal + ps[i].1 == SumW(ps[i..])
  {
    assert ps[i..][1..] == ps[i + 1..];
  }

  /** `maketotals`, one line: the row total of the line, and the column totals so far
      updated with the line's features. */
  method MakeTotalsLine(featuretotals: Dict<real>, features: seq<(string, real)>)
    returns (rowtotal: real, totals: Dict<real>)
    ensures rowtotal == SumW(features)
    ensures totals == Accumulate(featuretotals, features)
  {
    var n: nat := |features|;
    rowtotal, totals := 0.0, featuretotals;
    assert features[n..] == [];
    while n > 0
      invariant n <= |features|
      invariant totals == Accumulate(featuretotals, features[n..])
      invariant rowtotal == SumW(features[n..])
    {
      var i := n - 1;
      var (feat, freq) := features[i];
      AccumulateStep(featuretotals, features, i, totals, rowtotal);
      rowtotal, totals := rowtotal + freq, AddTo(totals, feat, freq);
      n := i;
    }
    assert features[0..] == features;
  }

  /** The vector a line gives: pairs stored last pair first, so a feature repeated on
      the line keeps the weight of its first occurrence. */
  function LineVector(ps: seq<(string, real)>, acc: Dict<real>): Dict<real>
  {
    if ps == [] then acc
    else LineVector(ps[..|ps| - 1], Put(acc, ps[|ps| - 1].0, ps[|ps| - 1].1))
  }

  /** The weight of the first pair with feature `f`. */
  function FirstWeight(ps: seq<(string, real)>, f: string): real
    requires HasFeature(ps, f)
  {
    if ps[0].0 == f then ps[0].1
    else
      assert HasFeature(ps[1..], f) by {
        var k :| 0 <= k < |ps| && ps[k].0 == f;
        assert ps[1..][k - 1].0 == f;
      }
      FirstWeight(ps[1..], f)
  }

  lemma {:induction false} FirstWeightSnoc(ps: seq<(string, real)>, x: (string, real), f: string)
    requires HasFeature(ps, f)
    ensures HasFeature(ps + [x], f) && FirstWeight(ps + [x], f) == FirstWeight(ps, f)
  {
    var k :| 0 <= k < |ps| && ps[k].0 == f;
    assert (ps + [x])[k].0 == f;
    if ps[0].0 != f {
      assert HasFeature(ps[1..], f) by { assert ps[1..][k - 1].0 == f; }
      assert (ps + [x])[1..] == ps[1..] + [x];
      FirstWeightSnoc(ps[1..], x, f);
    }
  }

  lemma {:induction false} FirstWeightLast(ps: seq<(string, real)>, x: (string, real))
    requires !HasFeature(ps, x.0)
    ensures HasFeature(ps + [x], x.0) && FirstWeight(ps + [x], x.0) == x.1
  {
    assert (ps + [x])[|ps|] == x;
    if ps != [] {
      assert (ps + [x])[1..] == ps[1..] + [x];
      assert !HasFeature(ps[1..], x.0);
      FirstWeightLast(ps[1..], x);
    }
  }

  lemma HasFeatureSnoc(ps: seq<(string, real)>, x: (string, real))
    ensures forall f :: HasFeature(ps + [x], f) <==> HasFeature(ps, f) || f == x.0
  {
    forall f ensures HasFeature(ps + [x], f) <==> HasFeature(ps, f) || f == x.0 {
      if HasFeature(ps, f) {
        var k :| 0 <= k < |ps| && ps[k].0 == f;
        assert (ps + [x])[k].0 == f;
      }
      if f == x.0 {
        assert (ps + [x])[|ps|].0 == f;
      }
    }
  }

  /** The line's vector has the features of the line (and of `acc`), each with the weight
      of its first occurrence on the line. */
  lemma {:induction false} LineVectorFirstWins(ps: seq<(string, real)>, acc: Dict<real>)
    ensures forall f :: f in LineVector(ps, acc).vals <==> f in acc.vals || HasFeature(ps, f)
    ensures forall f :: HasFeature(ps, f) ==> LineVector(ps, acc).vals[f] == FirstWeight(ps, f)
    ensures forall f :: !HasFeature(ps, f) && f in acc.vals ==> LineVector(ps, acc).vals[f] == acc.vals[f]
  {
    if ps != [] {
      var init, last := ps[..|ps| - 1], ps[|ps| - 1];
      var acc' := Put(acc, last.0, last.1);
      var r := LineVector(init, acc');
      assert LineVector(ps, acc) == r;
      LineVectorFirstWins(init, acc');
      assert ps == init + [last];
      HasFeatureSnoc(init, last);
      forall f | HasFeature(ps, f)
        ensures r.vals[f] == FirstWeight(ps, f)
      {
        if HasFeature(init, f) {
          FirstWeightSnoc(init, last, f);
        } else {
          FirstWeightLast(init, last);
        }
      }
    }
  }

  /** `add(avector, bvector)` as a value, after the first `n` keys of b: b's weights added
      to a's, new keys at the end. */
  function AddVectors(a: Dict<real>, b: Dict<real>, n: nat): Dict<real>
    requires n <= |b.keys|
  {
    if n == 0 then a
    else
      var r := AddVectors(a, b, n - 1);
      var feat := b.keys[n - 1];
      AddTo(r, feat, b.vals[feat])
  }

  lemma {:induction false} AddVectorsSum(a: Dict<real>, b: Dict<real>, n: nat)
    requires n <= |b.keys|
    ensures forall f :: f in AddVectors(a, b, n).vals <==> f in a.vals || f in b.keys[..n]
    ensures forall f :: f in AddVectors(a, b, n).vals ==>
      AddVectors(a, b, n).vals[f] == GetOr(a, f, 0.0) + (if f in b.keys[..n] then b.vals[f] else 0.0)
  {
    if n > 0 {
      AddVectorsSum(a, b, n - 1);
      var feat := b.keys[n - 1];
      assert feat !in b.keys[..n - 1];
      assert forall x :: x in b.keys[..n] <==> x in b.keys[..n - 1] || x == feat;
    }
  }

  /** `add(avector, bvector)` */
  method Add(avector: Dict<real>, bvector: Dict<real>) returns (rvector: Dict<real>)
    ensures rvector == AddVectors(avector, bvector, |bvector.keys|)
  {
    rvector := avector;
    for i := 0 to |bvector.keys|
      invariant rvector == AddVectors(avector, bvector, i)
    {
      var feat := bvector.keys[i];
      rvector := AddTo(rvector, feat, bvector.vals[feat]);
    }
  }

  /** `add(avector, bvector)` has the keys of both vectors, each weight the sum of the two
      (0 for a vector without it). */
  lemma AddMerges(avector: Dict<real>, bvector: Dict<real>)
    ensures forall f :: f in AddVectors(avector, bvector, |bvector.keys|).vals <==> f in avector.vals || f in bvector.vals
    ensures forall f :: f in AddVectors(avector, bvector, |bvector.keys|).vals ==>
      AddVectors(avector, bvector, |bvector.keys|).vals[f] == GetOr(avector, f, 0.0) + GetOr(bvector, f, 0.0)
  {
    AddVectorsSum(avector, bvector, |bvector.keys|);
    assert bvector.keys[..|bvector.keys|] == bvector.keys;
  }

  /** `load_vectors`, one line: an entry of interest gets the line's vector, added to the
      vector of an earlier line of the same entry; any other line changes nothing. */
  method LoadVectorLine(vecs: Dict<Dict<real>>, words: seq<string>, entry: string, features: seq<(string, real)>)
    returns (vecs': Dict<Dict<real>>)
    ensures !Include(words, entry) ==> vecs' == vecs
    ensures Include(words, entry) && entry !in vecs.vals ==> vecs' == Put(vecs, entry, LineVector(features, Empty()))
    ensures Include(words, entry) && entry in vecs.vals ==>
      vecs' == Put(vecs, entry, AddVectors(vecs.vals[entry], LineVector(features, Empty()), |LineVector(features, Empty()).keys|))
  {
    if !Include(words, entry) {
      return vecs;
    }
    var vector: Dict<real> := Empty();
    var rest := features;
    while |rest| > 0
      invariant LineVector(rest, vector) == LineVector(features, Empty())
    {
      var freq := rest[|rest| - 1].1;
      var feat := rest[|rest| - 1].0;
      rest := rest[..|rest| - 1];
      vector := Put(vector, feat, freq);
    }
    if entry in vecs.vals {
      var added := Add(vecs.vals[entry], vector);
      vecs' := Put(vecs, entry, added);
    } else {
      vecs' := Put(vecs, entry, vector);
    }
  }

  /** `output`, one entry: the features whose order lies in [minorder, maxorder], in the
      vector's key order; nothing is written when none is left. */
  method OutputEntry(entry: string, vector: Dict<real>, minorder: int, maxorder: int)
    returns (out: Option<Line<real>>)
    ensures out == Emit(entry, Filter(Items(vector), OrderWindow(minorder, maxorder)))
    ensures out.Some? ==> forall p :: p in out.value.feats <==>
              p.0 in vector.vals && p.1 == vector.vals[p.0] && minorder <= Order(p.0) <= maxorder
  {
    var t := OrderWindow(minorder, maxorder);
    var items := Items(vector);
    var outfeats: seq<(string, real)> := [];
    for i := 0 to |vector.keys|
      invariant outfeats == Filter(items[..i], t)
    {
      var feat := vector.keys[i];
      var forder := Order(feat);
      assert items[..i + 1] == items[..i] + [items[i]];
      FilterSnoc(items[..i], items[i], t);
      if forder >= minorder && forder <= maxorder {
        outfeats := outfeats + [(feat, vector.vals[feat])];
      }
    }
    assert items[..|vector.keys|] == items;
    out := if |outfeats| > 0 then Some(Line(entry, outfeats)) else None;
    FilterMembers(items, t);
    forall p: (string, real) | p.0 in vector.vals && p.1 == vector.vals[p.0]
      ensures p in items
    {
      assert p.0 in vector.keys;
      var k :| 0 <= k < |vector.keys| && vector.keys[k] == p.0;
      assert items[k] == p;
    }
  }

  /** Every stored total is above the threshold. */
  predicate AllAbove(totals: Dict<real>, filterfreq: int)
  {
    forall k :: k in totals.vals ==> totals.vals[k] > filterfreq as real
  }

  /** `load_rowtotals` / `load_coltotals`, one line `name<TAB>total`: stored when the
      counts are normalised or the total is above the threshold. */
  function LoadTotalLine(totals: Dict<real>, name: string, total: real, normalised: bool, filterfreq: int): (r: Dict<real>)
    ensures normalised || total > filterfreq as real ==> r.vals == totals.vals[name := total]
    ensures !(normalised || total > filterfreq as real) ==> r == totals
    ensures !normalised && AllAbove(totals, filterfreq) ==> AllAbove(r, filterfreq)
  {
    if normalised || total > filterfreq as real then Put(totals, name, total) else totals
  }
}
