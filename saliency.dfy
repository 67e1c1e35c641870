/** Saliency pruning (`mostsalient_vector`): keep only the most heavily weighted features of a
    vector, either overall or per path type. */
module Saliency {
  import opened Dicts
  import opened Codec
  import opened Words
  import opened Outcomes

  type Item = (string, real)

  /** Heaviest first. */
  predicate SortedDesc(ps: seq<Item>)
  {
    forall i, j :: 0 <= i < j < |ps| ==> ps[i].1 >= ps[j].1
  }

  /** `x` goes in front of the first element that is not heavier than it, so among equal
      weights the element inserted later in the recursion (met earlier in the input) comes
      first. */
  function Insert(x: Item, s: seq<Item>): (r: seq<Item>)
    ensures multiset(r) == multiset(s) + multiset{x}
  {
    if s == [] || s[0].1 <= x.1 then [x] + s
    else
      assert s == [s[0]] + s[1..];
      [s[0]] + Insert(x, s[1..])
  }

  /** Inserting into a sorted sequence keeps it sorted. */
  lemma {:induction false} InsertSorted(x: Item, s: seq<Item>)
    requires SortedDesc(s)
    ensures SortedDesc(Insert(x, s))
  {
    if s != [] && s[0].1 > x.1 {
      var rest := Insert(x, s[1..]);
      InsertSorted(x, s[1..]);
      forall y | y in rest ensures s[0].1 >= y.1 {
        assert y in multiset(rest);
        if y != x {
          assert y in multiset(s[1..]);
          var k :| 0 <= k < |s[1..]| && s[1..][k] == y;
          assert s[k + 1] == y;
        }
      }
      forall i, j | 0 <= i < j < |[s[0]] + rest| ensures ([s[0]] + rest)[i].1 >= ([s[0]] + rest)[j].1 {
        if i == 0 {
          assert ([s[0]] + rest)[j] == rest[j - 1];
          assert rest[j - 1] in rest;
        }
      }
    }
  }

  /** The items of weight `w`, in order. */
  function OfWeight(ps: seq<Item>, w: real): seq<Item>
  {
    if ps == [] then [] else (if ps[0].1 == w then [ps[0]] else []) + OfWeight(ps[1..], w)
  }

  /** `x` lands in front of every item of its own weight, and among the other weights nothing moves. */
  lemma {:induction false} InsertOfWeight(x: Item, s: seq<Item>, w: real)
    ensures OfWeight(Insert(x, s), w) == (if x.1 == w then [x] else []) + OfWeight(s, w)
  {
    if s == [] || s[0].1 <= x.1 {
      assert Insert(x, s) == [x] + s;
      assert ([x] + s)[0] == x && ([x] + s)[1..] == s;
    } else {
      var t := Insert(x, s[1..]);
      assert Insert(x, s) == [s[0]] + t;
      InsertOfWeight(x, s[1..], w);
      assert ([s[0]] + t)[0] == s[0] && ([s[0]] + t)[1..] == t;
      assert OfWeight(s, w) == (if s[0].1 == w then [s[0]] else []) + OfWeight(s[1..], w);
      if x.1 == w {
        assert s[0].1 != w;
      } else {
        assert OfWeight(t, w) == OfWeight(s[1..], w);
      }
    }
  }

  /** `sorted(items, key=itemgetter(1), reverse=True)` as an insertion sort. Like Python's sort
      it is stable: items of equal weight keep their input order. */
  function SortDesc(ps: seq<Item>): (r: seq<Item>)
    ensures multiset(r) == multiset(ps)
    ensures SortedDesc(r)
    ensures forall w :: OfWeight(r, w) == OfWeight(ps, w)
  {
    if ps == [] then []
    else
      var rest := SortDesc(ps[1..]);
      assert ps == [ps[0]] + ps[1..];
      InsertSorted(ps[0], rest);
      forall w ensures OfWeight(Insert(ps[0], rest), w) == OfWeight(ps, w) {
        InsertOfWeight(ps[0], rest, w);
      }
      Insert(ps[0], rest)
  }

  /** The items of a vector, heaviest first. */
  function Ranked(v: Dict<real>): seq<Item>
  {
    SortDesc(Items(v))
  }

  /** Every ranked item is an item of the vector, and every item of the vector is ranked. */
  lemma RankedItems(v: Dict<real>)
    ensures forall p :: p in Ranked(v) <==> p.0 in v.vals && p.1 == v.vals[p.0]
  {
    var items := Items(v);
    forall p ensures p in Ranked(v) <==> p in items {
      assert p in Ranked(v) <==> p in multiset(Ranked(v));
      assert p in items <==> p in multiset(items);
    }
    forall p ensures p in items <==> p.0 in v.vals && p.1 == v.vals[p.0] {
      if p.0 in v.vals {
        assert p.0 in v.keys;
        var i :| 0 <= i < |v.keys| && v.keys[i] == p.0;
        assert items[i] == (p.0, v.vals[p.0]);
      }
    }
  }

  /** The path type of the first item, in order, whose path type is included. */
  function FirstIncluded(ps: seq<Item>, includedtypes: seq<string>): (r: Option<string>)
    ensures r.None? <==> forall j :: 0 <= j < |ps| ==> !TypeInclude(includedtypes, PathType(ps[j].0))
    ensures r.Some? ==> exists j :: 0 <= j < |ps| && TypeInclude(includedtypes, PathType(ps[j].0)) && r.value == PathType(ps[j].0)
  {
    if ps == [] then None
    else if TypeInclude(includedtypes, PathType(ps[0].0)) then Some(PathType(ps[0].0))
    else
      var r := FirstIncluded(ps[1..], includedtypes);
      assert forall j :: 0 < j < |ps| ==> ps[j] == ps[1..][j - 1];
      r
  }

  /** What `mostsalient_vector` does as written. `saliency` is `self.saliency`, the switch;
      `classSaliency` is the class attribute `Composition.saliency` (0 unless changed), the cap.
      `donetypes` never receives a key, so the counter update `donetypes[pathtype] += 1` of the
      first selected feature raises KeyError. */
  function AsWritten(v: Dict<real>, saliency: int, classSaliency: int, includedtypes: seq<string>): Result<Dict<real>>
  {
    if saliency <= 0 then Ok(v)
    else if classSaliency <= 0 then Ok(Empty())
    else match FirstIncluded(Ranked(v), includedtypes)
      case None => Ok(Empty())
      case Some(p) => Err(KeyError(p))
  }

  /** `mostsalient_vector(ppmivector)` as written. */
  method MostSalientAsWritten(ppmivector: Dict<real>, saliency: int, classSaliency: int, saliencyperpath: bool,
                              includedtypes: seq<string>) returns (r: Result<Dict<real>>)
    ensures r == AsWritten(ppmivector, saliency, classSaliency, includedtypes)
  {
    if saliency > 0 {
      var newvector: Dict<real> := Empty();
      var feats := Ranked(ppmivector);
      var donetypes: Dict<int> := Empty();
      var all := 0;
      for i := 0 to |feats|
        invariant donetypes == Empty() && all == 0
        invariant classSaliency > 0 ==> FirstIncluded(feats[..i], includedtypes).None?
      {
        var (feature, weight) := feats[i];
        var pathtype := PathType(feature);
        var done := GetOr(donetypes, pathtype, 0);
        if TypeInclude(includedtypes, pathtype)
          && ((saliencyperpath && done < classSaliency) || (!saliencyperpath && all < classSaliency))
        {
          newvector := Put(newvector, feature, weight);
          FirstIncludedAt(feats, includedtypes, i);
          r := Err(KeyError(pathtype));
          return;
        }
        if classSaliency > 0 {
          FirstIncludedSnoc(feats, i, includedtypes);
        }
      }
      assert feats[..|feats|] == feats;
      r := Ok(newvector);
    } else {
      r := Ok(ppmivector);
    }
  }

  /** An item not included leaves the items before it without an included type. */
  lemma FirstIncludedSnoc(ps: seq<Item>, i: nat, includedtypes: seq<string>)
    requires i < |ps| && FirstIncluded(ps[..i], includedtypes).None?
    requires !TypeInclude(includedtypes, PathType(ps[i].0))
    ensures FirstIncluded(ps[..i + 1], includedtypes).None?
  {
    assert forall j :: 0 <= j <= i ==> ps[..i + 1][j] == ps[j];
  }

  /** When no item before `i` is included and item `i` is, `i` gives the first included type. */
  lemma {:induction false} FirstIncludedAt(ps: seq<Item>, includedtypes: seq<string>, i: nat)
    requires i < |ps| && FirstIncluded(ps[..i], includedtypes).None?
    requires TypeInclude(includedtypes, PathType(ps[i].0))
    ensures FirstIncluded(ps, includedtypes) == Some(PathType(ps[i].0))
    decreases i
  {
    if i > 0 {
      assert !TypeInclude(includedtypes, PathType(ps[..i][0].0));
      assert ps[1..][..i - 1] == ps[..i][1..];
      FirstIncludedAt(ps[1..], includedtypes, i - 1);
    }
  }

  /** As written, the pruning never keeps a feature: with the switch on it either fails or
      returns an empty vector. */
  lemma AsWrittenKeepsNothing(v: Dict<real>, saliency: int, classSaliency: int, includedtypes: seq<string>)
    requires saliency > 0
    ensures AsWritten(v, saliency, classSaliency, includedtypes).Ok? ==>
      AsWritten(v, saliency, classSaliency, includedtypes).value.vals == map[]
  {
  }

  /** As written, the pruning fails exactly when the class-level cap is positive and the
      vector has a feature of an included path type. */
  lemma AsWrittenFails(v: Dict<real>, saliency: int, classSaliency: int, includedtypes: seq<string>)
    requires saliency > 0
    ensures AsWritten(v, saliency, classSaliency, includedtypes).Err? <==>
      classSaliency > 0 && exists f :: f in v.vals && TypeInclude(includedtypes, PathType(f))
  {
    RankedItems(v);
    var rk := Ranked(v);
    if classSaliency > 0 {
      if exists f :: f in v.vals && TypeInclude(includedtypes, PathType(f)) {
        var f :| f in v.vals && TypeInclude(includedtypes, PathType(f));
        assert (f, v.vals[f]) in rk;
        var j :| 0 <= j < |rk| && rk[j] == (f, v.vals[f]);
        assert FirstIncluded(rk, includedtypes).Some?;
      }
      if FirstIncluded(rk, includedtypes).Some? {
        var j :| 0 <= j < |rk| && TypeInclude(includedtypes, PathType(rk[j].0));
        assert rk[j] in rk;
      }
    }
  }

  /** The counterexample: the switch and the cap both at 1 and one feature, "amod:red". */
  lemma AsWrittenCounterexample()
    ensures AsWritten(RawDict(["amod:red"], map["amod:red" := 1.0]), 1, 1, []) == Err(KeyError("amod"))
  {
    var x := ("amod:red", 1.0);
    var v: Dict<real> := RawDict(["amod:red"], map["amod:red" := 1.0]);
    assert Items(v) == [x];
    assert SortDesc([x]) == Insert(x, []) == [x];
    AmodRed();
  }

  lemma AmodRed()
    ensures PathType("amod:red") == "amod"
  {
    var f := "amod:red";
    assert f[1..] == "mod:red" && f[2..] == "od:red" && f[3..] == "d:red" && f[4..] == ":red";
    assert PathType(":red") == "";
  }

  /** The state of the corrected loop: the features kept so far, how many were kept per path
      type (`donetypes`) and how many in all (`all`). */
  datatype Pick = Pick(vector: Dict<real>, donetypes: Dict<int>, all: int)

  /** A further feature of path type `pathtype` still fits under the cap: per path type, or overall. */
  predicate Room(s: Pick, pathtype: string, saliency: int, saliencyperpath: bool)
  {
    (saliencyperpath && GetOr(s.donetypes, pathtype, 0) < saliency) || (!saliencyperpath && s.all < saliency)
  }

  /** The counter update `donetypes[pathtype] = done + 1`, with `done` the count so far (0 at first). */
  function Bump(d: Dict<int>, k: string): Dict<int>
  {
    Put(d, k, GetOr(d, k, 0) + 1)
  }

  /** One iteration of the corrected loop: an included feature that fits is kept and counted. */
  function Step(s: Pick, x: Item, saliency: int, saliencyperpath: bool, includedtypes: seq<string>): Pick
  {
    var pathtype := PathType(x.0);
    if TypeInclude(includedtypes, pathtype) && Room(s, pathtype, saliency, saliencyperpath) then
      Pick(Put(s.vector, x.0, x.1), Bump(s.donetypes, pathtype), s.all + 1)
    else s
  }

  /** The corrected loop run over `ps` in order. */
  function Chosen(ps: seq<Item>, saliency: int, saliencyperpath: bool, includedtypes: seq<string>): Pick
  {
    if ps == [] then Pick(Empty(), Empty(), 0)
    else Step(Chosen(ps[..|ps| - 1], saliency, saliencyperpath, includedtypes), ps[|ps| - 1], saliency, saliencyperpath, includedtypes)
  }

  lemma ChosenSnoc(ps: seq<Item>, i: nat, saliency: int, saliencyperpath: bool, includedtypes: seq<string>)
    requires i < |ps|
    ensures Chosen(ps[..i + 1], saliency, saliencyperpath, includedtypes)
      == Step(Chosen(ps[..i], saliency, saliencyperpath, includedtypes), ps[i], saliency, saliencyperpath, includedtypes)
  {
    assert ps[..i + 1][..i] == ps[..i];
  }

  /** `mostsalient_vector(ppmivector)` with the counter initialised as in `mostsalientvecs`
      (`donetypes[pathtype] = done + 1`) and the configured `self.saliency` as the cap. */
  method MostSalientVector(ppmivector: Dict<real>, saliency: int, saliencyperpath: bool, includedtypes: seq<string>)
    returns (newvector: Dict<real>)
    ensures newvector == if saliency > 0 then Chosen(Ranked(ppmivector), saliency, saliencyperpath, includedtypes).vector
                         else ppmivector
  {
    if saliency > 0 {
      newvector := Empty();
      var feats := Ranked(ppmivector);
      var donetypes: Dict<int> := Empty();
      var all := 0;
      for i := 0 to |feats|
        invariant Pick(newvector, donetypes, all) == Chosen(feats[..i], saliency, saliencyperpath, includedtypes)
      {
        var (feature, weight) := feats[i];
        var pathtype := PathType(feature);
        var done := GetOr(donetypes, pathtype, 0);
        ChosenSnoc(feats, i, saliency, saliencyperpath, includedtypes);
        if TypeInclude(includedtypes, pathtype)
          && ((saliencyperpath && done < saliency) || (!saliencyperpath && all < saliency))
        {
          newvector := Put(newvector, feature, weight);
          donetypes := Bump(donetypes, pathtype);
          all := all + 1;
        }
      }
      assert feats[..|feats|] == feats;
    } else {
      newvector := ppmivector;
    }
  }

  /** The number of listed features of path type `p`. */
  function CountOnPath(ks: seq<string>, p: string): nat
  {
    if ks == [] then 0 else CountOnPath(ks[..|ks| - 1], p) + (if PathType(ks[|ks| - 1]) == p then 1 else 0)
  }

  lemma CountOnPathSnoc(ks: seq<string>, k: string, p: string)
    ensures CountOnPath(ks + [k], p) == CountOnPath(ks, p) + (if PathType(k) == p then 1 else 0)
  {
    assert (ks + [k])[..|ks|] == ks;
  }

  /** Every kept feature is of an included path type and carries the weight of some item. */
  lemma {:induction false} ChosenSound(ps: seq<Item>, saliency: int, saliencyperpath: bool, includedtypes: seq<string>)
    ensures var v := Chosen(ps, saliency, saliencyperpath, includedtypes).vector.vals;
      forall f :: f in v ==> TypeInclude(includedtypes, PathType(f)) && exists k :: 0 <= k < |ps| && ps[k] == (f, v[f])
  {
    if ps != [] {
      var init := ps[..|ps| - 1];
      ChosenSound(init, saliency, saliencyperpath, includedtypes);
      var v := Chosen(ps, saliency, saliencyperpath, includedtypes).vector.vals;
      var v0 := Chosen(init, saliency, saliencyperpath, includedtypes).vector.vals;
      forall f | f in v ensures exists k :: 0 <= k < |ps| && ps[k] == (f, v[f]) {
        if f in v0 && v[f] == v0[f] {
          var k :| 0 <= k < |init| && init[k] == (f, v0[f]);
          assert ps[k] == init[k];
        } else {
          assert ps[|ps| - 1] == (f, v[f]);
        }
      }
    }
  }

  /** The kept features never exceed the counters, and the counters never exceed the cap. */
  lemma {:induction false} ChosenCapped(ps: seq<Item>, saliency: int, saliencyperpath: bool, includedtypes: seq<string>)
    requires saliency >= 0
    ensures Capped(Chosen(ps, saliency, saliencyperpath, includedtypes), saliency, saliencyperpath)
  {
    if ps != [] {
      var init, x := ps[..|ps| - 1], ps[|ps| - 1];
      ChosenCapped(init, saliency, saliencyperpath, includedtypes);
      var s0 := Chosen(init, saliency, saliencyperpath, includedtypes);
      if TypeInclude(includedtypes, PathType(x.0)) && Room(s0, PathType(x.0), saliency, saliencyperpath) {
        CappedKeep(s0, x, saliency, saliencyperpath);
      }
    }
  }

  /** The bounds `ChosenCapped` keeps: at most `all` features kept, `all` within the cap
      overall, each path type's count of kept features within its counter, and the counters
      within the cap per path type. */
  ghost predicate Capped(s: Pick, saliency: int, saliencyperpath: bool)
  {
    && |s.vector.keys| <= s.all
    && (!saliencyperpath ==> s.all <= saliency)
    && (forall p :: CountOnPath(s.vector.keys, p) <= GetOr(s.donetypes, p, 0))
    && (saliencyperpath ==> forall p :: GetOr(s.donetypes, p, 0) <= saliency)
  }

  /** Keeping a feature that fits keeps the bounds. */
  lemma CappedKeep(s0: Pick, x: Item, saliency: int, saliencyperpath: bool)
    requires Capped(s0, saliency, saliencyperpath) && Room(s0, PathType(x.0), saliency, saliencyperpath)
    ensures Capped(Pick(Put(s0.vector, x.0, x.1), Bump(s0.donetypes, PathType(x.0)), s0.all + 1), saliency, saliencyperpath)
  {
    var pathtype := PathType(x.0);
    var v, d := Put(s0.vector, x.0, x.1), Bump(s0.donetypes, pathtype);
    assert |v.keys| <= |s0.vector.keys| + 1;
    forall p ensures CountOnPath(v.keys, p) <= GetOr(d, p, 0) {
      assert GetOr(d, p, 0) == GetOr(s0.donetypes, p, 0) + (if p == pathtype then 1 else 0);
      if x.0 !in s0.vector.vals {
        CountOnPathSnoc(s0.vector.keys, x.0, p);
      }
    }
    if saliencyperpath {
      forall p ensures GetOr(d, p, 0) <= saliency {
        assert GetOr(d, p, 0) == GetOr(s0.donetypes, p, 0) + (if p == pathtype then 1 else 0);
      }
    }
  }

  /** The cap is full for path type `p`. */
  predicate Full(s: Pick, p: string, saliency: int, saliencyperpath: bool)
  {
    !Room(s, p, saliency, saliencyperpath)
  }

  /** Two features compete for the same places under the cap: any two overall, or two of the
      same path type per path type. */
  predicate SameBucket(saliencyperpath: bool, f: string, g: string)
  {
    !saliencyperpath || PathType(f) == PathType(g)
  }

  /** An included item left out was left out because its places were full. */
  lemma {:induction false} ChosenFull(ps: seq<Item>, saliency: int, saliencyperpath: bool, includedtypes: seq<string>)
    ensures var s := Chosen(ps, saliency, saliencyperpath, includedtypes);
      forall j :: 0 <= j < |ps| && TypeInclude(includedtypes, PathType(ps[j].0)) && ps[j].0 !in s.vector.vals ==>
        Full(s, PathType(ps[j].0), saliency, saliencyperpath)
  {
    if ps != [] {
      var init, x := ps[..|ps| - 1], ps[|ps| - 1];
      ChosenFull(init, saliency, saliencyperpath, includedtypes);
      var s0 := Chosen(init, saliency, saliencyperpath, includedtypes);
      var s := Chosen(ps, saliency, saliencyperpath, includedtypes);
      forall j | 0 <= j < |ps| && TypeInclude(includedtypes, PathType(ps[j].0)) && ps[j].0 !in s.vector.vals
        ensures Full(s, PathType(ps[j].0), saliency, saliencyperpath)
      {
        if j < |init| {
          assert init[j] == ps[j];
          assert Full(s0, PathType(ps[j].0), saliency, saliencyperpath);
        }
      }
    }
  }

  /** Over items sorted heaviest first, every kept feature competing for the same places as an
      included item left out is at least as heavy as that item. */
  lemma {:induction false} ChosenHeaviest(ps: seq<Item>, saliency: int, saliencyperpath: bool, includedtypes: seq<string>)
    requires SortedDesc(ps)
    ensures var s := Chosen(ps, saliency, saliencyperpath, includedtypes);
      forall j, f :: (0 <= j < |ps| && TypeInclude(includedtypes, PathType(ps[j].0)) && ps[j].0 !in s.vector.vals
        && f in s.vector.vals && SameBucket(saliencyperpath, f, ps[j].0)) ==> s.vector.vals[f] >= ps[j].1
  {
    if ps != [] {
      var init, x := ps[..|ps| - 1], ps[|ps| - 1];
      assert forall j :: 0 <= j < |init| ==> init[j] == ps[j];
      assert SortedDesc(init);
      ChosenHeaviest(init, saliency, saliencyperpath, includedtypes);
      var s0 := Chosen(init, saliency, saliencyperpath, includedtypes);
      var s := Chosen(ps, saliency, saliencyperpath, includedtypes);
      var px := PathType(x.0);
      if TypeInclude(includedtypes, px) && Room(s0, px, saliency, saliencyperpath) {
        ChosenFull(init, saliency, saliencyperpath, includedtypes);
        forall j, f | 0 <= j < |ps| && TypeInclude(includedtypes, PathType(ps[j].0)) && ps[j].0 !in s.vector.vals
          && f in s.vector.vals && SameBucket(saliencyperpath, f, ps[j].0)
          ensures s.vector.vals[f] >= ps[j].1
        {
          assert j < |init|;
          assert Full(s0, PathType(init[j].0), saliency, saliencyperpath);
          assert f != x.0;
        }
      } else {
        ChosenSound(init, saliency, saliencyperpath, includedtypes);
        forall j, f | 0 <= j < |ps| && TypeInclude(includedtypes, PathType(ps[j].0)) && ps[j].0 !in s.vector.vals
          && f in s.vector.vals && SameBucket(saliencyperpath, f, ps[j].0)
          ensures s.vector.vals[f] >= ps[j].1
        {
          if j == |ps| - 1 {
            var k :| 0 <= k < |init| && init[k] == (f, s0.vector.vals[f]);
            assert ps[k].1 >= ps[j].1;
          }
        }
      }
    }
  }

  /** No two items share a feature. */
  predicate DistinctNames(ps: seq<Item>)
  {
    forall i, j :: 0 <= i < j < |ps| ==> ps[i].0 != ps[j].0
  }

  /** An item in front of distinct items keeps them distinct when its feature is new. */
  lemma ConsDistinct(a: Item, t: seq<Item>)
    requires DistinctNames(t) && forall y :: y in t ==> y.0 != a.0
    ensures DistinctNames([a] + t)
  {
    var u := [a] + t;
    forall i, j | 0 <= i < j < |u| ensures u[i].0 != u[j].0 {
      assert u[j] == t[j - 1] && t[j - 1] in t;
      if i > 0 {
        assert u[i] == t[i - 1];
      }
    }
  }

  /** The items behind the first of distinct items are distinct and do not repeat its feature. */
  lemma UnconsDistinct(u: seq<Item>)
    requires u != [] && DistinctNames(u)
    ensures DistinctNames(u[1..]) && forall y :: y in u[1..] ==> y.0 != u[0].0
  {
    var t := u[1..];
    forall y | y in t ensures y.0 != u[0].0 {
      var k :| 0 <= k < |t| && t[k] == y;
      assert u[k + 1] == y;
    }
    forall i, j | 0 <= i < j < |t| ensures t[i].0 != t[j].0 {
      assert u[i + 1] == t[i] && u[j + 1] == t[j];
    }
  }

  /** Inserting an item whose feature is new keeps the features distinct. */
  lemma {:induction false} InsertDistinct(x: Item, s: seq<Item>)
    requires DistinctNames(s) && forall y :: y in s ==> y.0 != x.0
    ensures DistinctNames(Insert(x, s))
  {
    if s == [] || s[0].1 <= x.1 {
      ConsDistinct(x, s);
    } else {
      var rest := Insert(x, s[1..]);
      UnconsDistinct(s);
      InsertDistinct(x, s[1..]);
      forall y | y in rest ensures y.0 != s[0].0 {
        assert y in multiset(rest);
        if y != x {
          assert y in multiset(s[1..]);
        }
      }
      ConsDistinct(s[0], rest);
    }
  }

  /** Sorting keeps the features distinct. */
  lemma {:induction false} SortDescDistinct(ps: seq<Item>)
    requires DistinctNames(ps)
    ensures DistinctNames(SortDesc(ps))
  {
    if ps != [] {
      var rest := SortDesc(ps[1..]);
      UnconsDistinct(ps);
      SortDescDistinct(ps[1..]);
      forall y | y in rest ensures y.0 != ps[0].0 {
        assert y in multiset(rest);
        assert y in multiset(ps[1..]);
      }
      InsertDistinct(ps[0], rest);
    }
  }

  /** The ranked items of a vector name each feature once. */
  lemma RankedDistinct(v: Dict<real>)
    ensures DistinctNames(Ranked(v))
  {
    var items := Items(v);
    assert DistinctNames(items) by {
      forall i, j | 0 <= i < j < |items| ensures items[i].0 != items[j].0 {
        assert items[i].0 == v.keys[i] && items[j].0 == v.keys[j];
      }
    }
    SortDescDistinct(items);
  }

  /** Over items naming each feature once, every feature kept is new, so the counters count
      exactly the kept features. */
  lemma {:induction false} ChosenExact(ps: seq<Item>, saliency: int, saliencyperpath: bool, includedtypes: seq<string>)
    requires DistinctNames(ps)
    ensures var s := Chosen(ps, saliency, saliencyperpath, includedtypes);
      |s.vector.keys| == s.all && forall p :: CountOnPath(s.vector.keys, p) == GetOr(s.donetypes, p, 0)
  {
    if ps != [] {
      var init, x := ps[..|ps| - 1], ps[|ps| - 1];
      assert DistinctNames(init) by {
        forall i, j | 0 <= i < j < |init| ensures init[i].0 != init[j].0 {
          assert init[i] == ps[i] && init[j] == ps[j];
        }
      }
      ChosenExact(init, saliency, saliencyperpath, includedtypes);
      var s0 := Chosen(init, saliency, saliencyperpath, includedtypes);
      var pathtype := PathType(x.0);
      if TypeInclude(includedtypes, pathtype) && Room(s0, pathtype, saliency, saliencyperpath) {
        ChosenSound(init, saliency, saliencyperpath, includedtypes);
        assert x.0 !in s0.vector.vals by {
          forall k | 0 <= k < |init| ensures init[k].0 != x.0 {
            assert init[k] == ps[k];
          }
        }
        var v, d := Put(s0.vector, x.0, x.1), Bump(s0.donetypes, pathtype);
        assert v.keys == s0.vector.keys + [x.0];
        forall p ensures CountOnPath(v.keys, p) == GetOr(d, p, 0) {
          CountOnPathSnoc(s0.vector.keys, x.0, p);
        }
      }
    }
  }

  /** An included item left out means its places are all taken: `saliency` features kept in
      all, or `saliency` of its path type when the cap is per path type. */
  lemma ChosenFills(ps: seq<Item>, saliency: int, saliencyperpath: bool, includedtypes: seq<string>)
    requires saliency >= 0 && DistinctNames(ps)
    ensures var s := Chosen(ps, saliency, saliencyperpath, includedtypes);
      forall j :: 0 <= j < |ps| && TypeInclude(includedtypes, PathType(ps[j].0)) && ps[j].0 !in s.vector.vals ==>
        && (!saliencyperpath ==> |s.vector.keys| == saliency)
        && (saliencyperpath ==> CountOnPath(s.vector.keys, PathType(ps[j].0)) == saliency)
  {
    ChosenFull(ps, saliency, saliencyperpath, includedtypes);
    ChosenCapped(ps, saliency, saliencyperpath, includedtypes);
    ChosenExact(ps, saliency, saliencyperpath, includedtypes);
  }

  /** With the switch on, the corrected pruning keeps a sub-map of the vector of included path
      types only, no more features than the cap allows, and, of the features competing for the
      same places, the heaviest; an included feature is left out only when the cap is filled. */
  lemma MostSalientKeepsHeaviest(v: Dict<real>, saliency: int, saliencyperpath: bool, includedtypes: seq<string>)
    requires saliency > 0
    ensures var r := Chosen(Ranked(v), saliency, saliencyperpath, includedtypes).vector;
      forall f :: f in r.vals ==> f in v.vals && r.vals[f] == v.vals[f] && TypeInclude(includedtypes, PathType(f))
    ensures var r := Chosen(Ranked(v), saliency, saliencyperpath, includedtypes).vector;
      !saliencyperpath ==> |r.keys| <= saliency
    ensures var r := Chosen(Ranked(v), saliency, saliencyperpath, includedtypes).vector;
      saliencyperpath ==> forall p :: CountOnPath(r.keys, p) <= saliency
    ensures var r := Chosen(Ranked(v), saliency, saliencyperpath, includedtypes).vector;
      forall f, g :: (f in r.vals && g in v.vals && g !in r.vals && TypeInclude(includedtypes, PathType(g))
        && SameBucket(saliencyperpath, f, g)) ==> r.vals[f] >= v.vals[g]
    ensures var r := Chosen(Ranked(v), saliency, saliencyperpath, includedtypes).vector;
      forall g :: g in v.vals && TypeInclude(includedtypes, PathType(g)) && g !in r.vals ==>
        && (!saliencyperpath ==> |r.keys| == saliency)
        && (saliencyperpath ==> CountOnPath(r.keys, PathType(g)) == saliency)
  {
    RankedSubMap(v, saliency, saliencyperpath, includedtypes);
    ChosenCapped(Ranked(v), saliency, saliencyperpath, includedtypes);
    RankedHeaviest(v, saliency, saliencyperpath, includedtypes);
    RankedFills(v, saliency, saliencyperpath, includedtypes);
  }

  /** Every item left out of the ranking's pruning is a vector item, and so sits at some index. */
  lemma RankedIndex(v: Dict<real>, g: string) returns (j: nat)
    requires g in v.vals
    ensures j < |Ranked(v)| && Ranked(v)[j] == (g, v.vals[g])
  {
    RankedItems(v);
    assert (g, v.vals[g]) in Ranked(v);
    j :| 0 <= j < |Ranked(v)| && Ranked(v)[j] == (g, v.vals[g]);
  }

  lemma RankedSubMap(v: Dict<real>, saliency: int, saliencyperpath: bool, includedtypes: seq<string>)
    ensures var r := Chosen(Ranked(v), saliency, saliencyperpath, includedtypes).vector;
      forall f :: f in r.vals ==> f in v.vals && r.vals[f] == v.vals[f] && TypeInclude(includedtypes, PathType(f))
  {
    var rk := Ranked(v);
    var r := Chosen(rk, saliency, saliencyperpath, includedtypes).vector;
    RankedItems(v);
    ChosenSound(rk, saliency, saliencyperpath, includedtypes);
    forall f | f in r.vals ensures f in v.vals && r.vals[f] == v.vals[f] {
      var k :| 0 <= k < |rk| && rk[k] == (f, r.vals[f]);
      assert rk[k] in rk;
    }
  }

  lemma RankedHeaviest(v: Dict<real>, saliency: int, saliencyperpath: bool, includedtypes: seq<string>)
    ensures var r := Chosen(Ranked(v), saliency, saliencyperpath, includedtypes).vector;
      forall f, g :: (f in r.vals && g in v.vals && g !in r.vals && TypeInclude(includedtypes, PathType(g))
        && SameBucket(saliencyperpath, f, g)) ==> r.vals[f] >= v.vals[g]
  {
    var rk := Ranked(v);
    var r := Chosen(rk, saliency, saliencyperpath, includedtypes).vector;
    forall f, g | f in r.vals && g in v.vals && g !in r.vals && TypeInclude(includedtypes, PathType(g))
      && SameBucket(saliencyperpath, f, g)
      ensures r.vals[f] >= v.vals[g]
    {
      var j := RankedIndex(v, g);
      ChosenHeaviestAt(rk, j, f, saliency, saliencyperpath, includedtypes);
    }
  }

  /** `ChosenHeaviest` for one left-out item and one kept feature. */
  lemma ChosenHeaviestAt(ps: seq<Item>, j: nat, f: string, saliency: int, saliencyperpath: bool, includedtypes: seq<string>)
    requires SortedDesc(ps) && j < |ps|
    requires var s := Chosen(ps, saliency, saliencyperpath, includedtypes);
      TypeInclude(includedtypes, PathType(ps[j].0)) && ps[j].0 !in s.vector.vals
      && f in s.vector.vals && SameBucket(saliencyperpath, f, ps[j].0)
    ensures Chosen(ps, saliency, saliencyperpath, includedtypes).vector.vals[f] >= ps[j].1
  {
    ChosenHeaviest(ps, saliency, saliencyperpath, includedtypes);
  }

  lemma RankedFills(v: Dict<real>, saliency: int, saliencyperpath: bool, includedtypes: seq<string>)
    requires saliency >= 0
    ensures var r := Chosen(Ranked(v), saliency, saliencyperpath, includedtypes).vector;
      forall g :: g in v.vals && TypeInclude(includedtypes, PathType(g)) && g !in r.vals ==>
        && (!saliencyperpath ==> |r.keys| == saliency)
        && (saliencyperpath ==> CountOnPath(r.keys, PathType(g)) == saliency)
  {
    var r := Chosen(Ranked(v), saliency, saliencyperpath, includedtypes).vector;
    RankedDistinct(v);
    ChosenFills(Ranked(v), saliency, saliencyperpath, includedtypes);
    forall g | g in v.vals && TypeInclude(includedtypes, PathType(g)) && g !in r.vals
      ensures (!saliencyperpath ==> |r.keys| == saliency)
        && (saliencyperpath ==> CountOnPath(r.keys, PathType(g)) == saliency)
    {
      var j := RankedIndex(v, g);
    }
  }

  /** The discrepancy: where the corrected pruning keeps the one feature, the code as written fails. */
  lemma CorrectedCounterexample()
    ensures Chosen(Ranked(RawDict(["amod:red"], map["amod:red" := 1.0])), 1, false, []).vector.vals == map["amod:red" := 1.0]
  {
    var x := ("amod:red", 1.0);
    var v: Dict<real> := RawDict(["amod:red"], map["amod:red" := 1.0]);
    assert Items(v) == [x];
    assert SortDesc([x]) == Insert(x, []) == [x];
    var none: seq<Item> := [];
    assert [x][..0] == none;
  }
}
