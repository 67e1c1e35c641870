/** Additive composition of a dependent's vector with its head's vector (`offsetVector`,
    `addCompound`, `addAN`) and intersective composition (`intersecteach`). */
module Compose {
  import opened PyStr
  import opened Dicts
  import opened Codec

  /** The feature that `offsetVector(depvector, rel)` files `feature` under, "" when it
      drops the feature. A path that starts by going up the relation `rel` ("_rel") loses
      that first step; any other inverse step makes the feature incompatible; every other
      feature is pushed one step further away from the head, through `rel`. */
  function OffsetKey(feature: string, rel: string): (key: string)
    ensures ':' !in rel && key != "" ==> PathValue(key) == PathValue(feature)
  {
    var split := SplitFeature(feature);
    if split.0 == "_" + rel then
      assert forall c :: c in split.1 ==> c in PathType(feature);
      PathTypePrepend(split.1, PathValue(feature));
      PathValueOfValue(feature);
      split.1 + PathValue(feature)
    else if StartsWith(split.0, "_") then ""
    else if StartsWith(feature, ":") then
      PrependKeepsValue(rel, feature);
      rel + feature
    else
      PrependKeepsValue(rel + SEP, feature);
      rel + SEP + feature
  }

  /** Text in front of a feature keeps its value when the text has no ':'. */
  lemma PrependKeepsValue(a: string, f: string)
    ensures ':' !in a ==> PathValue(a + f) == PathValue(f)
  {
    if ':' !in a {
      PathTypePrepend(a, f);
    }
  }

  /** Each listed feature of `m` paired with the key it is filed under and its weight. */
  function Moves(ks: seq<string>, m: map<string, real>, rel: string): (r: seq<(string, real)>)
    requires forall k :: k in ks ==> k in m
    ensures |r| == |ks|
    ensures forall j :: 0 <= j < |ks| ==> r[j] == (OffsetKey(ks[j], rel), m[ks[j]])
  {
    seq(|ks|, j requires 0 <= j < |ks| => (OffsetKey(ks[j], rel), m[ks[j]]))
  }

  /** The pairs stored in order, skipping those filed under ""; a later pair overwrites an
      earlier one with the same key. */
  function Refile(ps: seq<(string, real)>): Dict<real>
  {
    if ps == [] then Empty()
    else
      var r := Refile(ps[..|ps| - 1]);
      var last := ps[|ps| - 1];
      if last.0 == "" then r else Put(r, last.0, last.1)
  }

  /** The offset vector of the listed features of `m`. */
  function Offset(ks: seq<string>, m: map<string, real>, rel: string): Dict<real>
    requires forall k :: k in ks ==> k in m
  {
    Refile(Moves(ks, m, rel))
  }

  /** `offsetVector(depvector, rel)` */
  method OffsetVector(depvector: Dict<real>, rel: string) returns (offsetvector: Dict<real>)
    ensures offsetvector == Offset(depvector.keys, depvector.vals, rel)
  {
    var keys := depvector.keys;
    ghost var moves := Moves(keys, depvector.vals, rel);
    offsetvector := Empty();
    for i := 0 to |keys|
      invariant offsetvector == Refile(moves[..i])
    {
      var feature := keys[i];
      var newfeature := OffsetFeature(feature, rel);
      RefileStep(moves, i);
      if newfeature != "" {
        offsetvector := Put(offsetvector, newfeature, depvector.vals[feature]);
      }
    }
    assert moves[..|keys|] == moves;
  }

  /** The key a feature is filed under, as the loop body of `offsetVector` computes it. */
  method OffsetFeature(feature: string, rel: string) returns (newfeature: string)
    ensures newfeature == OffsetKey(feature, rel)
  {
    var depPrefix := "_" + rel;
    var headPrefix := rel;
    var (prefix, suffix) := SplitFeature(feature);
    if prefix == depPrefix {
      newfeature := suffix + PathValue(feature);
    } else if StartsWith(prefix, "_") {
      newfeature := "";
    } else if StartsWith(feature, ":") {
      newfeature := headPrefix + feature;
    } else {
      newfeature := headPrefix + SEP + feature;
    }
  }

  /** Refiling one more pair stores it, unless it is filed under "". */
  lemma RefileStep(ps: seq<(string, real)>, i: nat)
    requires i < |ps|
    ensures Refile(ps[..i + 1]) == if ps[i].0 == "" then Refile(ps[..i]) else Put(Refile(ps[..i]), ps[i].0, ps[i].1)
  {
    assert ps[..i + 1][..i] == ps[..i];
  }

  /** Some pair is filed under `k`. */
  predicate FiledUnder(ps: seq<(string, real)>, k: string)
  {
    exists j :: 0 <= j < |ps| && ps[j].0 == k
  }

  /** The refiled dict has exactly the nonempty keys that some pair is filed under. */
  lemma {:induction false} RefileMembers(ps: seq<(string, real)>)
    ensures forall k :: k in Refile(ps).vals <==> k != "" && FiledUnder(ps, k)
  {
    if ps != [] {
      var init := ps[..|ps| - 1];
      RefileMembers(init);
      forall k ensures FiledUnder(ps, k) <==> FiledUnder(init, k) || ps[|ps| - 1].0 == k {
        if FiledUnder(init, k) {
          var j :| 0 <= j < |init| && init[j].0 == k;
          assert ps[j] == init[j];
        }
        if FiledUnder(ps, k) {
          var j :| 0 <= j < |ps| && ps[j].0 == k;
          if j < |init| {
            assert ps[j] == init[j];
          }
        }
      }
    }
  }

  /** The pair at `j` is the last one filed under `k`. */
  predicate LastFiled(ps: seq<(string, real)>, j: int, k: string)
  {
    0 <= j < |ps| && ps[j].0 == k && forall j' :: j < j' < |ps| ==> ps[j'].0 != k
  }

  /** Every value of the refiled dict is the weight of the last pair filed under its key. */
  lemma {:induction false} RefileLastWins(ps: seq<(string, real)>)
    ensures forall k :: k in Refile(ps).vals ==> exists j :: LastFiled(ps, j, k) && Refile(ps).vals[k] == ps[j].1
  {
    if ps != [] {
      var init, last := ps[..|ps| - 1], ps[|ps| - 1];
      RefileLastWins(init);
      RefileMembers(ps);
      var r := Refile(ps);
      assert r == if last.0 == "" then Refile(init) else Put(Refile(init), last.0, last.1);
      forall k | k in r.vals
        ensures exists j :: LastFiled(ps, j, k) && r.vals[k] == ps[j].1
      {
        if last.0 == k {
          assert LastFiled(ps, |ps| - 1, k);
        } else {
          assert k in Refile(init).vals && r.vals[k] == Refile(init).vals[k];
          var j :| LastFiled(init, j, k) && Refile(init).vals[k] == init[j].1;
          LastFiledExtend(ps, j, k);
        }
      }
    }
  }

  /** A pair last filed under `k` among all but the final pair stays last when the final pair
      is filed elsewhere. */
  lemma LastFiledExtend(ps: seq<(string, real)>, j: int, k: string)
    requires ps != [] && LastFiled(ps[..|ps| - 1], j, k) && ps[|ps| - 1].0 != k
    ensures LastFiled(ps, j, k) && ps[j] == ps[..|ps| - 1][j]
  {
    var init := ps[..|ps| - 1];
    forall j' | j < j' < |ps| ensures ps[j'].0 != k {
      if j' < |init| {
        assert ps[j'] == init[j'];
      }
    }
  }

  /** The offset vector has exactly the nonempty keys that some dependent feature is filed
      under, and each value is the weight of the last feature filed under that key. */
  lemma OffsetKeysAndValues(ks: seq<string>, m: map<string, real>, rel: string)
    requires forall k :: k in ks ==> k in m
    ensures "" !in Offset(ks, m, rel).vals
    ensures forall k :: k in Offset(ks, m, rel).vals <==>
      k != "" && exists j :: 0 <= j < |ks| && OffsetKey(ks[j], rel) == k
    ensures forall k :: k in Offset(ks, m, rel).vals ==>
      exists j :: (0 <= j < |ks| && OffsetKey(ks[j], rel) == k && Offset(ks, m, rel).vals[k] == m[ks[j]] &&
        forall j' :: j < j' < |ks| ==> OffsetKey(ks[j'], rel) != k)
  {
    var ps := Moves(ks, m, rel);
    RefileMembers(ps);
    RefileLastWins(ps);
    forall k ensures FiledUnder(ps, k) <==> exists j :: 0 <= j < |ks| && OffsetKey(ks[j], rel) == k {
      if FiledUnder(ps, k) {
        var j :| 0 <= j < |ps| && ps[j].0 == k;
        assert OffsetKey(ks[j], rel) == k;
      }
    }
    forall k | k in Offset(ks, m, rel).vals
      ensures exists j :: (0 <= j < |ks| && OffsetKey(ks[j], rel) == k && Offset(ks, m, rel).vals[k] == m[ks[j]] &&
        forall j' :: j < j' < |ks| ==> OffsetKey(ks[j'], rel) != k)
    {
      var j :| LastFiled(ps, j, k) && Refile(ps).vals[k] == ps[j].1;
      assert forall j' :: j < j' < |ks| ==> ps[j'].0 == OffsetKey(ks[j'], rel);
    }
  }

  /** A feature with an empty path, such as ":red", is filed under `rel + feature`: the
      value is now reached through `rel`, a path of order 1. */
  lemma OffsetValueFeature(f: string, rel: string)
    requires PlainLabel(rel)
    requires f != "" && PathType(f) == ""
    ensures OffsetKey(f, rel) == rel + f
    ensures Order(OffsetKey(f, rel)) == 1
  {
    SplitFeatureRoundTrip(f);
    EmptyPathIffColon(f);
    assert f[..1] == ":";
    OrderPrependLabelToValue(rel, f);
  }

  /** A feature whose path does not start with an inverse relation is pushed one step further:
      its order grows by one. */
  lemma OffsetPushes(f: string, rel: string)
    requires PlainLabel(rel)
    requires PathType(f) != "" && !StartsWith(SplitFeature(f).0, "_")
    ensures OffsetKey(f, rel) == rel + SEP + f
    ensures Order(OffsetKey(f, rel)) == Order(f) + 1
  {
    EmptyPathIffColon(f);
    assert !StartsWith(f, ":");
    OrderPrependLabel(rel, f);
  }

  /** A feature whose path starts with "_rel" and goes on loses that first step (the
      dependent's "_rel" link is the head itself): its order drops by one. */
  lemma OffsetCancels(f: string, rel: string)
    requires Order(f) >= 2 && SplitFeature(f).0 == "_" + rel && SplitFeature(f).1 != ""
    ensures OffsetKey(f, rel) == SplitFeature(f).1 + PathValue(f)
    ensures PathType(OffsetKey(f, rel)) == SplitFeature(f).1
    ensures Order(OffsetKey(f, rel)) == Order(f) - 1
  {
    var rest := SplitFeature(f).1;
    SplitFeatureRoundTrip(f);
    PathTypePrepend(rest, PathValue(f));
    PathTypeIsSplit(f);
    if |Split(f, ":")| > 1 {
      assert PathValue(f)[0] == ':';
    }
  }

  /** A feature whose path is just `_rel` (first order, `_rel:v`) or `_rel` and a trailing
      separator (`_rel»:v`) becomes the bare value `:v`, of order 0; with no value it becomes "",
      so it is dropped. */
  lemma OffsetCancelsToValue(f: string, rel: string)
    requires SplitFeature(f).0 == "_" + rel && (Order(f) == 1 || SplitFeature(f).1 == "")
    ensures OffsetKey(f, rel) == PathValue(f)
    ensures PathValue(f) != "" ==> Order(OffsetKey(f, rel)) == 0
    ensures PathValue(f) == "" ==> OffsetKey(f, rel) == ""
  {
    SplitFeatureRoundTrip(f);
    if PathValue(f) != "" {
      EmptyPathIffColon(PathValue(f));
    }
  }

  /** `offsetVector` applied to path totals (whose keys are path types, not features) files
      them differently from the features they total. With `rel` = "mod": the feature ":red"
      becomes "mod:red", of path type "mod", but its path type "" is filed under "mod" + SEP
      (`PathTotalsOffsetPushed`); the feature "_mod:x" becomes ":x", of path type "", but its
      path type "_mod" is dropped (`PathTotalsOffsetDropped`). */
  lemma PathTotalsOffsetPushed(rel: string, v: string)
    requires PlainLabel(rel) && ':' !in v
    ensures PathType(":" + v) == "" && PathType(OffsetKey(":" + v, rel)) == rel
    ensures OffsetKey(PathType(":" + v), rel) == rel + SEP
  {
    var value := ":" + v;
    assert value[0] == ':';
    OffsetValueFeature(value, rel);
    OrderPrependLabelToValue(rel, value);
    assert rel + SEP + "" == rel + SEP;
  }

  lemma PathTotalsOffsetDropped(rel: string, v: string)
    requires PlainLabel(rel) && ':' !in v
    ensures PathType("_" + rel + ":" + v) == "_" + rel && OffsetKey("_" + rel, rel) == ""
    ensures OffsetKey("_" + rel + ":" + v, rel) == ":" + v
  {
    var u := "_" + rel;
    InversePlain(rel);
    var value := ":" + v;
    assert value[0] == ':';
    assert "_" + rel + ":" + v == u + value;
    InverseFeatureToValue(u, value, rel);
    assert u + "" == u;
    InverseFeatureToValue(u, "", rel);
  }

  /** "_" in front of a plain label gives a plain label. */
  lemma InversePlain(rel: string)
    requires PlainLabel(rel)
    ensures PlainLabel("_" + rel)
  {
    var u := "_" + rel;
    assert forall c :: c in u ==> c == '_' || c in rel;
  }

  /** `u + value` for the inverse label `u` = "_" + `rel` and a value (or nothing) has path
      type `u` and is filed under `value`. */
  lemma InverseFeatureToValue(u: string, value: string, rel: string)
    requires u == "_" + rel && PlainLabel(u)
    requires PathType(value) == "" && (value != "" ==> ':' !in value[1..])
    ensures PathType(u + value) == u && OffsetKey(u + value, rel) == value
  {
    var f := u + value;
    OrderPrependLabelToValue(u, value);
    SplitFeatureRoundTrip(f);
    assert SplitFeature(f).0 == "_" + rel && Order(f) == 1;
    OffsetCancelsToValue(f, rel);
    assert OffsetKey(f, rel) == PathValue(f);
    PathTypePrepend(u, value);
    assert PathValue(f) == PathValue(value);
    BareValue(value);
  }

  /** A value (':' and text free of ':'), or nothing, is its own value. */
  lemma BareValue(value: string)
    requires PathType(value) == "" && (value != "" ==> ':' !in value[1..])
    ensures PathValue(value) == value
  {
    if value != "" {
      EmptyPathIffColon(value);
      assert value == "" + [':'] + value[1..];
      TwoFields("", value[1..]);
    }
  }

  /** A feature whose path starts with some other inverse relation is dropped. */
  lemma OffsetDrops(f: string, rel: string)
    requires StartsWith(SplitFeature(f).0, "_") && SplitFeature(f).0 != "_" + rel
    ensures OffsetKey(f, rel) == ""
  {
  }

  /** The weight a head feature ends up with: its own, plus the offset vector's when that has it. */
  function Merged(head: map<string, real>, offset: map<string, real>, f: string): real
    requires f in head
  {
    if f in offset then head[f] + offset[f] else head[f]
  }

  /** The head's features in order, each with the offset weight added when the offset
      vector has it (the first loop of `addCompound`). */
  function HeadPart(ks: seq<string>, head: map<string, real>, offset: map<string, real>): Dict<real>
    requires forall k :: k in ks ==> k in head
  {
    if ks == [] then Empty()
    else
      var r := HeadPart(ks[..|ks| - 1], head, offset);
      var f := ks[|ks| - 1];
      Put(r, f, Merged(head, offset, f))
  }

  /** The dict without the listed keys (the `__delitem__` calls of `addCompound`). */
  function Without(d: Dict<real>, ks: seq<string>): Dict<real>
  {
    if ks == [] then d
    else
      var r := Without(d, ks[..|ks| - 1]);
      if ks[|ks| - 1] in r.vals then Del(r, ks[|ks| - 1]) else r
  }

  lemma {:induction false} WithoutVals(d: Dict<real>, ks: seq<string>)
    ensures forall k :: k in Without(d, ks).vals <==> k in d.vals && k !in ks
    ensures forall k :: k in Without(d, ks).vals ==> Without(d, ks).vals[k] == d.vals[k]
  {
    if ks != [] {
      WithoutVals(d, ks[..|ks| - 1]);
      assert forall x :: x in ks <==> x in ks[..|ks| - 1] || x == ks[|ks| - 1];
    }
  }

  lemma {:induction false} HeadPartVals(ks: seq<string>, head: map<string, real>, offset: map<string, real>)
    requires forall k :: k in ks ==> k in head
    ensures forall k :: k in HeadPart(ks, head, offset).vals <==> k in ks
    ensures forall k :: k in HeadPart(ks, head, offset).vals ==>
      HeadPart(ks, head, offset).vals[k] == if k in offset then head[k] + offset[k] else head[k]
  {
    if ks != [] {
      HeadPartVals(ks[..|ks| - 1], head, offset);
      assert forall x :: x in ks <==> x in ks[..|ks| - 1] || x == ks[|ks| - 1];
    }
  }

  /** What `addCompound` returns for a head vector and an already offset dependent vector. */
  function Compound(head: Dict<real>, offset: Dict<real>): Dict<real>
  {
    Update(HeadPart(head.keys, head.vals, offset.vals), Without(offset, head.keys))
  }

  /** One step of the first loop of `addCompound`: the head's next feature takes the weight
      still left for it in the offset vector `rest` ... */
  lemma {:induction false} HeadPartStep(ks: seq<string>, head: map<string, real>, offset: Dict<real>, i: nat, rest: Dict<real>)
    requires i < |ks| && Distinct(ks)
    requires forall k :: k in ks ==> k in head
    requires rest == Without(offset, ks[..i])
    ensures HeadPart(ks[..i + 1], head, offset.vals)
      == Put(HeadPart(ks[..i], head, offset.vals), ks[i], Merged(head, rest.vals, ks[i]))
  {
    var f := ks[i];
    assert ks[..i + 1][..i] == ks[..i];
    assert HeadPart(ks[..i + 1], head, offset.vals)
      == Put(HeadPart(ks[..i], head, offset.vals), f, Merged(head, offset.vals, f));
    assert f !in ks[..i];
    WithoutVals(offset, ks[..i]);
    assert Merged(head, rest.vals, f) == Merged(head, offset.vals, f);
  }

  /** ... and that weight is removed. */
  lemma {:induction false} WithoutStep(ks: seq<string>, offset: Dict<real>, i: nat, rest: Dict<real>)
    requires i < |ks|
    requires rest == Without(offset, ks[..i])
    ensures Without(offset, ks[..i + 1]) == if ks[i] in rest.vals then Del(rest, ks[i]) else rest
  {
    assert ks[..i + 1][..i] == ks[..i];
  }

  /** Both halves of one step, for the loop's current state. */
  lemma MergeStep(head: Dict<real>, offset: Dict<real>, i: nat, compound: Dict<real>, rest: Dict<real>)
    requires i < |head.keys|
    requires compound == HeadPart(head.keys[..i], head.vals, offset.vals)
    requires rest == Without(offset, head.keys[..i])
    ensures Put(compound, head.keys[i], Merged(head.vals, rest.vals, head.keys[i]))
      == HeadPart(head.keys[..i + 1], head.vals, offset.vals)
    ensures var f := head.keys[i];
      (if f in rest.vals then Del(rest, f) else rest) == Without(offset, head.keys[..i + 1])
  {
    HeadPartStep(head.keys, head.vals, offset, i, rest);
    WithoutStep(head.keys, offset, i, rest);
  }

  /** `addCompound(depvector, headvector, rel)` */
  method AddCompound(depvector: Dict<real>, headvector: Dict<real>, rel: string) returns (compound: Dict<real>)
    ensures compound == Compound(headvector, Offset(depvector.keys, depvector.vals, rel))
  {
    var offsetvector := OffsetVector(depvector, rel);
    ghost var offset0 := offsetvector;
    var keys := headvector.keys;
    compound := Empty();
    for i := 0 to |keys|
      invariant compound == HeadPart(keys[..i], headvector.vals, offset0.vals)
      invariant offsetvector == Without(offset0, keys[..i])
    {
      var feature := keys[i];
      MergeStep(headvector, offset0, i, compound, offsetvector);
      compound := Put(compound, feature, Merged(headvector.vals, offsetvector.vals, feature));
      if feature in offsetvector.vals {
        offsetvector := Del(offsetvector, feature);
      }
    }
    assert keys[..|keys|] == keys;
    compound := Update(compound, offsetvector);
  }

  /** The composed vector has the features of the head and of the offset dependent; a shared
      feature gets the sum of the two weights, any other keeps the weight it had. */
  lemma CompoundMerge(head: Dict<real>, offset: Dict<real>)
    ensures forall f :: f in Compound(head, offset).vals <==> f in head.vals || f in offset.vals
    ensures forall f :: f in head.vals && f in offset.vals ==> Compound(head, offset).vals[f] == head.vals[f] + offset.vals[f]
    ensures forall f :: f in head.vals && f !in offset.vals ==> Compound(head, offset).vals[f] == head.vals[f]
    ensures forall f :: f !in head.vals && f in offset.vals ==> Compound(head, offset).vals[f] == offset.vals[f]
  {
    HeadPartVals(head.keys, head.vals, offset.vals);
    WithoutVals(offset, head.keys);
  }

  /** `addAN(adjvector, nounvector)`: composition through the relation "mod". */
  method AddAN(adjvector: Dict<real>, nounvector: Dict<real>) returns (compound: Dict<real>)
    ensures compound == Compound(nounvector, Offset(adjvector.keys, adjvector.vals, "mod"))
  {
    compound := AddCompound(adjvector, nounvector, "mod");
  }

  function Min(x: real, y: real): real
  {
    if x <= y then x else y
  }

  /** The listed features of `a` with the smaller of the two weights (0 when `b` lacks the
      feature), kept only when that is positive. */
  function Intersected(ks: seq<string>, a: map<string, real>, b: Dict<real>): Dict<real>
    requires forall k :: k in ks ==> k in a
  {
    if ks == [] then Empty()
    else
      var r := Intersected(ks[..|ks| - 1], a, b);
      var feat := ks[|ks| - 1];
      var value := Min(a[feat], GetOr(b, feat, 0.0));
      if value > 0.0 then Put(r, feat, value) else r
  }

  /** `intersecteach(avector, bvector)` */
  method IntersectEach(avector: Dict<real>, bvector: Dict<real>) returns (newvector: Dict<real>)
    ensures newvector == Intersected(avector.keys, avector.vals, bvector)
  {
    var keys := avector.keys;
    newvector := Empty();
    for i := 0 to |keys|
      invariant newvector == Intersected(keys[..i], avector.vals, bvector)
    {
      var feat := keys[i];
      assert keys[..i + 1][..i] == keys[..i];
      var value := Min(avector.vals[feat], GetOr(bvector, feat, 0.0));
      if value > 0.0 {
        newvector := Put(newvector, feat, value);
      }
    }
    assert keys[..|keys|] == keys;
  }

  /** A feature survives exactly when both vectors have it with positive minimum weight,
      and it then carries that minimum. */
  lemma {:induction false} IntersectedVals(ks: seq<string>, a: map<string, real>, b: Dict<real>)
    requires forall k :: k in ks ==> k in a
    ensures forall f :: f in Intersected(ks, a, b).vals <==>
      f in ks && f in b.vals && Min(a[f], b.vals[f]) > 0.0
    ensures forall f :: f in Intersected(ks, a, b).vals ==> Intersected(ks, a, b).vals[f] == Min(a[f], b.vals[f])
  {
    if ks != [] {
      IntersectedVals(ks[..|ks| - 1], a, b);
      assert forall x :: x in ks <==> x in ks[..|ks| - 1] || x == ks[|ks| - 1];
    }
  }

  /** The feature-wise minimum of two weightings, keeping only positive weights. */
  function Meet(a: map<string, real>, b: map<string, real>): map<string, real>
  {
    map f | f in a && f in b && Min(a[f], b[f]) > 0.0 :: Min(a[f], b[f])
  }

  lemma MeetSymmetric(a: map<string, real>, b: map<string, real>)
    ensures Meet(a, b) == Meet(b, a)
  {
    forall f | f in Meet(a, b) ensures f in Meet(b, a) && Meet(a, b)[f] == Meet(b, a)[f] {
    }
    forall f | f in Meet(b, a) ensures f in Meet(a, b) {
    }
  }

  lemma MeetAssociative(a: map<string, real>, b: map<string, real>, c: map<string, real>)
    ensures Meet(Meet(a, b), c) == Meet(a, Meet(b, c))
  {
    var l, r := Meet(Meet(a, b), c), Meet(a, Meet(b, c));
    forall f | f in l ensures f in r && l[f] == r[f] {
    }
    forall f | f in r ensures f in l {
    }
  }

  /** `intersecteach(a, b)` as a map is the meet of the two vectors. */
  lemma IntersectIsMeet(a: Dict<real>, b: Dict<real>)
    ensures Intersected(a.keys, a.vals, b).vals == Meet(a.vals, b.vals)
  {
    IntersectedVals(a.keys, a.vals, b);
  }

  /** `intersecteach` as a map does not depend on the order of its arguments. */
  lemma IntersectSymmetric(a: Dict<real>, b: Dict<real>)
    ensures Intersected(a.keys, a.vals, b).vals == Intersected(b.keys, b.vals, a).vals
  {
    IntersectIsMeet(a, b);
    IntersectIsMeet(b, a);
    MeetSymmetric(a.vals, b.vals);
  }

  /** Intersecting a vector of positive weights with itself keeps every listed key, in order. */
  lemma {:induction false} IntersectSelfKeys(ks: seq<string>, v: Dict<real>)
    requires forall k :: k in ks ==> k in v.vals && v.vals[k] > 0.0
    requires Distinct(ks)
    ensures Intersected(ks, v.vals, v).keys == ks
  {
    if ks != [] {
      var init, last := ks[..|ks| - 1], ks[|ks| - 1];
      assert Distinct(init) && last !in init;
      var r := Intersected(init, v.vals, v);
      IntersectSelfKeys(init, v);
      assert last !in r.vals;
      assert Min(v.vals[last], GetOr(v, last, 0.0)) == v.vals[last];
      assert Intersected(ks, v.vals, v) == Put(r, last, v.vals[last]);
      assert init + [last] == ks;
    }
  }

  /** Intersecting a vector of positive weights with itself gives it back, keys in order. */
  lemma IntersectSelf(ks: seq<string>, v: Dict<real>)
    requires forall k :: k in ks ==> k in v.vals && v.vals[k] > 0.0
    requires Distinct(ks)
    ensures Intersected(ks, v.vals, v).keys == ks
    ensures forall f :: f in Intersected(ks, v.vals, v).vals <==> f in ks
    ensures forall f :: f in ks ==> Intersected(ks, v.vals, v).vals[f] == v.vals[f]
  {
    IntersectSelfKeys(ks, v);
    IntersectedVals(ks, v.vals, v);
  }

  /** Applied to a whole vector of positive weights: `intersecteach(v, v) == v`. */
  lemma IntersectIdempotent(v: Dict<real>)
    requires forall k :: k in v.vals ==> v.vals[k] > 0.0
    ensures Intersected(v.keys, v.vals, v) == v
  {
    IntersectSelf(v.keys, v);
  }

  /** Intersection is associative as a map, so a word list intersects to the same vector
      however it is grouped. */
  lemma IntersectAssociative(a: Dict<real>, b: Dict<real>, c: Dict<real>)
    ensures Intersected(Intersected(a.keys, a.vals, b).keys, Intersected(a.keys, a.vals, b).vals, c).vals
         == Intersected(a.keys, a.vals, Intersected(b.keys, b.vals, c)).vals
  {
    var ab := Intersected(a.keys, a.vals, b);
    var bc := Intersected(b.keys, b.vals, c);
    IntersectIsMeet(a, b);
    IntersectIsMeet(b, c);
    IntersectIsMeet(ab, c);
    IntersectIsMeet(a, bc);
    MeetAssociative(a.vals, b.vals, c.vals);
  }
}
