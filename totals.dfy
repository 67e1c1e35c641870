/** Totals by path type: `compute_typetotals` gives C<*,t,*> from the column totals and
    `compute_nounpathtotals` gives C<w,t,*> for every entry w. */
module Totals {
  import opened Dicts
  import opened Codec

  /** The weights of the listed features summed by path type; path types appear in the
      order their first feature is met. */
  function PathTotals(ks: seq<string>, m: map<string, real>): Dict<real>
    requires forall k :: k in ks ==> k in m
  {
    if ks == [] then Empty()
    else
      var r := PathTotals(ks[..|ks| - 1], m);
      var p := PathType(ks[|ks| - 1]);
      AddTo(r, p, m[ks[|ks| - 1]])
  }

  /** The sum of the weights of the listed features whose path type is `p`. */
  function SumOnPath(ks: seq<string>, m: map<string, real>, p: string): real
    requires forall k :: k in ks ==> k in m
  {
    if ks == [] then 0.0
    else SumOnPath(ks[..|ks| - 1], m, p) + (if PathType(ks[|ks| - 1]) == p then m[ks[|ks| - 1]] else 0.0)
  }

  /** Some listed feature has path type `p`. */
  predicate HasPath(ks: seq<string>, p: string)
  {
    exists k :: k in ks && PathType(k) == p
  }

  /** Each path type's total is the sum of the weights of its features, and the path types
      are exactly those of the features. */
  lemma {:induction false} PathTotalsSum(ks: seq<string>, m: map<string, real>)
    requires forall k :: k in ks ==> k in m
    ensures forall p :: GetOr(PathTotals(ks, m), p, 0.0) == SumOnPath(ks, m, p)
    ensures forall p :: p in PathTotals(ks, m).vals <==> HasPath(ks, p)
  {
    if ks != [] {
      var init, last := ks[..|ks| - 1], ks[|ks| - 1];
      PathTotalsSum(init, m);
      assert ks == init + [last];
      forall p ensures HasPath(ks, p) <==> HasPath(init, p) || PathType(last) == p {
        if PathType(last) == p {
          assert last in ks;
        }
        if HasPath(ks, p) && PathType(last) != p {
          var k :| k in ks && PathType(k) == p;
          assert k in init;
        }
      }
    }
  }

  /** Grouping by path type neither loses nor double-counts weight. */
  lemma {:induction false} PathTotalsConserve(ks: seq<string>, m: map<string, real>)
    requires forall k :: k in ks ==> k in m
    ensures Total(PathTotals(ks, m)) == SumOf(ks, m)
  {
    if ks != [] {
      var init, last := ks[..|ks| - 1], ks[|ks| - 1];
      var r := PathTotals(init, m);
      PathTotalsConserve(init, m);
      TotalAddTo(r, PathType(last), m[last]);
    }
  }

  /** `compute_typetotals(feattots)` */
  method ComputeTypeTotals(feattots: Dict<real>) returns (typetots: Dict<real>)
    ensures typetots == PathTotals(feattots.keys, feattots.vals)
  {
    var keys := feattots.keys;
    typetots := Empty();
    for i := 0 to |keys|
      invariant typetots == PathTotals(keys[..i], feattots.vals)
    {
      var feature := keys[i];
      var pathtype := PathType(feature);
      assert keys[..i + 1][..i] == keys[..i];
      typetots := AddTo(typetots, pathtype, feattots.vals[feature]);
    }
    assert keys[..|keys|] == keys;
  }

  /** The path totals of one vector. */
  function VectorPathTotals(v: Dict<real>): Dict<real>
  {
    PathTotals(v.keys, v.vals)
  }

  /** `compute_nounpathtotals(vectors)`: the same entries in the same order, each with the
      path totals of its vector. The inner loop over a vector's features is the loop of
      `compute_typetotals`, so it is that method here. */
  method ComputeNounPathTotals(vectors: Dict<Dict<real>>) returns (pathtotals: Dict<Dict<real>>)
    ensures pathtotals.keys == vectors.keys
    ensures forall e :: e in pathtotals.vals ==> e in vectors.vals && pathtotals.vals[e] == VectorPathTotals(vectors.vals[e])
  {
    var entries := vectors.keys;
    pathtotals := Empty();
    for i := 0 to |entries|
      invariant pathtotals.keys == entries[..i]
      invariant forall e :: e in pathtotals.vals ==> e in vectors.vals && pathtotals.vals[e] == VectorPathTotals(vectors.vals[e])
    {
      var entry := entries[i];
      var vector := vectors.vals[entry];
      var totalvector := ComputeTypeTotals(vector);
      assert entry !in entries[..i];
      pathtotals := Put(pathtotals, entry, totalvector);
      assert entries[..i + 1] == entries[..i] + [entry];
    }
    assert entries[..|entries|] == entries;
  }
}
