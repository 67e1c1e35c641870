/** Intersective composition (`intersectall`): each loaded word list is reduced to the
    feature-wise minimum of its words' vectors, stored under the words joined by '_'. */
module Intersection {
  import opened PyStr
  import opened Dicts
  import opened Outcomes
  import opened Compose

  /** `vector = intersecteach(vector, nounvecs[aword])` for the remaining words, with the
      KeyError of the first word that has no vector. */
  function Meeting(v: Dict<real>, ws: seq<string>, nounvecs: Dict<Dict<real>>): Result<Dict<real>>
    decreases |ws|
  {
    if ws == [] then Ok(v)
    else if ws[0] !in nounvecs.vals then Err(KeyError(ws[0]))
    else Meeting(Intersected(v.keys, v.vals, nounvecs.vals[ws[0]]), ws[1..], nounvecs)
  }

  /** The intersected vector of one word list: IndexError for an empty list, the first
      word's vector when it is alone. */
  function IntersectList(wordlist: seq<string>, nounvecs: Dict<Dict<real>>): Result<Dict<real>>
  {
    if wordlist == [] then Err(IndexError)
    else if wordlist[0] !in nounvecs.vals then Err(KeyError(wordlist[0]))
    else Meeting(nounvecs.vals[wordlist[0]], wordlist[1..], nounvecs)
  }

  /** The vector of one word list, as the body of the loop of `intersectall` computes it:
      the first word's vector, intersected with the vector of each further word in turn. */
  method IntersectWords(wordlist: seq<string>, nounvecs: Dict<Dict<real>>) returns (r: Result<Dict<real>>)
    ensures r == IntersectList(wordlist, nounvecs)
  {
    if |wordlist| == 0 {
      return Err(IndexError);
    }
    if wordlist[0] !in nounvecs.vals {
      return Err(KeyError(wordlist[0]));
    }
    var vector := nounvecs.vals[wordlist[0]];
    for j := 1 to |wordlist|
      invariant Meeting(vector, wordlist[j..], nounvecs) == IntersectList(wordlist, nounvecs)
    {
      var aword := wordlist[j];
      assert wordlist[j..][1..] == wordlist[j + 1..];
      if aword !in nounvecs.vals {
        return Err(KeyError(aword));
      }
      vector := IntersectEach(vector, nounvecs.vals[aword]);
    }
    assert wordlist[|wordlist|..] == [];
    r := Ok(vector);
  }

  /** Feature `f` has a positive weight in the vector of every listed word. */
  predicate Common(f: string, ws: seq<string>, nounvecs: Dict<Dict<real>>)
  {
    forall w :: w in ws ==> w in nounvecs.vals && f in nounvecs.vals[w].vals && nounvecs.vals[w].vals[f] > 0.0
  }

  /** Folding `intersecteach` over words keeps just the features of `v` that have a positive
      weight everywhere, each with a weight no greater than any of its weights; it fails
      exactly when some word has no vector. */
  lemma {:induction false} MeetingSound(v: Dict<real>, ws: seq<string>, nounvecs: Dict<Dict<real>>)
    ensures Meeting(v, ws, nounvecs).Ok? <==> forall w :: w in ws ==> w in nounvecs.vals
    ensures Meeting(v, ws, nounvecs).Err? ==> Meeting(v, ws, nounvecs).error.KeyError?
    ensures Meeting(v, ws, nounvecs).Ok? && ws != [] ==>
      forall f :: f in Meeting(v, ws, nounvecs).value.vals <==> f in v.vals && v.vals[f] > 0.0 && Common(f, ws, nounvecs)
    ensures Meeting(v, ws, nounvecs).Ok? ==>
      forall f :: f in Meeting(v, ws, nounvecs).value.vals ==>
        && f in v.vals && Meeting(v, ws, nounvecs).value.vals[f] <= v.vals[f]
        && forall w :: w in ws ==>
          w in nounvecs.vals && f in nounvecs.vals[w].vals && Meeting(v, ws, nounvecs).value.vals[f] <= nounvecs.vals[w].vals[f]
    decreases |ws|
  {
    if ws != [] && ws[0] in nounvecs.vals {
      var b := nounvecs.vals[ws[0]];
      var u := Intersected(v.keys, v.vals, b);
      IntersectedVals(v.keys, v.vals, b);
      MeetingSound(u, ws[1..], nounvecs);
      assert forall w :: w in ws <==> w == ws[0] || w in ws[1..];
    }
  }

  /** Each kept weight is one of the weights met: the starting vector's, or that of some
      listed word's vector (`min` picks one of its two arguments at every step). */
  lemma {:induction false} MeetingPicksWeight(v: Dict<real>, ws: seq<string>, nounvecs: Dict<Dict<real>>)
    ensures Meeting(v, ws, nounvecs).Ok? ==>
      forall f :: f in Meeting(v, ws, nounvecs).value.vals ==>
        || (f in v.vals && Meeting(v, ws, nounvecs).value.vals[f] == v.vals[f])
        || exists w :: w in ws && w in nounvecs.vals && f in nounvecs.vals[w].vals
             && Meeting(v, ws, nounvecs).value.vals[f] == nounvecs.vals[w].vals[f]
    decreases |ws|
  {
    if ws != [] && ws[0] in nounvecs.vals && Meeting(v, ws, nounvecs).Ok? {
      var b := nounvecs.vals[ws[0]];
      var u := Intersected(v.keys, v.vals, b);
      var r := Meeting(v, ws, nounvecs).value;
      IntersectedVals(v.keys, v.vals, b);
      MeetingPicksWeight(u, ws[1..], nounvecs);
      forall f | f in r.vals
        ensures || (f in v.vals && r.vals[f] == v.vals[f])
                || exists w :: w in ws && w in nounvecs.vals && f in nounvecs.vals[w].vals && r.vals[f] == nounvecs.vals[w].vals[f]
      {
        if f in u.vals && r.vals[f] == u.vals[f] {
          if u.vals[f] != v.vals[f] {
            assert ws[0] in ws && r.vals[f] == b.vals[f];
          }
        } else {
          var w :| w in ws[1..] && w in nounvecs.vals && f in nounvecs.vals[w].vals && r.vals[f] == nounvecs.vals[w].vals[f];
          assert w in ws;
        }
      }
    }
  }

  /** One word list: IndexError exactly for the empty list, no error exactly when every word
      has a vector; a single word gives its own vector, and two or more keep exactly the
      features every word's vector weights positively, at no more than any of those weights. */
  lemma IntersectListSound(wordlist: seq<string>, nounvecs: Dict<Dict<real>>)
    ensures IntersectList(wordlist, nounvecs) == Err(IndexError) <==> wordlist == []
    ensures IntersectList(wordlist, nounvecs).Ok? <==> wordlist != [] && forall w :: w in wordlist ==> w in nounvecs.vals
    ensures |wordlist| == 1 && wordlist[0] in nounvecs.vals ==> IntersectList(wordlist, nounvecs) == Ok(nounvecs.vals[wordlist[0]])
    ensures |wordlist| >= 2 && IntersectList(wordlist, nounvecs).Ok? ==>
      forall f :: f in IntersectList(wordlist, nounvecs).value.vals <==> Common(f, wordlist, nounvecs)
    ensures IntersectList(wordlist, nounvecs).Ok? ==>
      forall f, w :: f in IntersectList(wordlist, nounvecs).value.vals && w in wordlist ==>
        w in nounvecs.vals && f in nounvecs.vals[w].vals && IntersectList(wordlist, nounvecs).value.vals[f] <= nounvecs.vals[w].vals[f]
    ensures IntersectList(wordlist, nounvecs).Ok? ==>
      forall f :: f in IntersectList(wordlist, nounvecs).value.vals ==>
        exists w :: w in wordlist && w in nounvecs.vals && f in nounvecs.vals[w].vals
          && IntersectList(wordlist, nounvecs).value.vals[f] == nounvecs.vals[w].vals[f]
  {
    if wordlist != [] && wordlist[0] in nounvecs.vals {
      MeetingSound(nounvecs.vals[wordlist[0]], wordlist[1..], nounvecs);
      MeetingPicksWeight(nounvecs.vals[wordlist[0]], wordlist[1..], nounvecs);
      assert forall w :: w in wordlist <==> w == wordlist[0] || w in wordlist[1..];
    }
  }

  /** The intersected vectors and the totals (`nountots`) built so far. */
  datatype Intersections = Intersections(vecs: Dict<Dict<real>>, tots: Dict<real>)

  /** The loop of `intersectall` over the remaining word lists: each list's vector and its
      total are stored under the list's joined name; the first error ends the loop with the
      totals stored before it. */
  function IntersectLists(lists: seq<seq<string>>, nounvecs: Dict<Dict<real>>, acc: Intersections): (Intersections, Option<Error>)
    decreases |lists|
  {
    if lists == [] then (acc, None)
    else match IntersectList(lists[0], nounvecs)
      case Err(e) => (acc, Some(e))
      case Ok(v) =>
        var name := Joined(lists[0], "_");
        IntersectLists(lists[1..], nounvecs, Intersections(Put(acc.vecs, name, v), Put(acc.tots, name, Total(v))))
  }

  /** Every intersected vector has its total stored under the same name. */
  predicate Totalled(acc: Intersections)
  {
    forall n :: n in acc.vecs.vals ==> n in acc.tots.vals && acc.tots.vals[n] == Total(acc.vecs.vals[n])
  }

  /** The loop keeps each stored total equal to the sum of its vector's weights. */
  lemma {:induction false} IntersectListsTotals(lists: seq<seq<string>>, nounvecs: Dict<Dict<real>>, acc: Intersections)
    requires Totalled(acc)
    ensures Totalled(IntersectLists(lists, nounvecs, acc).0)
    decreases |lists|
  {
    if lists != [] {
      var o := IntersectList(lists[0], nounvecs);
      if o.Ok? {
        var name := Joined(lists[0], "_");
        IntersectListsTotals(lists[1..], nounvecs, Intersections(Put(acc.vecs, name, o.value), Put(acc.tots, name, Total(o.value))));
      }
    }
  }

  /** Without error the loop stores a vector under the name of every word list, and keeps
      the names stored before it. */
  lemma {:induction false} IntersectListsNames(lists: seq<seq<string>>, nounvecs: Dict<Dict<real>>, acc: Intersections)
    ensures IntersectLists(lists, nounvecs, acc).1 == None ==>
      && (forall k :: 0 <= k < |lists| ==> Joined(lists[k], "_") in IntersectLists(lists, nounvecs, acc).0.vecs.vals)
      && acc.vecs.vals.Keys <= IntersectLists(lists, nounvecs, acc).0.vecs.vals.Keys
    decreases |lists|
  {
    if lists != [] {
      var o := IntersectList(lists[0], nounvecs);
      if o.Ok? {
        var name := Joined(lists[0], "_");
        IntersectListsNames(lists[1..], nounvecs, Intersections(Put(acc.vecs, name, o.value), Put(acc.tots, name, Total(o.value))));
        assert forall k :: 0 < k < |lists| ==> lists[k] == lists[1..][k - 1];
      }
    }
  }
}
