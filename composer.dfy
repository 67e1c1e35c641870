/** The state the `Composition` object keeps across its stages (the words of interest, the
    vectors and totals by part of speech, the composed vectors and totals) and the methods
    that update it: `set_words`, the loading of one part of speech in `compose`,
    `CompoundCompose`, `ANcompose`, `runANcomposition` and `intersectall`. */
module Composer {
  import opened PyStr
  import opened Dicts
  import opened Codec
  import opened Words
  import opened Outcomes
  import opened Compose
  import opened Totals
  import opened Pairs
  import opened Intersection

  /** Under part of speech `p` the path totals are those of the vectors, entry by entry and
      in the same order. */
  predicate AlignedAt(vecsbypos: map<string, Dict<Dict<real>>>, pathtotsbypos: map<string, Dict<Dict<real>>>, p: string)
    requires p in vecsbypos
  {
    && p in pathtotsbypos
    && pathtotsbypos[p].keys == vecsbypos[p].keys
    && forall e :: e in pathtotsbypos[p].vals && e in vecsbypos[p].vals ==>
         pathtotsbypos[p].vals[e] == VectorPathTotals(vecsbypos[p].vals[e])
  }

  /** Every part of speech is aligned. */
  predicate Aligned(vecsbypos: map<string, Dict<Dict<real>>>, pathtotsbypos: map<string, Dict<Dict<real>>>)
  {
    forall p :: p in vecsbypos ==> AlignedAt(vecsbypos, pathtotsbypos, p)
  }

  /** Storing the path totals of a part of speech's vectors aligns the stores again. */
  lemma AlignedStore(vecsbypos: map<string, Dict<Dict<real>>>, pathtotsbypos: map<string, Dict<Dict<real>>>,
                     pos: string, pathtots: Dict<Dict<real>>)
    requires pos in vecsbypos
    requires forall p :: p in vecsbypos && p != pos ==> AlignedAt(vecsbypos, pathtotsbypos, p)
    requires pathtots.keys == vecsbypos[pos].keys
    requires forall e :: e in pathtots.vals ==> e in vecsbypos[pos].vals && pathtots.vals[e] == VectorPathTotals(vecsbypos[pos].vals[e])
    ensures Aligned(vecsbypos, pathtotsbypos[pos := pathtots])
  {
  }

  /** `runANcomposition` finds the column and path-type totals of both parts of speech. */
  predicate TotalsKnown(feattotsbypos: map<string, Dict<real>>, typetotsbypos: map<string, Dict<real>>)
  {
    "J" in feattotsbypos && "N" in feattotsbypos && "J" in typetotsbypos && "N" in typetotsbypos
  }

  /** The KeyError of the first of the four lookups that fails, in the order of the code. */
  function TotalsError(feattotsbypos: map<string, Dict<real>>, typetotsbypos: map<string, Dict<real>>): (e: Error)
    requires !TotalsKnown(feattotsbypos, typetotsbypos)
    ensures e.KeyError? && (e.key == "J" || e.key == "N")
    ensures e.key !in feattotsbypos || e.key !in typetotsbypos
  {
    if "J" !in feattotsbypos then KeyError("J")
    else if "N" !in feattotsbypos then KeyError("N")
    else if "J" !in typetotsbypos then KeyError("J")
    else KeyError("N")
  }

  /** `ANfeattots`, `ANtypetots` and the error after the totals step of `runANcomposition`:
      the column totals are composed once both of its lookups succeed, the path-type totals
      once all four do. */
  function ComposedTotals(feattotsbypos: map<string, Dict<real>>, typetotsbypos: map<string, Dict<real>>,
                          feattots: Dict<real>, typetots: Dict<real>): (Dict<real>, Dict<real>, Option<Error>)
  {
    if "J" !in feattotsbypos || "N" !in feattotsbypos then (feattots, typetots, Some(TotalsError(feattotsbypos, typetotsbypos)))
    else
      var composed := Compound(feattotsbypos["N"], Offset(feattotsbypos["J"].keys, feattotsbypos["J"].vals, "mod"));
      if "J" !in typetotsbypos || "N" !in typetotsbypos then (composed, typetots, Some(TotalsError(feattotsbypos, typetotsbypos)))
      else (composed, Compound(typetotsbypos["N"], Offset(typetotsbypos["J"].keys, typetotsbypos["J"].vals, "mod")), None)
  }

  /** The totals step fails exactly when one of the four lookups does, with the KeyError of
      the first; the column totals are replaced only when both of theirs succeed, the
      path-type totals only when all four do, and the composed column totals carry the
      features of the noun totals and of the offset adjective totals. */
  lemma ComposedTotalsSound(feattotsbypos: map<string, Dict<real>>, typetotsbypos: map<string, Dict<real>>,
                            feattots: Dict<real>, typetots: Dict<real>)
    ensures var (f, t, e) := ComposedTotals(feattotsbypos, typetotsbypos, feattots, typetots);
      && (e == None <==> TotalsKnown(feattotsbypos, typetotsbypos))
      && (e != None ==> e.value.KeyError? && (e.value.key !in feattotsbypos || e.value.key !in typetotsbypos))
      && (e != None ==> t == typetots)
      && ("J" !in feattotsbypos || "N" !in feattotsbypos ==> f == feattots)
      && ("J" in feattotsbypos && "N" in feattotsbypos ==>
            forall k :: k in f.vals <==> k in feattotsbypos["N"].vals
                                         || k in Offset(feattotsbypos["J"].keys, feattotsbypos["J"].vals, "mod").vals)
  {
    if "J" in feattotsbypos && "N" in feattotsbypos {
      CompoundMerge(feattotsbypos["N"], Offset(feattotsbypos["J"].keys, feattotsbypos["J"].vals, "mod"));
    }
  }

  /** The part-of-speech tags `__init__` gives an (empty) store each. */
  const PosTags: set<string> := {"N", "V", "J", "R", "F", "ANS"}

  class Composition {
    var pos: string
    var words: seq<string>
    var comppairfile: string
    var comppairlist: seq<seq<string>>
    var filterfile: string
    var wordlistlist: seq<seq<string>>
    // the default word lists, attributes of the class in the code
    var nouns: seq<string>
    var adjectives: seq<string>
    var verbs: seq<string>
    var adverbs: seq<string>
    var others: seq<string>
    // vectors and totals by part of speech
    var vecsbypos: map<string, Dict<Dict<real>>>
    var pathtotsbypos: map<string, Dict<Dict<real>>>
    var totsbypos: map<string, Dict<real>>
    var feattotsbypos: map<string, Dict<real>>
    var typetotsbypos: map<string, Dict<real>>
    // composed vectors and totals
    var ANvecs: Dict<Dict<real>>
    var ANpathtots: Dict<Dict<real>>
    var ANtots: Dict<real>
    var ANfeattots: Dict<real>
    var ANtypetots: Dict<real>
    // intersective composition
    var nounvecs: Dict<Dict<real>>
    var nountots: Dict<real>

    /** The part of `__init__` that sets up the stores: one empty dict per part-of-speech tag. */
    constructor(pos: string, comppairfile: string, comppairlist: seq<seq<string>>, filterfile: string,
                nouns: seq<string>, adjectives: seq<string>, verbs: seq<string>, adverbs: seq<string>, others: seq<string>)
      ensures this.pos == pos && this.comppairfile == comppairfile && this.comppairlist == comppairlist
      ensures this.filterfile == filterfile && words == [] && wordlistlist == []
      ensures this.nouns == nouns && this.adjectives == adjectives && this.verbs == verbs
      ensures this.adverbs == adverbs && this.others == others
      ensures vecsbypos.Keys == PosTags && pathtotsbypos.Keys == PosTags && totsbypos.Keys == PosTags
      ensures feattotsbypos.Keys == PosTags && typetotsbypos.Keys == PosTags
      ensures forall p :: p in PosTags ==> vecsbypos[p] == Empty() && pathtotsbypos[p] == Empty()
      ensures forall p :: p in PosTags ==> totsbypos[p] == Empty() && feattotsbypos[p] == Empty() && typetotsbypos[p] == Empty()
      ensures Aligned(vecsbypos, pathtotsbypos)
    {
      this.pos := pos;
      this.comppairfile := comppairfile;
      this.comppairlist := comppairlist;
      this.filterfile := filterfile;
      this.nouns := nouns;
      this.adjectives := adjectives;
      this.verbs := verbs;
      this.adverbs := adverbs;
      this.others := others;
      words := [];
      wordlistlist := [];
      vecsbypos := map p | p in PosTags :: Empty();
      pathtotsbypos := map p | p in PosTags :: Empty();
      totsbypos := map p | p in PosTags :: Empty();
      feattotsbypos := map p | p in PosTags :: Empty();
      typetotsbypos := map p | p in PosTags :: Empty();
      ANvecs := Empty();
      ANpathtots := Empty();
      ANtots := Empty();
      ANfeattots := Empty();
      ANtypetots := Empty();
      nounvecs := Empty();
      nountots := Empty();
    }

    /** `set_words()`, with the word lists of the filter file passed in as `loaded`: the
        words of the composition pairs (the adjectives for "J", the nouns otherwise), once
        each and up to the first pair too short to index; else the default list of the part
        of speech; else the concatenated loaded lists. */
    method SetWords(loaded: seq<seq<string>>) returns (failure: Option<Error>)
      modifies this`words, this`wordlistlist
      ensures comppairfile != "" ==>
        && words == PairWords(comppairlist, if pos == "J" then 2 else 0, [])
        && (failure == None <==> AllReach(comppairlist, if pos == "J" then 2 else 0))
        && (failure != None ==> failure == Some(IndexError))
        && wordlistlist == old(wordlistlist)
      ensures comppairfile == "" && filterfile == "" ==>
        && failure == None && wordlistlist == old(wordlistlist)
        && words == (if pos == "N" then nouns else if pos == "J" then adjectives else if pos == "V" then verbs
                     else if pos == "R" then adverbs else others)
      ensures comppairfile == "" && filterfile != "" ==>
        failure == None && wordlistlist == loaded && words == Concat(loaded)
    {
      if comppairfile != "" {
        var index := if pos == "J" then 2 else 0;
        words := [];
        for i := 0 to |comppairlist|
          invariant PairWords(comppairlist[i..], index, words) == PairWords(comppairlist, index, [])
          invariant forall k :: 0 <= k < i ==> index < |comppairlist[k]|
          invariant wordlistlist == old(wordlistlist)
        {
          var pair := comppairlist[i];
          if |pair| <= index {
            assert !AllReach(comppairlist, index) by {
              assert |comppairlist[i]| <= index;
            }
            return Some(IndexError);
          }
          assert comppairlist[i..][1..] == comppairlist[i + 1..];
          if pair[index] !in words {
            words := words + [pair[index]];
          }
        }
        failure := None;
      } else if filterfile == "" {
        if pos == "N" {
          words := nouns;
        } else if pos == "J" {
          words := adjectives;
        } else if pos == "V" {
          words := verbs;
        } else if pos == "R" {
          words := adverbs;
        } else {
          words := others;
        }
        failure := None;
      } else {
        wordlistlist := loaded;
        words := [];
        for i := 0 to |loaded|
          invariant words == Concat(loaded[..i])
          invariant wordlistlist == loaded
        {
          assert loaded[..i + 1][..i] == loaded[..i];
          words := words + loaded[i];
        }
        assert loaded[..|loaded|] == loaded;
        failure := None;
      }
    }

    /** The first half of the body of the loop of `compose` for the current part of speech:
        the loaded column totals, row totals and vectors are stored under it. */
    method StoreLoaded(coltotals: Dict<real>, rowtotals: Dict<real>, vectors: Dict<Dict<real>>)
      modifies this`feattotsbypos, this`totsbypos, this`vecsbypos
      ensures feattotsbypos == old(feattotsbypos)[pos := coltotals]
      ensures totsbypos == old(totsbypos)[pos := rowtotals]
      ensures vecsbypos == old(vecsbypos)[pos := vectors]
      ensures old(Aligned(vecsbypos, pathtotsbypos)) ==>
        forall p :: p in vecsbypos && p != pos ==> AlignedAt(vecsbypos, pathtotsbypos, p)
    {
      feattotsbypos, totsbypos, vecsbypos := feattotsbypos[pos := coltotals], totsbypos[pos := rowtotals], vecsbypos[pos := vectors];
    }

    /** The second half: the path totals of every stored vector of the part of speech and
        its totals by path type are computed and stored, which aligns the stores again. */
    method StorePathTotals()
      modifies this`pathtotsbypos, this`typetotsbypos
      requires pos in vecsbypos && pos in feattotsbypos
      requires forall p :: p in vecsbypos && p != pos ==> AlignedAt(vecsbypos, pathtotsbypos, p)
      ensures pathtotsbypos.Keys == old(pathtotsbypos).Keys + {pos}
      ensures forall p :: p in pathtotsbypos && p != pos ==> pathtotsbypos[p] == old(pathtotsbypos)[p]
      ensures typetotsbypos == old(typetotsbypos)[pos := PathTotals(feattotsbypos[pos].keys, feattotsbypos[pos].vals)]
      ensures Aligned(vecsbypos, pathtotsbypos)
    {
      var pathtots := ComputeNounPathTotals(vecsbypos[pos]);
      var typetots := ComputeTypeTotals(feattotsbypos[pos]);
      AlignedStore(vecsbypos, pathtotsbypos, pos, pathtots);
      pathtotsbypos, typetotsbypos := pathtotsbypos[pos := pathtots], typetotsbypos[pos := typetots];
    }

    /** `CompoundCompose(dep, head, rel)`: on success the composed vector, path totals and
        total are stored under the composed name; a failed lookup changes nothing. */
    method CompoundCompose(dep: string, head: string, rel: string) returns (failure: Option<Error>)
      modifies this`ANvecs, this`ANpathtots, this`ANtots
      ensures var c := Composed(vecsbypos, pathtotsbypos, totsbypos, dep, head, rel);
        && (c.Err? ==> failure == Some(c.error) && ANState(ANvecs, ANpathtots, ANtots) == old(ANState(ANvecs, ANpathtots, ANtots)))
        && (c.Ok? ==> failure == None && ANState(ANvecs, ANpathtots, ANtots) == Store(old(ANState(ANvecs, ANpathtots, ANtots)), c.value))
    {
      var operands := Gathered(vecsbypos, pathtotsbypos, totsbypos, dep, head, rel);
      if operands.Err? {
        return Some(operands.error);
      }
      var composite := Combine(operands.value, dep, head, rel);
      Save(composite);
      failure := None;
    }

    /** The three assignments that end `CompoundCompose`. */
    method Save(c: Composite)
      modifies this`ANvecs, this`ANpathtots, this`ANtots
      ensures ANState(ANvecs, ANpathtots, ANtots) == Store(old(ANState(ANvecs, ANpathtots, ANtots)), c)
    {
      ANvecs := Put(ANvecs, c.entry, c.vector);
      ANpathtots := Put(ANpathtots, c.entry, c.pathtots);
      ANtots := Put(ANtots, c.entry, c.total);
    }

    /** `ANcompose(adj, noun)`: composition through the relation "mod". */
    method ANCompose(adj: string, noun: string) returns (failure: Option<Error>)
      modifies this`ANvecs, this`ANpathtots, this`ANtots
      ensures var c := Composed(vecsbypos, pathtotsbypos, totsbypos, adj, noun, "mod");
        && (c.Err? ==> failure == Some(c.error) && ANState(ANvecs, ANpathtots, ANtots) == old(ANState(ANvecs, ANpathtots, ANtots)))
        && (c.Ok? ==> failure == None && ANState(ANvecs, ANpathtots, ANtots) == Store(old(ANState(ANvecs, ANpathtots, ANtots)), c.value))
    {
      failure := CompoundCompose(adj, noun, "mod");
    }

    /** `runANcomposition()` up to the PPMI step: the composed column and path-type totals
        from those of the adjectives and the nouns, then the composed vectors and totals of
        every job, from empty dicts and up to the first error. */
    method RunANComposition() returns (failure: Option<Error>)
      modifies this`ANfeattots, this`ANtypetots, this`ANvecs, this`ANpathtots, this`ANtots
      ensures var (feattots, typetots, error) := ComposedTotals(feattotsbypos, typetotsbypos, old(ANfeattots), old(ANtypetots));
        && ANfeattots == feattots && ANtypetots == typetots
        && (ANState(ANvecs, ANpathtots, ANtots), failure)
           == if error != None then (old(ANState(ANvecs, ANpathtots, ANtots)), error)
              else RunJobs(ANJobs(comppairfile, comppairlist, adjectives, nouns), ANState(Empty(), Empty(), Empty()),
                           vecsbypos, pathtotsbypos, totsbypos)
    {
      failure := ComposeTotals();
      if failure != None {
        return;
      }
      failure := RunComposition();
    }

    method RunComposition() returns (failure: Option<Error>)
      modifies this`ANvecs, this`ANpathtots, this`ANtots
      ensures (ANState(ANvecs, ANpathtots, ANtots), failure)
           == RunJobs(ANJobs(comppairfile, comppairlist, adjectives, nouns), ANState(Empty(), Empty(), Empty()),
                      vecsbypos, pathtotsbypos, totsbypos)
    {
      ANvecs := Empty();
      ANtots := Empty();
      ANpathtots := Empty();
      if comppairfile != "" {
        failure := RunPairs();
      } else {
        failure := RunGrid();
      }
    }

    method ComposeTotals() returns (failure: Option<Error>)
      modifies this`ANfeattots, this`ANtypetots
      ensures (ANfeattots, ANtypetots, failure) == ComposedTotals(feattotsbypos, typetotsbypos, old(ANfeattots), old(ANtypetots))
    {
      if "J" !in feattotsbypos { return Some(KeyError("J")); }
      if "N" !in feattotsbypos { return Some(KeyError("N")); }
      ANfeattots := AddAN(feattotsbypos["J"], feattotsbypos["N"]);
      if "J" !in typetotsbypos { return Some(KeyError("J")); }
      if "N" !in typetotsbypos { return Some(KeyError("N")); }
      ANtypetots := AddAN(typetotsbypos["J"], typetotsbypos["N"]);
      failure := None;
    }

    method RunPairs() returns (failure: Option<Error>)
      modifies this`ANvecs, this`ANpathtots, this`ANtots
      ensures (ANState(ANvecs, ANpathtots, ANtots), failure)
           == RunJobs(PairJobs(comppairlist), old(ANState(ANvecs, ANpathtots, ANtots)), vecsbypos, pathtotsbypos, totsbypos)
    {
      ghost var run := RunJobs(PairJobs(comppairlist), ANState(ANvecs, ANpathtots, ANtots), vecsbypos, pathtotsbypos, totsbypos);
      for i := 0 to |comppairlist|
        invariant RunJobs(PairJobs(comppairlist[i..]), ANState(ANvecs, ANpathtots, ANtots), vecsbypos, pathtotsbypos, totsbypos) == run
      {
        var comppair := comppairlist[i];
        assert comppairlist[i..][1..] == comppairlist[i + 1..];
        if |comppair| < 3 {
          return Some(IndexError);
        }
        failure := ANCompose(comppair[2], comppair[0]);
        if failure != None {
          return;
        }
      }
      failure := None;
    }

    /** The inner loop of `runANcomposition` without a pair file: `ANcompose(adj, noun)` for
        every noun, up to the first error. */
    method RunRow(adj: string) returns (failure: Option<Error>)
      modifies this`ANvecs, this`ANpathtots, this`ANtots
      ensures (ANState(ANvecs, ANpathtots, ANtots), failure)
           == RunJobs(Row(adj, nouns), old(ANState(ANvecs, ANpathtots, ANtots)), vecsbypos, pathtotsbypos, totsbypos)
    {
      ghost var run := RunJobs(Row(adj, nouns), ANState(ANvecs, ANpathtots, ANtots), vecsbypos, pathtotsbypos, totsbypos);
      for j := 0 to |nouns|
        invariant RunJobs(Row(adj, nouns[j..]), ANState(ANvecs, ANpathtots, ANtots), vecsbypos, pathtotsbypos, totsbypos) == run
      {
        var noun := nouns[j];
        assert nouns[j..][1..] == nouns[j + 1..];
        failure := ANCompose(adj, noun);
        if failure != None {
          return;
        }
      }
      failure := None;
    }

    /** The outer loop of `runANcomposition` without a pair file: every adjective with every
        noun, up to the first error. */
    method RunGrid() returns (failure: Option<Error>)
      modifies this`ANvecs, this`ANpathtots, this`ANtots
      ensures (ANState(ANvecs, ANpathtots, ANtots), failure)
           == RunJobs(GridJobs(adjectives, nouns), old(ANState(ANvecs, ANpathtots, ANtots)), vecsbypos, pathtotsbypos, totsbypos)
    {
      ghost var run := RunJobs(GridJobs(adjectives, nouns), ANState(ANvecs, ANpathtots, ANtots), vecsbypos, pathtotsbypos, totsbypos);
      for i := 0 to |adjectives|
        invariant RunJobs(GridJobs(adjectives[i..], nouns), ANState(ANvecs, ANpathtots, ANtots), vecsbypos, pathtotsbypos, totsbypos) == run
      {
        var adj := adjectives[i];
        assert adjectives[i..][1..] == adjectives[i + 1..];
        ghost var before := ANState(ANvecs, ANpathtots, ANtots);
        RunJobsAppend(Row(adj, nouns), GridJobs(adjectives[i + 1..], nouns), before, vecsbypos, pathtotsbypos, totsbypos);
        failure := RunRow(adj);
        if failure != None {
          return;
        }
      }
      failure := None;
    }

    /** `intersectall()`: the intersected vector of every loaded word list under the list's
        joined name, with its total stored in `nountots`; an empty list raises IndexError and an
        unknown word KeyError, after the totals of the lists before it have been stored. */
    method IntersectAll() returns (result: Result<Dict<Dict<real>>>)
      modifies this`nountots
      ensures var (acc, err) := IntersectLists(wordlistlist, nounvecs, Intersections(Empty(), old(nountots)));
        && nountots == acc.tots
        && (err == None ==> result == Ok(acc.vecs))
        && (err != None ==> result == Err(err.value))
    {
      var intersected: Dict<Dict<real>> := Empty();
      ghost var target := IntersectLists(wordlistlist, nounvecs, Intersections(Empty(), nountots));
      for i := 0 to |wordlistlist|
        invariant IntersectLists(wordlistlist[i..], nounvecs, Intersections(intersected, nountots)) == target
      {
        var wordlist := wordlistlist[i];
        assert wordlistlist[i..][1..] == wordlistlist[i + 1..];
        var name := Join(wordlist, "_");
        var outcome := IntersectWords(wordlist, nounvecs);
        if outcome.Err? {
          return Err(outcome.error);
        }
        var vector := outcome.value;
        intersected := Put(intersected, name, vector);
        var total := SumValues(vector);
        nountots := Put(nountots, name, total);
      }
      result := Ok(intersected);
    }
  }
}
