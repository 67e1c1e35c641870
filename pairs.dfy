/** One composition step and the job list of `runANcomposition`: what `CompoundCompose`
    computes for a dependent, a head and a relation, and the successive composition of a
    list of pairs that stops at the first error. */
module Pairs {
  import opened PyStr
  import opened Dicts
  import opened Outcomes
  import opened Compose

  /** `headPoS.get(rel, "N")`: every relation's head is looked up among the nouns. */
  function HeadPoS(rel: string): (p: string)
    ensures p == "N"
  {
    var headPoS := map["nn" := "N", "amod" := "N", "mod" := "N"];
    if rel in headPoS then headPoS[rel] else "N"
  }

  /** `depPoS.get(rel, "J")`: the dependent is a noun for "nn" and an adjective otherwise. */
  function DepPoS(rel: string): (p: string)
    ensures p == "N" <==> rel == "nn"
    ensures p != "N" ==> p == "J"
  {
    var depPoS := map["nn" := "N", "amod" := "J", "mod" := "J"];
    if rel in depPoS then depPoS[rel] else "J"
  }

  /** `store[pos][word]`, with the KeyError of whichever key is missing first. */
  function Lookup<V>(store: map<string, Dict<V>>, pos: string, word: string): Result<V>
  {
    if pos !in store then Err(KeyError(pos))
    else if word !in store[pos].vals then Err(KeyError(word))
    else Ok(store[pos].vals[word])
  }

  /** The name of a composed entry: the dependent's word up to its first '/', the relation
      and the head, joined by '|'. */
  function ComposedEntry(dep: string, rel: string, head: string): string
  {
    Split(dep, "/")[0] + "|" + rel + "|" + head
  }

  /** The dependent loses its part-of-speech tag in the composed name; the head keeps its own. */
  lemma ComposedEntryDropsTag(word: string, tag: string, rel: string, head: string)
    requires '/' !in word
    ensures ComposedEntry(word + "/" + tag, rel, head) == word + "|" + rel + "|" + head
  {
    SplitConcat(word, '/', tag);
    NoCharNoStart(word, '/');
    SplitNone(word, "/");
    assert word + "/" + tag == word + ['/'] + tag;
  }

  /** Everything `CompoundCompose` stores for one pair. */
  datatype Composite = Composite(entry: string, vector: Dict<real>, pathtots: Dict<real>, total: real)

  /** The six values `CompoundCompose` looks up: the head's and the dependent's vector, path
      totals and total. */
  datatype Operands = Operands(headvector: Dict<real>, headpathtots: Dict<real>, headtot: real,
                               depvector: Dict<real>, deppathtots: Dict<real>, deptot: real)

  /** The six lookups of `CompoundCompose(dep, head, rel)`, or the KeyError of the first that
      fails, in the order the code performs them. */
  function Gathered(vecsbypos: map<string, Dict<Dict<real>>>, pathtotsbypos: map<string, Dict<Dict<real>>>,
                    totsbypos: map<string, Dict<real>>, dep: string, head: string, rel: string): Result<Operands>
  {
    var hdpos, dppos := HeadPoS(rel), DepPoS(rel);
    match Lookup(vecsbypos, hdpos, head)
    case Err(e) => Err(e)
    case Ok(headvector) =>
      match Lookup(pathtotsbypos, hdpos, head)
      case Err(e) => Err(e)
      case Ok(headpathtots) =>
        match Lookup(totsbypos, hdpos, head)
        case Err(e) => Err(e)
        case Ok(headtot) =>
          match Lookup(vecsbypos, dppos, dep)
          case Err(e) => Err(e)
          case Ok(depvector) =>
            match Lookup(pathtotsbypos, dppos, dep)
            case Err(e) => Err(e)
            case Ok(deppathtots) =>
              match Lookup(totsbypos, dppos, dep)
              case Err(e) => Err(e)
              case Ok(deptot) => Ok(Operands(headvector, headpathtots, headtot, depvector, deppathtots, deptot))
  }

  /** What `CompoundCompose(dep, head, rel)` stores: the head's vector and path totals merged
      with the dependent's offset ones, and the sum of the totals. */
  function Combined(o: Operands, dep: string, head: string, rel: string): Composite
  {
    Composite(ComposedEntry(dep, rel, head),
              Compound(o.headvector, Offset(o.depvector.keys, o.depvector.vals, rel)),
              Compound(o.headpathtots, Offset(o.deppathtots.keys, o.deppathtots.vals, rel)),
              o.deptot + o.headtot)
  }

  /** The part of `CompoundCompose` after the lookups: the composed name, and `addCompound`
      on the vectors and on the path totals. */
  method Combine(o: Operands, dep: string, head: string, rel: string) returns (c: Composite)
    ensures c == Combined(o, dep, head, rel)
  {
    var entry := Split(dep, "/")[0] + "|" + rel + "|" + head;
    var vector := AddCompound(o.depvector, o.headvector, rel);
    var pathtots := AddCompound(o.deppathtots, o.headpathtots, rel);
    c := Composite(entry, vector, pathtots, o.deptot + o.headtot);
  }

  /** What `CompoundCompose(dep, head, rel)` computes, or the error of its lookups. */
  function Composed(vecsbypos: map<string, Dict<Dict<real>>>, pathtotsbypos: map<string, Dict<Dict<real>>>,
                    totsbypos: map<string, Dict<real>>, dep: string, head: string, rel: string): Result<Composite>
  {
    match Gathered(vecsbypos, pathtotsbypos, totsbypos, dep, head, rel)
    case Err(e) => Err(e)
    case Ok(o) => Ok(Combined(o, dep, head, rel))
  }

  /** Composition succeeds exactly when both words are known under their parts of speech in
      all three stores; the composed vector then merges the head's vector with the offset
      dependent's, and the composed total is the sum of the two totals. */
  lemma ComposedIffKnown(vecsbypos: map<string, Dict<Dict<real>>>, pathtotsbypos: map<string, Dict<Dict<real>>>,
                         totsbypos: map<string, Dict<real>>, dep: string, head: string, rel: string)
    ensures var c := Composed(vecsbypos, pathtotsbypos, totsbypos, dep, head, rel);
      c.Ok? <==>
        && Lookup(vecsbypos, "N", head).Ok? && Lookup(pathtotsbypos, "N", head).Ok? && Lookup(totsbypos, "N", head).Ok?
        && Lookup(vecsbypos, DepPoS(rel), dep).Ok? && Lookup(pathtotsbypos, DepPoS(rel), dep).Ok?
        && Lookup(totsbypos, DepPoS(rel), dep).Ok?
    ensures var c := Composed(vecsbypos, pathtotsbypos, totsbypos, dep, head, rel);
      c.Ok? ==>
        var headvector, offset := vecsbypos["N"].vals[head], Offset(vecsbypos[DepPoS(rel)].vals[dep].keys, vecsbypos[DepPoS(rel)].vals[dep].vals, rel);
        && c.value.total == totsbypos[DepPoS(rel)].vals[dep] + totsbypos["N"].vals[head]
        && (forall f :: f in c.value.vector.vals <==> f in headvector.vals || f in offset.vals)
        && (forall f :: f in headvector.vals && f in offset.vals ==> c.value.vector.vals[f] == headvector.vals[f] + offset.vals[f])
  {
    var c := Composed(vecsbypos, pathtotsbypos, totsbypos, dep, head, rel);
    if c.Ok? {
      var headvector := vecsbypos["N"].vals[head];
      var depvector := vecsbypos[DepPoS(rel)].vals[dep];
      CompoundMerge(headvector, Offset(depvector.keys, depvector.vals, rel));
    }
  }

  /** A composite is stored under the composed name of its pair. */
  lemma ComposedOkEntry(vecsbypos: map<string, Dict<Dict<real>>>, pathtotsbypos: map<string, Dict<Dict<real>>>,
                        totsbypos: map<string, Dict<real>>, dep: string, head: string, rel: string)
    ensures var c := Composed(vecsbypos, pathtotsbypos, totsbypos, dep, head, rel);
      c.Ok? ==> c.value.entry == ComposedEntry(dep, rel, head)
  {
  }

  /** The composed vectors, path totals and totals (`ANvecs`, `ANpathtots`, `ANtots`). */
  datatype ANState = ANState(vecs: Dict<Dict<real>>, pathtots: Dict<Dict<real>>, tots: Dict<real>)

  function Store(s: ANState, c: Composite): ANState
  {
    ANState(Put(s.vecs, c.entry, c.vector), Put(s.pathtots, c.entry, c.pathtots), Put(s.tots, c.entry, c.total))
  }

  /** The entries of a composed state are stored in all three dicts alike. */
  predicate SameKeys(s: ANState)
  {
    s.vecs.vals.Keys == s.pathtots.vals.Keys && s.pathtots.vals.Keys == s.tots.vals.Keys
  }

  /** One `ANcompose` call of `runANcomposition`: an adjective and a noun, or a pair too short
      to hold both (whose indexing raises IndexError). */
  datatype Job = Pair(dep: string, head: string) | Short

  /** `comppair[2]` is the adjective and `comppair[0]` the noun. */
  function PairJob(pair: seq<string>): Job
  {
    if |pair| < 3 then Short else Pair(pair[2], pair[0])
  }

  function PairJobs(pairs: seq<seq<string>>): (jobs: seq<Job>)
    ensures |jobs| == |pairs|
    ensures forall k :: 0 <= k < |pairs| ==> jobs[k] == PairJob(pairs[k])
  {
    if pairs == [] then [] else [PairJob(pairs[0])] + PairJobs(pairs[1..])
  }

  /** The inner loop over the nouns for one adjective. */
  function Row(adj: string, nouns: seq<string>): seq<Job>
  {
    if nouns == [] then [] else [Pair(adj, nouns[0])] + Row(adj, nouns[1..])
  }

  /** Every adjective with every noun, adjective by adjective. */
  function GridJobs(adjs: seq<string>, nouns: seq<string>): seq<Job>
  {
    if adjs == [] then [] else Row(adjs[0], nouns) + GridJobs(adjs[1..], nouns)
  }

  /** The jobs of `runANcomposition`: the listed pairs when a pair file is configured, all
      adjective and noun combinations otherwise. */
  function ANJobs(comppairfile: string, comppairlist: seq<seq<string>>, adjectives: seq<string>, nouns: seq<string>): seq<Job>
  {
    if comppairfile != "" then PairJobs(comppairlist) else GridJobs(adjectives, nouns)
  }

  lemma {:induction false} RowJobs(adj: string, nouns: seq<string>)
    ensures forall j :: j in Row(adj, nouns) <==> j.Pair? && j.dep == adj && j.head in nouns
  {
    if nouns != [] {
      RowJobs(adj, nouns[1..]);
      assert forall n :: n in nouns <==> n == nouns[0] || n in nouns[1..];
    }
  }

  /** The grid holds exactly the adjective and noun combinations. */
  lemma {:induction false} GridJobsProduct(adjs: seq<string>, nouns: seq<string>)
    ensures forall j :: j in GridJobs(adjs, nouns) <==> j.Pair? && j.dep in adjs && j.head in nouns
  {
    if adjs != [] {
      RowJobs(adjs[0], nouns);
      GridJobsProduct(adjs[1..], nouns);
      assert forall a :: a in adjs <==> a == adjs[0] || a in adjs[1..];
    }
  }

  /** What a job computes, whatever the composed state: a short pair raises IndexError. */
  function Outcome(job: Job, vecsbypos: map<string, Dict<Dict<real>>>, pathtotsbypos: map<string, Dict<Dict<real>>>,
                   totsbypos: map<string, Dict<real>>): Result<Composite>
  {
    match job
    case Short => Err(IndexError)
    case Pair(adj, noun) => Composed(vecsbypos, pathtotsbypos, totsbypos, adj, noun, "mod")
  }

  /** The jobs run one after the other; the first error ends the run, keeping what was stored
      before it. */
  function RunJobs(jobs: seq<Job>, s: ANState, vecsbypos: map<string, Dict<Dict<real>>>,
                   pathtotsbypos: map<string, Dict<Dict<real>>>, totsbypos: map<string, Dict<real>>): (ANState, Option<Error>)
    decreases |jobs|
  {
    if jobs == [] then (s, None)
    else match Outcome(jobs[0], vecsbypos, pathtotsbypos, totsbypos)
      case Err(e) => (s, Some(e))
      case Ok(c) => RunJobs(jobs[1..], Store(s, c), vecsbypos, pathtotsbypos, totsbypos)
  }

  /** Running two job lists one after the other: the second starts from where the first
      ended, unless the first failed. */
  lemma {:induction false} RunJobsAppend(a: seq<Job>, b: seq<Job>, s: ANState, vecsbypos: map<string, Dict<Dict<real>>>,
                                         pathtotsbypos: map<string, Dict<Dict<real>>>, totsbypos: map<string, Dict<real>>)
    ensures var r := RunJobs(a, s, vecsbypos, pathtotsbypos, totsbypos);
      RunJobs(a + b, s, vecsbypos, pathtotsbypos, totsbypos)
        == if r.1 != None then r else RunJobs(b, r.0, vecsbypos, pathtotsbypos, totsbypos)
    decreases |a|
  {
    if a == [] {
      assert a + b == b;
    } else {
      assert (a + b)[0] == a[0];
      assert (a + b)[1..] == a[1..] + b;
      var o := Outcome(a[0], vecsbypos, pathtotsbypos, totsbypos);
      if o.Ok? {
        RunJobsAppend(a[1..], b, Store(s, o.value), vecsbypos, pathtotsbypos, totsbypos);
      }
    }
  }

  /** The name a job stores its composite under. */
  function JobEntry(job: Job): string
    requires job.Pair?
  {
    ComposedEntry(job.dep, "mod", job.head)
  }

  /** A job that succeeds stores its composite under the job's name. */
  lemma OutcomeEntry(job: Job, vecsbypos: map<string, Dict<Dict<real>>>, pathtotsbypos: map<string, Dict<Dict<real>>>,
                     totsbypos: map<string, Dict<real>>)
    ensures Outcome(job, vecsbypos, pathtotsbypos, totsbypos).Ok? ==>
      job.Pair? && Outcome(job, vecsbypos, pathtotsbypos, totsbypos).value.entry == JobEntry(job)
  {
    if job.Pair? {
      ComposedOkEntry(vecsbypos, pathtotsbypos, totsbypos, job.dep, job.head, "mod");
    }
  }

  /** A run ends without error exactly when no job fails, and otherwise with the error of the
      first job that fails. */
  lemma {:induction false} RunJobsFailure(jobs: seq<Job>, s: ANState, vecsbypos: map<string, Dict<Dict<real>>>,
                                          pathtotsbypos: map<string, Dict<Dict<real>>>, totsbypos: map<string, Dict<real>>)
    ensures RunJobs(jobs, s, vecsbypos, pathtotsbypos, totsbypos).1 == None <==>
      forall k :: 0 <= k < |jobs| ==> Outcome(jobs[k], vecsbypos, pathtotsbypos, totsbypos).Ok?
    ensures RunJobs(jobs, s, vecsbypos, pathtotsbypos, totsbypos).1 != None ==>
      exists k :: 0 <= k < |jobs| && Outcome(jobs[k], vecsbypos, pathtotsbypos, totsbypos).Err?
        && RunJobs(jobs, s, vecsbypos, pathtotsbypos, totsbypos).1 == Some(Outcome(jobs[k], vecsbypos, pathtotsbypos, totsbypos).error)
        && forall i :: 0 <= i < k ==> Outcome(jobs[i], vecsbypos, pathtotsbypos, totsbypos).Ok?
    decreases |jobs|
  {
    if jobs != [] {
      var r := RunJobs(jobs, s, vecsbypos, pathtotsbypos, totsbypos);
      var o := Outcome(jobs[0], vecsbypos, pathtotsbypos, totsbypos);
      var rest := jobs[1..];
      if o.Ok? {
        RunJobsFailure(rest, Store(s, o.value), vecsbypos, pathtotsbypos, totsbypos);
        assert r == RunJobs(rest, Store(s, o.value), vecsbypos, pathtotsbypos, totsbypos);
        if r.1 != None {
          var k :| 0 <= k < |rest| && Outcome(rest[k], vecsbypos, pathtotsbypos, totsbypos).Err?
            && r.1 == Some(Outcome(rest[k], vecsbypos, pathtotsbypos, totsbypos).error)
            && forall i :: 0 <= i < k ==> Outcome(rest[i], vecsbypos, pathtotsbypos, totsbypos).Ok?;
          assert rest[k] == jobs[k + 1];
          forall i | 0 <= i < k + 1 ensures Outcome(jobs[i], vecsbypos, pathtotsbypos, totsbypos).Ok? {
            if i > 0 { assert jobs[i] == rest[i - 1]; }
          }
        } else {
          forall k | 0 <= k < |jobs| ensures Outcome(jobs[k], vecsbypos, pathtotsbypos, totsbypos).Ok? {
            if k > 0 { assert jobs[k] == rest[k - 1]; }
          }
        }
      } else {
        assert r.1 == Some(o.error);
      }
    }
  }

  /** Storing a composite adds its name to the keys of all three dicts. */
  lemma StoreKeys(s: ANState, c: Composite)
    ensures Store(s, c).tots.vals.Keys == s.tots.vals.Keys + {c.entry}
    ensures SameKeys(s) ==> SameKeys(Store(s, c))
  {
  }

  /** A run keeps the three dicts' keys in step, and stores under each entry it starts with and
      under no entry but those and the names of its jobs. */
  lemma {:induction false} RunJobsKeys(jobs: seq<Job>, s: ANState, vecsbypos: map<string, Dict<Dict<real>>>,
                                       pathtotsbypos: map<string, Dict<Dict<real>>>, totsbypos: map<string, Dict<real>>)
    ensures var r := RunJobs(jobs, s, vecsbypos, pathtotsbypos, totsbypos).0;
      && (SameKeys(s) ==> SameKeys(r))
      && s.tots.vals.Keys <= r.tots.vals.Keys
      && forall e :: e in r.tots.vals ==> e in s.tots.vals || exists j :: j in jobs && j.Pair? && JobEntry(j) == e
    decreases |jobs|
  {
    if jobs != [] {
      var o := Outcome(jobs[0], vecsbypos, pathtotsbypos, totsbypos);
      if o.Ok? {
        OutcomeEntry(jobs[0], vecsbypos, pathtotsbypos, totsbypos);
        var s' := Store(s, o.value);
        StoreKeys(s, o.value);
        var rest := jobs[1..];
        RunJobsKeys(rest, s', vecsbypos, pathtotsbypos, totsbypos);
        var r := RunJobs(rest, s', vecsbypos, pathtotsbypos, totsbypos).0;
        assert r == RunJobs(jobs, s, vecsbypos, pathtotsbypos, totsbypos).0;
        forall e | e in r.tots.vals
          ensures e in s.tots.vals || exists j :: j in jobs && j.Pair? && JobEntry(j) == e
        {
          if e !in s.tots.vals && e != JobEntry(jobs[0]) {
            var j :| j in rest && j.Pair? && JobEntry(j) == e;
            assert j in jobs;
          }
        }
      }
    }
  }

  /** A run without error stores under the name of every job. */
  lemma {:induction false} RunJobsStoresAll(jobs: seq<Job>, s: ANState, vecsbypos: map<string, Dict<Dict<real>>>,
                                            pathtotsbypos: map<string, Dict<Dict<real>>>, totsbypos: map<string, Dict<real>>)
    ensures RunJobs(jobs, s, vecsbypos, pathtotsbypos, totsbypos).1 == None ==>
      forall j :: j in jobs ==> j.Pair? && JobEntry(j) in RunJobs(jobs, s, vecsbypos, pathtotsbypos, totsbypos).0.tots.vals
    decreases |jobs|
  {
    if jobs != [] {
      var o := Outcome(jobs[0], vecsbypos, pathtotsbypos, totsbypos);
      if o.Ok? {
        OutcomeEntry(jobs[0], vecsbypos, pathtotsbypos, totsbypos);
        var s' := Store(s, o.value);
        var rest := jobs[1..];
        RunJobsStoresAll(rest, s', vecsbypos, pathtotsbypos, totsbypos);
        RunJobsKeys(rest, s', vecsbypos, pathtotsbypos, totsbypos);
        assert forall j :: j in jobs ==> j == jobs[0] || j in rest;
      }
    }
  }
}
