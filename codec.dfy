/** The feature codec. A feature is written `path:value`; a path is a chain of relation
    labels joined by a two-character separator, and a feature's order is the number of
    labels on its path (0 when the path is empty). */
module Codec {
  import opened PyStr

  /** The path separator "\xc2\xbb": under Python 3 the two characters U+00C2, U+00BB. */
  const SEP: string := "\U{00C2}\U{00BB}"

  /** `getpathtype`: the text before the first ':' (the source takes the first field of
      `feature.split(":")`; `PathTypeIsSplit` shows the two agree). */
  function PathType(feature: string): (path: string)
    ensures |path| <= |feature| && path == feature[..|path|]
    ensures ':' !in path
    ensures |path| < |feature| ==> feature[|path|] == ':'
  {
    if feature == [] || feature[0] == ':' then [] else [feature[0]] + PathType(feature[1..])
  }

  lemma {:induction false} PathTypeIsSplit(feature: string)
    ensures PathType(feature) == Split(feature, ":")[0]
  {
    if feature != [] {
      if feature[0] == ':' {
        assert feature[..1] == ":";
      } else {
        assert feature[..1] != ":";
        PathTypeIsSplit(feature[1..]);
      }
    }
  }

  /** A string splits on ':' into more than one field exactly when it contains ':'. */
  lemma ColonFields(s: string)
    ensures |Split(s, ":")| > 1 <==> ':' in s
  {
    if ':' in s {
      var i :| 0 <= i < |s| && s[i] == ':';
      assert s == s[..i] + [':'] + s[i + 1..];
      SplitConcat(s[..i], ':', s[i + 1..]);
    } else {
      NoCharNoStart(s, ':');
      SplitNone(s, ":");
    }
  }

  /** `getpathvalue`: ':' and the second ':'-field, or "" when there is no ':'. */
  function PathValue(feature: string): (value: string)
    ensures value == "" <==> ':' !in feature
    ensures value != "" ==> value[0] == ':' && ':' !in value[1..]
  {
    var fields := Split(feature, ":");
    ColonFields(feature);
    SplitFieldsFree(feature, ':');
    if |fields| > 1 then ":" + fields[1] else ""
  }

  /** `getorder` */
  function Order(feature: string): (order: nat)
    ensures order == 0 <==> PathType(feature) == ""
  {
    var path := PathType(feature);
    if path == "" then 0 else |Split(path, SEP)|
  }

  /** `splitfeature`: the first label of the path and the rest of the path. The loop that
      re-joins the remaining labels is the same loop as `join`, so it is `Joined` here. */
  function SplitFeature(feature: string): (r: (string, string))
    ensures r.1 != "" ==> PathType(feature) == r.0 + SEP + r.1
    ensures r.1 == "" ==> PathType(feature) == r.0 || PathType(feature) == r.0 + SEP
  {
    var path := PathType(feature);
    if path == "" then ("", "")
    else
      var fields := Split(path, SEP);
      JoinedSplit(path, SEP);
      if |fields| > 1 then (fields[0], Joined(fields[1..], SEP)) else (fields[0], "")
  }

  /** `join(alist, achar)` */
  method Join(alist: seq<string>, achar: string) returns (astring: string)
    ensures astring == Joined(alist, achar)
  {
    if |alist| > 1 {
      astring := alist[0];
      for i := 1 to |alist|
        invariant astring == Joined(alist[..i], achar)
      {
        JoinedSnoc(alist[..i], achar, alist[i]);
        assert alist[..i + 1] == alist[..i] + [alist[i]];
        astring := astring + achar + alist[i];
      }
      assert alist[..|alist|] == alist;
    } else if |alist| == 1 {
      astring := alist[0];
    } else {
      astring := "";
    }
  }

  /** A single relation label: not empty, and free of ':' and of the separator's first character. */
  predicate PlainLabel(rel: string)
  {
    rel != "" && ':' !in rel && SEP[0] !in rel
  }

  /** The number of places where the separator occurs. */
  function SepCount(s: string): nat
  {
    if |s| < 2 then 0 else (if s[..2] == SEP then 1 else 0) + SepCount(s[1..])
  }

  lemma {:induction false} SplitCountsSeparators(s: string)
    ensures |Split(s, SEP)| == SepCount(s) + 1
    decreases |s|
  {
    if |s| >= 2 {
      if s[..2] == SEP {
        SplitCountsSeparators(s[2..]);
        assert s[1] == SEP[1];
        if |s| > 2 {
          assert s[1..][..2] != SEP;
          assert s[1..][1..] == s[2..];
        }
      } else {
        SplitCountsSeparators(s[1..]);
      }
    }
  }

  /** The order of a feature is 0 for an empty path and otherwise one more than the
      number of separators on its path. */
  lemma OrderCountsSeparators(f: string)
    ensures Order(f) == if PathType(f) == "" then 0 else SepCount(PathType(f)) + 1
    ensures Order(f) == 0 <==> PathType(f) == ""
  {
    SplitCountsSeparators(PathType(f));
  }

  /** A path never contains ':'. */
  lemma PathTypeNoColon(f: string)
    ensures ':' !in PathType(f)
  {
    PathTypeIsSplit(f);
    SplitFieldsFree(f, ':');
  }

  /** A nonempty feature has an empty path exactly when it starts with ':'. */
  lemma EmptyPathIffColon(f: string)
    requires f != ""
    ensures PathType(f) == "" <==> f[0] == ':'
  {
    if f[..1] == ":" {
      assert f[0] == ':';
    } else {
      assert f[0] != ':';
    }
  }

  predicate AtMostOneColon(f: string)
  {
    forall i, j :: 0 <= i < j < |f| && f[i] == ':' ==> f[j] != ':'
  }

  lemma TwoFields(a: string, b: string)
    requires ':' !in a && ':' !in b
    ensures Split(a + [':'] + b, ":") == [a, b]
  {
    SplitConcat(a, ':', b);
    NoCharNoStart(a, ':');
    SplitNone(a, ":");
    NoCharNoStart(b, ':');
    SplitNone(b, ":");
  }

  lemma DecomposeTwoFields(a: string, b: string)
    requires ':' !in a && ':' !in b
    ensures PathType(a + [':'] + b) + PathValue(a + [':'] + b) == a + [':'] + b
  {
    TwoFields(a, b);
    PathTypeIsSplit(a + [':'] + b);
  }

  /** Path and value put back together give the feature, when it has at most one ':'. */
  lemma DecomposeRoundTrip(f: string)
    requires AtMostOneColon(f)
    ensures PathType(f) + PathValue(f) == f
  {
    if ':' !in f {
      PathTypeIsSplit(f);
      NoCharNoStart(f, ':');
      SplitNone(f, ":");
    } else {
      var i :| 0 <= i < |f| && f[i] == ':';
      var a, b := f[..i], f[i + 1..];
      assert f == a + [':'] + b;
      forall j | 0 <= j < i ensures a[j] != ':' {
        assert f[j] == a[j];
      }
      forall j | 0 <= j < |b| ensures b[j] != ':' {
        assert f[i + 1 + j] == b[j];
      }
      DecomposeTwoFields(a, b);
    }
  }

  /** `splitfeature` returns ("", "") for an empty path, (path, "") for a path of one label,
      and otherwise a first label and a rest that `first + SEP + rest` joins back into the path;
      the rest is then a path of one label fewer. */
  lemma SplitFeatureRoundTrip(f: string)
    ensures PathType(f) == "" ==> SplitFeature(f) == ("", "")
    ensures Order(f) == 1 ==> SplitFeature(f) == (PathType(f), "")
    ensures Order(f) >= 2 ==> SplitFeature(f).0 + SEP + SplitFeature(f).1 == PathType(f)
    ensures Order(f) >= 2 ==> |Split(SplitFeature(f).1, SEP)| == Order(f) - 1
    ensures ':' !in SplitFeature(f).0 && ':' !in SplitFeature(f).1
  {
    var path := PathType(f);
    PathTypeNoColon(f);
    if path != "" {
      var fields := Split(path, SEP);
      JoinedSplit(path, SEP);
      if |fields| > 1 {
        var t := SplitRest(path, SEP);
        JoinedSplit(t, SEP);
        assert SplitFeature(f).1 == t;
        assert forall x :: x in fields[0] ==> x in path;
        assert forall x :: x in t ==> x in path;
      }
    }
  }

  /** With two or more ':', the value is ':' and the second field: whatever follows the
      second ':' is dropped. */
  lemma PathValueSecondField(a: string, b: string, c: string)
    requires ':' !in a && ':' !in b
    ensures PathValue(a + [':'] + b + [':'] + c) == [':'] + b
  {
    assert a + [':'] + b + [':'] + c == a + [':'] + (b + [':'] + c);
    SplitConcat(a, ':', b + [':'] + c);
    SplitConcat(b, ':', c);
    NoCharNoStart(a, ':');
    SplitNone(a, ":");
    NoCharNoStart(b, ':');
    SplitNone(b, ":");
  }

  /** The value of a feature's value is that value. */
  lemma PathValueOfValue(f: string)
    ensures PathValue(PathValue(f)) == PathValue(f)
  {
    var v := PathValue(f);
    if v != "" {
      assert v == "" + [':'] + v[1..];
      TwoFields("", v[1..]);
    }
  }

  /** Text free of ':' in front of a feature lengthens its path and keeps its value. */
  lemma PathTypePrepend(a: string, f: string)
    requires ':' !in a
    ensures PathType(a + f) == a + PathType(f)
    ensures PathValue(a + f) == PathValue(f)
  {
    PathTypeIsSplit(a + f);
    PathTypeIsSplit(f);
    SplitPrepend(a, f, ':');
  }

  /** Putting a label and the separator in front of a feature with a nonempty path
      raises its order by one. */
  lemma OrderPrependLabel(rel: string, f: string)
    requires PlainLabel(rel)
    requires PathType(f) != ""
    ensures PathType(rel + SEP + f) == rel + SEP + PathType(f)
    ensures Order(rel + SEP + f) == Order(f) + 1
  {
    var p := PathType(f);
    assert ':' !in rel + SEP;
    PathTypePrepend(rel + SEP, f);
    forall i | 0 <= i < |rel|
      ensures !StartsWith((rel + SEP + p)[i..], SEP)
    {
      assert (rel + SEP + p)[i] == rel[i];
      assert rel[i] != SEP[0];
    }
    SplitAfter(rel, SEP, p);
  }

  /** Putting a label in front of a feature with an empty path gives a feature of order 1. */
  lemma OrderPrependLabelToValue(rel: string, f: string)
    requires PlainLabel(rel)
    requires PathType(f) == ""
    ensures PathType(rel + f) == rel
    ensures Order(rel + f) == 1
  {
    PathTypePrepend(rel, f);
    forall i | 0 <= i < |rel|
      ensures !StartsWith(rel[i..], SEP)
    {
      assert rel[i] != SEP[0];
    }
    SplitNone(rel, SEP);
  }
}
