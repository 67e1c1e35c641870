/** Python's `str.split(sep)` and the joining of fields, on Dafny strings. */
module PyStr {

  predicate StartsWith(s: string, p: string)
  {
    |p| <= |s| && s[..|p|] == p
  }

  /** Python's `s.split(sep)`: cut at every leftmost, non-overlapping occurrence of `sep`.
      As in Python, `"".split(sep) == [""]` and a string without `sep` is one field. */
  function Split(s: string, sep: string): (fields: seq<string>)
    requires sep != ""
    ensures |fields| >= 1
    decreases |s|
  {
    if |s| < |sep| then [s]
    else if s[..|sep|] == sep then [""] + Split(s[|sep|..], sep)
    else
      var rest := Split(s[1..], sep);
      [[s[0]] + rest[0]] + rest[1..]
  }

  /** The fields put back together with `sep` between consecutive ones. */
  function Joined(parts: seq<string>, sep: string): string
  {
    if |parts| == 0 then ""
    else if |parts| == 1 then parts[0]
    else parts[0] + sep + Joined(parts[1..], sep)
  }

  lemma {:induction false} JoinedSnoc(parts: seq<string>, sep: string, x: string)
    requires |parts| >= 1
    ensures Joined(parts + [x], sep) == Joined(parts, sep) + sep + x
  {
    if |parts| == 1 {
      assert parts + [x] == [parts[0], x];
      assert [parts[0], x][1..] == [x];
    } else {
      assert (parts + [x])[1..] == parts[1..] + [x];
      JoinedSnoc(parts[1..], sep, x);
    }
  }

  /** Joining the fields of a split gives the string back: splitting loses nothing. */
  lemma {:induction false} JoinedSplit(s: string, sep: string)
    requires sep != ""
    ensures Joined(Split(s, sep), sep) == s
    decreases |s|
  {
    if |s| < |sep| {
    } else if s[..|sep|] == sep {
      var r := Split(s[|sep|..], sep);
      JoinedSplit(s[|sep|..], sep);
      var f := [""] + r;
      assert Split(s, sep) == f;
      assert f[1..] == r;
      assert Joined(f, sep) == "" + sep + Joined(r, sep);
      assert s == s[..|sep|] + s[|sep|..];
    } else {
      var r := Split(s[1..], sep);
      JoinedSplit(s[1..], sep);
      var f := [[s[0]] + r[0]] + r[1..];
      assert Split(s, sep) == f;
      assert s == [s[0]] + s[1..];
      if |r| > 1 {
        assert f[1..] == r[1..];
        assert Joined(f, sep) == [s[0]] + r[0] + sep + Joined(r[1..], sep);
        assert Joined(r, sep) == r[0] + sep + Joined(r[1..], sep);
      } else {
        assert Joined(f, sep) == [s[0]] + r[0];
      }
    }
  }

  /** When there are several fields, the first one ends at the first separator and the
      remaining fields are the split of the text after it. */
  lemma {:induction false} SplitRest(s: string, sep: string) returns (t: string)
    requires sep != ""
    requires |Split(s, sep)| > 1
    ensures s == Split(s, sep)[0] + sep + t
    ensures Split(t, sep) == Split(s, sep)[1..]
    decreases |s|
  {
    if s[..|sep|] == sep {
      t := s[|sep|..];
      assert s == s[..|sep|] + s[|sep|..];
    } else {
      t := SplitRest(s[1..], sep);
      assert s == [s[0]] + s[1..];
    }
  }

  /** A string in which no separator starts is a single field. */
  lemma {:induction false} SplitNone(s: string, sep: string)
    requires sep != ""
    requires forall i :: 0 <= i < |s| ==> !StartsWith(s[i..], sep)
    ensures Split(s, sep) == [s]
    decreases |s|
  {
    if |s| >= |sep| {
      assert s[0..] == s;
      assert !StartsWith(s[0..], sep);
      forall i | 0 <= i < |s| - 1
        ensures !StartsWith(s[1..][i..], sep)
      {
        assert s[1..][i..] == s[i + 1..];
        assert !StartsWith(s[i + 1..], sep);
      }
      SplitNone(s[1..], sep);
      assert s == [s[0]] + s[1..];
    }
  }

  /** A string without the character `c` has no occurrence of `[c]` anywhere. */
  lemma NoCharNoStart(s: string, c: char)
    requires c !in s
    ensures forall i :: 0 <= i < |s| ==> !StartsWith(s[i..], [c])
  {
    forall i | 0 <= i < |s|
      ensures !StartsWith(s[i..], [c])
    {
      assert s[i..][..1] == [s[i]];
    }
  }

  /** If no separator starts inside `a`, then `a` is the first field of `a + sep + b`. */
  lemma {:induction false} SplitAfter(a: string, sep: string, b: string)
    requires sep != ""
    requires forall i :: 0 <= i < |a| ==> !StartsWith((a + sep + b)[i..], sep)
    ensures Split(a + sep + b, sep) == [a] + Split(b, sep)
    decreases |a|
  {
    var s := a + sep + b;
    if a == [] {
      assert s == sep + b;
      assert s[..|sep|] == sep;
      assert s[|sep|..] == b;
    } else {
      assert s[0..] == s;
      assert !StartsWith(s[0..], sep);
      assert s[1..] == a[1..] + sep + b;
      forall i | 0 <= i < |a| - 1
        ensures !StartsWith((a[1..] + sep + b)[i..], sep)
      {
        assert (a[1..] + sep + b)[i..] == s[i + 1..];
        assert !StartsWith(s[i + 1..], sep);
      }
      SplitAfter(a[1..], sep, b);
      assert a == [a[0]] + a[1..];
    }
  }

  /** Text without the (one-character) separator joins the first field. */
  lemma {:induction false} SplitPrepend(a: string, s: string, c: char)
    requires c !in a
    ensures Split(a + s, [c]) == [a + Split(s, [c])[0]] + Split(s, [c])[1..]
    decreases |a|
  {
    if a == [] {
      assert a + s == s;
      var r := Split(s, [c]);
      assert a + r[0] == r[0];
      assert r == [r[0]] + r[1..];
    } else {
      assert a[0] in a;
      assert (a + s)[..1] == [a[0]] != [c];
      assert (a + s)[1..] == a[1..] + s;
      SplitPrepend(a[1..], s, c);
      var r := Split(s, [c]);
      assert Split(a[1..] + s, [c]) == [a[1..] + r[0]] + r[1..];
      assert a == [a[0]] + a[1..];
      assert [a[0]] + (a[1..] + r[0]) == a + r[0];
    }
  }

  /** With a one-character separator, splitting around one occurrence splits both sides. */
  lemma {:induction false} SplitConcat(a: string, c: char, b: string)
    ensures Split(a + [c] + b, [c]) == Split(a, [c]) + Split(b, [c])
    decreases |a|
  {
    var s := a + [c] + b;
    if a == [] {
      assert s == [c] + b;
      assert s[..1] == [c];
      assert s[1..] == b;
    } else {
      assert s[..1] == [a[0]];
      assert s[1..] == a[1..] + [c] + b;
      SplitConcat(a[1..], c, b);
      if a[0] == c {
        assert a[..1] == [c];
      } else {
        assert a[..1] != [c];
      }
    }
  }

  /** With a one-character separator, no field contains it. */
  lemma {:induction false} SplitFieldsFree(s: string, c: char)
    ensures forall k :: 0 <= k < |Split(s, [c])| ==> c !in Split(s, [c])[k]
    decreases |s|
  {
    if |s| >= 1 {
      SplitFieldsFree(s[1..], c);
      if s[..1] != [c] {
        assert s[0] != c;
      }
    }
  }

  /** With a one-character separator, joining fields that do not contain it and
      splitting again gives the fields back. */
  lemma {:induction false} SplitJoined(parts: seq<string>, c: char)
    requires |parts| >= 1
    requires forall k :: 0 <= k < |parts| ==> c !in parts[k]
    ensures Split(Joined(parts, [c]), [c]) == parts
  {
    NoCharNoStart(parts[0], c);
    SplitNone(parts[0], [c]);
    if |parts| > 1 {
      SplitJoined(parts[1..], c);
      SplitConcat(parts[0], c, Joined(parts[1..], [c]));
      assert parts[0] + [c] + Joined(parts[1..], [c]) == Joined(parts, [c]);
      assert parts == [parts[0]] + parts[1..];
    }
  }
}
