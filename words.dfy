/** Words of interest, path types of interest and the part-of-speech tests. */
module Words {
  import opened PyStr
  import opened Dicts

  /** `include(word)`: with no words of interest every word is included. */
  predicate Include(words: seq<string>, word: string)
    ensures word in words ==> Include(words, word)
    ensures word !in words ==> (Include(words, word) <==> words == [])
  {
    if |words| == 0 then true else word in words
  }

  /** `typeinclude(pathtype)`: with no included types every path type is included. */
  predicate TypeInclude(includedtypes: seq<string>, pathtype: string)
    ensures pathtype in includedtypes ==> TypeInclude(includedtypes, pathtype)
    ensures pathtype !in includedtypes ==> (TypeInclude(includedtypes, pathtype) <==> includedtypes == [])
  {
    if includedtypes == [] then true else pathtype in includedtypes
  }

  /** The file-name suffix of each part of speech in `filesbypos`. */
  function PosSuffix(pos: string): string
  {
    if pos == "N" then ".nouns"
    else if pos == "V" then ".verbs"
    else if pos == "J" then ".adjs"
    else if pos == "R" then ".advs"
    else if pos == "F" then ".others"
    else if pos == "ANS" then ".ans"
    else ".nouns"
  }

  /** `selectpos`: the input file of a part of speech, the nouns' file for any unknown tag. */
  function SelectPos(inpath: string, pos: string): (r: string)
    ensures |inpath| <= |r| && r[..|inpath|] == inpath
    ensures pos == "N" ==> r == inpath + ".nouns"
    ensures pos == "V" ==> r == inpath + ".verbs"
    ensures pos == "J" ==> r == inpath + ".adjs"
    ensures pos == "R" ==> r == inpath + ".advs"
    ensures pos == "F" ==> r == inpath + ".others"
    ensures pos == "ANS" ==> r == inpath + ".ans"
    ensures pos !in {"N", "V", "J", "R", "F", "ANS"} ==> r == inpath + ".nouns"
  {
    inpath + PosSuffix(pos)
  }

  function LowerAscii(c: char): char
  {
    if 'A' <= c <= 'Z' then (c as int + 32) as char else c
  }

  /** `str.lower()`, restricted to ASCII letters. */
  function Lower(s: string): (r: string)
    ensures |r| == |s|
    ensures forall i :: 0 <= i < |s| ==> r[i] == LowerAscii(s[i])
  {
    if s == [] then [] else [LowerAscii(s[0])] + Lower(s[1..])
  }

  /** `entry.split("/")[-1]` */
  function LastSegment(entry: string): string
  {
    var fields := Split(entry, "/");
    fields[|fields| - 1]
  }

  /** The output file that `splitpos` writes an entry to: by the first letter of the
      lower-cased text after the entry's last '/'. */
  function PosClass(entry: string): (r: string)
    ensures r in {"N", "V", "J", "R", "F"}
    ensures r == "N" <==> LastSegment(entry) != "" && LowerAscii(LastSegment(entry)[0]) == 'n'
    ensures r == "V" <==> LastSegment(entry) != "" && LowerAscii(LastSegment(entry)[0]) == 'v'
    ensures r == "J" <==> LastSegment(entry) != "" && LowerAscii(LastSegment(entry)[0]) == 'j'
    ensures r == "R" <==> LastSegment(entry) != "" && LowerAscii(LastSegment(entry)[0]) == 'r'
    ensures r == "F" <==> LastSegment(entry) == "" || LowerAscii(LastSegment(entry)[0]) !in "nvjr"
  {
    var pos := Lower(LastSegment(entry));
    if StartsWith(pos, "n") then "N"
    else if StartsWith(pos, "v") then "V"
    else if StartsWith(pos, "j") then "J"
    else if StartsWith(pos, "r") then "R"
    else "F"
  }

  /** Only the text after the last '/' decides the class: `red/J` is an adjective whatever
      comes before the tag. */
  lemma PosClassAfterLastSlash(word: string, tag: string)
    requires '/' !in tag
    ensures LastSegment(word + "/" + tag) == tag
    ensures PosClass(word + "/" + tag) == PosClass(tag)
  {
    SplitConcat(word, '/', tag);
    NoCharNoStart(tag, '/');
    SplitNone(tag, "/");
    assert word + "/" + tag == word + ['/'] + tag;
  }

  /** The loop in `set_words` over the composition pairs: each pair's word at `index` is
      appended unless already present; the loop stops at the first pair too short to
      have that index. `acc` is what has been gathered so far. */
  function PairWords(pairs: seq<seq<string>>, index: nat, acc: seq<string>): seq<string>
    decreases |pairs|
  {
    if pairs == [] || |pairs[0]| <= index then acc
    else PairWords(pairs[1..], index, if pairs[0][index] in acc then acc else acc + [pairs[0][index]])
  }

  /** Every pair has an element at `index`, so the loop does not raise IndexError. */
  predicate AllReach(pairs: seq<seq<string>>, index: nat)
  {
    forall k :: 0 <= k < |pairs| ==> index < |pairs[k]|
  }

  /** The gathered words have no duplicates, and when no pair is too short they are
      exactly the words found at `index` in the pairs (besides those gathered before). */
  lemma {:induction false} PairWordsDistinct(pairs: seq<seq<string>>, index: nat, acc: seq<string>)
    requires Distinct(acc)
    ensures Distinct(PairWords(pairs, index, acc))
    ensures AllReach(pairs, index) ==>
      forall w :: w in PairWords(pairs, index, acc) <==>
        w in acc || exists k :: 0 <= k < |pairs| && pairs[k][index] == w
    decreases |pairs|
  {
    if pairs != [] && index < |pairs[0]| {
      var w0 := pairs[0][index];
      var acc' := if w0 in acc then acc else acc + [w0];
      PairWordsDistinct(pairs[1..], index, acc');
      if AllReach(pairs, index) {
        assert AllReach(pairs[1..], index) by {
          forall k | 0 <= k < |pairs| - 1 ensures index < |pairs[1..][k]| {
            assert pairs[1..][k] == pairs[k + 1];
          }
        }
        forall w
          ensures w in PairWords(pairs, index, acc) <==>
            w in acc || exists k :: 0 <= k < |pairs| && pairs[k][index] == w
        {
          if exists k :: 0 <= k < |pairs| && pairs[k][index] == w {
            var k :| 0 <= k < |pairs| && pairs[k][index] == w;
            if k > 0 {
              assert pairs[1..][k - 1][index] == w;
            }
          }
          if exists k :: 0 <= k < |pairs[1..]| && pairs[1..][k][index] == w {
            var k :| 0 <= k < |pairs[1..]| && pairs[1..][k][index] == w;
            assert pairs[k + 1][index] == w;
          }
        }
      }
    }
  }

  /** `words += wordlist` for every loaded word list. */
  function Concat(lists: seq<seq<string>>): seq<string>
  {
    if lists == [] then [] else Concat(lists[..|lists| - 1]) + lists[|lists| - 1]
  }

  /** The concatenation has exactly the words of the lists, and is empty exactly when
      every list is. */
  lemma {:induction false} ConcatMembers(lists: seq<seq<string>>)
    ensures |Concat(lists)| == 0 <==> forall k :: 0 <= k < |lists| ==> lists[k] == []
    ensures forall w :: w in Concat(lists) <==> exists k :: 0 <= k < |lists| && w in lists[k]
  {
    if lists != [] {
      var init, last := lists[..|lists| - 1], lists[|lists| - 1];
      ConcatMembers(init);
      assert forall k :: 0 <= k < |init| ==> init[k] == lists[k];
      forall w ensures w in Concat(lists) <==> exists k :: 0 <= k < |lists| && w in lists[k] {
        if exists k :: 0 <= k < |lists| && w in lists[k] {
          var k :| 0 <= k < |lists| && w in lists[k];
          if k < |init| {
            assert w in init[k];
          }
        }
      }
    }
  }

  /** With the loaded word lists as the words of interest, a word is included exactly when
      every list is empty or some list holds it. */
  lemma IncludeLoaded(lists: seq<seq<string>>, word: string)
    ensures Include(Concat(lists), word) <==>
      (forall k :: 0 <= k < |lists| ==> lists[k] == []) || exists k :: 0 <= k < |lists| && word in lists[k]
  {
    ConcatMembers(lists);
  }
}
