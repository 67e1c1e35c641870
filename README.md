# Composition of APT dependency vectors

This project models the vector logic of the `Composition` class of the APT vector tools
(`src/tools/composition.py`) in Dafny. The model covers:

- how features are encoded;
- the per-line logic of the file stages;
- totals by path type;
- additive composition of a dependent's vector with its head's;
- intersective composition;
- saliency pruning;
- the object state that composition fills in.

Each entry (a word, such as `car/N`) maps to a sparse vector of features `path:value`. A path
is a chain of relation labels joined by the two-character separator U+00C2 U+00BB, so
`_dobj»amod:red` has path `_dobj»amod`, value `:red` and order 2.

Modules, in dependency order:

- `PyStr` has Python's `str.split` (leftmost, non-overlapping occurrences; `"".split(x) == [""]`)
  and the joining of fields.
- `Outcomes` has `Option`, `Result` and the Python errors that the code can raise:
  `KeyError(key)`, `IndexError` and `ZeroDivisionError`.
- `Dicts` makes a Python dict a value: the keys in insertion order plus a map. Storing under
  an existing key keeps its position; a new key goes at the end, as in Python.
- `Codec` has `getpathtype`, `getpathvalue`, `getorder`, `splitfeature` and `join`.
- `Words` has `include`, `typeinclude`, `selectpos`, the word gathering of `set_words` and the
  part-of-speech test of `splitpos`.
- `Lines` has `reduceorder`, `filter`, `normalise`, `maketotals`, `load_vectors`, `output`, the
  thresholds of `load_rowtotals`/`load_coltotals`, and `add`. A line is given as its entry and
  its already-parsed (feature, weight) pairs. The stages take pairs off the end with `pop()`, so
  they meet the pairs last first, and the model keeps that order.
- `Totals` has `compute_typetotals` and `compute_nounpathtotals`.
- `Saliency` has `mostsalient_vector` as written and as evidently intended (see Findings).
- `Compose` has `offsetVector`, `addCompound`, `addAN` and `intersecteach`.
- `Intersection` has the loop of `intersectall` over word lists.
- `Pairs` covers one `CompoundCompose` step and the list of `ANcompose` calls made by
  `runANcomposition`.
- `Composer` has the class `Composition`: its fields, as set up by `__init__`. Its methods
  update those fields: `set_words`, the loading of a part of speech in `compose`,
  `CompoundCompose`, `ANcompose`, `runANcomposition` and `intersectall`.

Each loop of the code is a method with loop invariants, with one exception: the loop of
`splitfeature` that re-joins the remaining labels is the loop of `join`, so the function
`Codec.SplitFeature` uses `Joined`, the function that `Codec.Join` is proved equal to. Each method is proved equal to a
function of its inputs (or of the old state), and lemmas prove what the code promises about
those functions. Weights are mathematical reals. Python raises an exception when a dict key or
a list index is missing, or on a division by zero; the model returns these as `Err` or `Some`
error outcomes and never assumes them away.

The model follows the code where its comments say otherwise, and takes pairs as the code reads them:

- A composition pair gives the adjective as `comppair[2]` and the noun as `comppair[0]`
  (composition.py:161,917).
- The doc comment of `splitfeature` (composition.py:255) says `amod:red` gives `("amod:red","")`.
  The code gives `("amod","")`. `Codec.SplitFeatureRoundTrip` proves the code's behaviour.
- `CompoundCompose` passes the dependent's path totals through `addCompound`, and so through
  `offsetVector` (composition.py:953), although their keys are path types and not features.
  The path type "" of ":red" is filed under "mod" + SEP while ":red" becomes "mod:red", of
  path type "mod"; the path type "_mod" is dropped while "_mod:x" becomes ":x". So the
  composed path totals are in general not the path totals of the composed vector. The model
  keeps the code's behaviour (`Compose.PathTotalsOffsetPushed`, `Compose.PathTotalsOffsetDropped`).
  The PPMI stage that reads these totals is not modelled.

## Model

| member | source | states |
|---|---|---|
| PyStr.Split | src/tools/composition.py:222-223 | `str.split` always gives at least one field, so taking field 0 never fails |
| PyStr.JoinedSplit | src/tools/composition.py:265-272 | joining the fields of a split with the separator gives back the original string |
| PyStr.SplitRest | src/tools/composition.py:265-272 | with several fields, the string is the first field, the separator, and a rest whose fields are the remaining fields |
| PyStr.SplitJoined | src/tools/composition.py:1051 | parts that do not contain a one-character separator split back into themselves after being joined with it |
| Codec.PathType | src/tools/composition.py:220-223 | the path is the longest prefix of the feature without ':', so it stops at the first ':' or at the end (`PathTypeIsSplit` shows it is field 0 of the split) |
| Codec.PathValue | src/tools/composition.py:230-236 | the value is "" exactly when the feature has no ':'; otherwise it starts with ':' and holds no further ':' |
| Codec.Order | src/tools/composition.py:241-250 | the order is 0 exactly when the path is empty (`OrderCountsSeparators` counts the labels otherwise) |
| Codec.SplitFeature | src/tools/composition.py:259-274 | a nonempty rest joins back to the path as `first + SEP + rest`; with an empty rest the path is the first label, or the first label and a trailing separator (`SplitFeatureRoundTrip` gives the cases by order) |
| Codec.PathTypeIsSplit | src/tools/composition.py:220-223 | `getpathtype` is the first `:`-field of the feature |
| Codec.Join | src/tools/composition.py:279-289 | the loop of `join` builds the elements separated by `achar`: "" for none, the element itself for one |
| Codec.SplitCountsSeparators | src/tools/composition.py:247-248 | splitting on the separator gives one more field than there are separators |
| Codec.OrderCountsSeparators | src/tools/composition.py:241-250 | `getorder` is 0 exactly when the path is empty, and otherwise the number of separator-delimited labels (so at least 1) |
| Codec.PathTypeNoColon | src/tools/composition.py:220-223 | a path never contains ':' |
| Codec.EmptyPathIffColon | src/tools/composition.py:220-223 | a nonempty feature has an empty path exactly when it starts with ':' |
| Codec.DecomposeRoundTrip | src/tools/composition.py:220-236 | with at most one ':', `getpathtype(f) + getpathvalue(f) == f` |
| Codec.PathValueSecondField | src/tools/composition.py:230-236 | with two or more ':', `getpathvalue` is ':' and the second field, dropping whatever follows the second ':' |
| Codec.SplitFeatureRoundTrip | src/tools/composition.py:259-274 | `("","")` for an empty path; `(path,"")` for order 1; otherwise `first + SEP + rest == path`, with the rest one label shorter; neither part contains ':' |
| Codec.PathTypePrepend | src/tools/composition.py:1012-1015 | text free of ':' in front of a feature lengthens its path and keeps its value |
| Codec.OrderPrependLabel | src/tools/composition.py:1014-1015 | `rel + SEP + f` with a nonempty path has path `rel + SEP + path` and order one higher |
| Codec.OrderPrependLabelToValue | src/tools/composition.py:1012-1013 | `rel + f` for a feature with an empty path has path `rel` and order 1 |
| Words.Include | src/tools/composition.py:192-198 | a listed word is included; an unlisted word is included exactly when no words are listed (`IncludeLoaded` relates it to the loaded lists) |
| Words.TypeInclude | src/tools/composition.py:203-207 | a listed path type is included; an unlisted one exactly when no types are listed (`ChosenSound` and `FirstIncluded` use it) |
| Words.SelectPos | src/tools/composition.py:212-213 | with the file table `filesbypos` of composition.py:95-96, the input file is the base name with ".nouns", ".verbs", ".adjs", ".advs", ".others" or ".ans" for the tags "N", "V", "J", "R", "F" and "ANS", and the nouns' file for any other tag |
| Words.Lower | src/tools/composition.py:310 | lower-casing keeps the length and maps each character (ASCII letters only) |
| Words.PosClass | src/tools/composition.py:310-324 | the output file is one of N, V, J, R, F: N, V, J or R exactly when the lower-cased last '/'-segment starts with 'n', 'v', 'j' or 'r' respectively; F exactly when it is empty or starts with none of them |
| Words.PosClassAfterLastSlash | src/tools/composition.py:310 | only the text after the last '/' decides the class |
| Words.PairWordsDistinct | src/tools/composition.py:159-167 | the gathered pair words have no duplicates; when every pair reaches the index, they are exactly the words at that index |
| Words.ConcatMembers | src/tools/composition.py:184-186 | the concatenated word lists hold exactly the words of the lists, and are empty exactly when every list is |
| Words.IncludeLoaded | src/tools/composition.py:192-198 | with the loaded lists as words of interest, `include(w)` holds exactly when every list is empty or some list holds `w` |
| Dicts.SumValues | src/tools/composition.py:1056-1058 | the summing loop computes the sum of the dict's values |
| Dicts.TotalAddTo | src/tools/composition.py:414-415 | `d[k] = d.get(k, 0) + w` adds exactly `w` to the sum of the values |
| Lines.KeptIsReversedFilter | src/tools/composition.py:360-367 | the pop loop keeps the same pairs as an in-order filter, in reverse order |
| Lines.KeptMembers | src/tools/composition.py:360-367 | the pop loop keeps exactly the pairs that pass the test |
| Lines.KeepPassing | src/tools/composition.py:360-367 | the pop loop of the filters computes the kept pairs, and `nofeats` counts them |
| Lines.ReduceOrderLine | src/tools/composition.py:358-369 | nothing is written without a surviving feature; otherwise the written pairs are exactly those with `minorder <= getorder <= maxorder`, last pair first |
| Lines.FilterLine | src/tools/composition.py:499-516 | a line is written only if `rowtotals.get(entry, 0) > filterfreq` and `include(entry)`; the pairs kept are exactly those with `coltotals.get(feat, 0) > filterfreq`, last pair first; nothing is written without survivors |
| Lines.ScaledAt | src/tools/composition.py:548-552 | position k of the normalised line is the k-th pair from the end, its weight divided by the row total |
| Lines.ScaledSum | src/tools/composition.py:548-552 | the normalised weights sum to the line's total divided by the row total |
| Lines.NormaliseLine | src/tools/composition.py:546-554 | KeyError for an entry without a row total; ZeroDivisionError for a zero row total when the line has a feature; otherwise every weight divided, last pair first, the entry written even without features |
| Lines.AccumulateTotals | src/tools/composition.py:404-415 | after a line, each column total equals its old value plus the weights that the line gives that feature, and the line's features join the totals |
| Lines.AccumulateGrandTotal | src/tools/composition.py:404-415 | the sum of the column totals grows by exactly the line's row total |
| Lines.MakeTotalsLine | src/tools/composition.py:397-420 | the pop loop computes the row total (the sum of the weights) and the column totals updated with the line |
| Lines.LineVectorFirstWins | src/tools/composition.py:587-596 | the line's vector has the line's features, each with the weight of its first occurrence on the line (the pop loop writes it last) |
| Lines.Add | src/tools/composition.py:1027-1031 | the loop of `add` computes b's weights added to a's, key by key in b's order |
| Lines.AddMerges | src/tools/composition.py:1027-1031 | `add(a, b)` has the keys of both vectors, each weight the sum of the two (0 for a vector without it) |
| Lines.LoadVectorLine | src/tools/composition.py:582-603 | a line of an entry that is not of interest changes nothing; a new entry gets the line's vector; a repeated entry gets `add(old, line vector)` |
| Lines.OutputEntry | src/tools/composition.py:616-636 | the written pairs are exactly the vector's features with order in the window and their weights, in key order; nothing is written when none is left |
| Lines.LoadTotalLine | src/tools/composition.py:442-443 | a total is stored when the counts are normalised or it is above `filterfreq` (the same test as composition.py:462-463), and otherwise ignored; without normalisation every stored total stays above the threshold |
| Totals.PathTotalsSum | src/tools/composition.py:644-653 | each path type's total is the sum of the weights of its features, and the path types are exactly those of the features |
| Totals.PathTotalsConserve | src/tools/composition.py:644-653 | the path-type totals sum to the sum of all the weights |
| Totals.ComputeTypeTotals | src/tools/composition.py:644-653 | the loop computes the path-type totals of the column totals |
| Totals.ComputeNounPathTotals | src/tools/composition.py:660-673 | the result has exactly the input's entries in the input's order, each with its vector's path totals |
| Saliency.SortDesc | src/tools/composition.py:821 | `sorted(..., reverse=True)` on weights gives a permutation of the items, heaviest first, and is stable: the items of each weight keep their input order |
| Saliency.InsertSorted | src/tools/composition.py:821 | insertion keeps the items sorted heaviest first |
| Saliency.RankedItems | src/tools/composition.py:821 | the ranked items are exactly the vector's (feature, weight) pairs |
| Saliency.FirstIncluded | src/tools/composition.py:824-831 | finds no included path type exactly when no item is included; otherwise gives the path type of an included item |
| Saliency.MostSalientAsWritten | src/tools/composition.py:817-835 | the loop as written: the input is returned when `self.saliency <= 0`; otherwise `{}` when the class-level cap is 0 or nothing is included, and otherwise the KeyError of the first included path type |
| Saliency.AsWrittenKeepsNothing | src/tools/composition.py:828-833 | as written, with the switch on, a successful pruning returns an empty vector |
| Saliency.AsWrittenFails | src/tools/composition.py:828-831 | as written, the pruning fails exactly when the class-level cap is positive and the vector has a feature of an included path type |
| Saliency.AsWrittenCounterexample | src/tools/composition.py:831 | with `{"amod:red": 1.0}` and switch and cap at 1, the code raises KeyError("amod") |
| Saliency.MostSalientVector | src/tools/composition.py:817-835 | the corrected loop computes the chosen features over the ranked items, and returns the input unchanged when `self.saliency` is 0 |
| Saliency.ChosenSound | src/tools/composition.py:828-830 | every kept feature is of an included path type and carries the weight of one of the items |
| Saliency.ChosenCapped | src/tools/composition.py:827-832 | the kept features never exceed the counters, and no counter exceeds the cap |
| Saliency.ChosenFull | src/tools/composition.py:828-829 | an included item is left out only because the cap for its places is full |
| Saliency.ChosenHeaviest | src/tools/composition.py:821-832 | over items sorted heaviest first, a kept feature weighs at least as much as any left-out included item that competes for the same places |
| Saliency.MostSalientKeepsHeaviest | src/tools/composition.py:817-835 | the corrected pruning keeps a sub-map of the input with included path types only, at most `saliency` features (per path type when `saliencyperpath`), and the heaviest among those that compete; an included feature is left out only when its cap is full (`saliency` kept overall, or `saliency` kept of its path type when `saliencyperpath`) |
| Saliency.ChosenExact | src/tools/composition.py:827-832 | over features of distinct names the counters are exact: `all` is the number kept and each path type's counter the number kept of that type |
| Saliency.ChosenFills | src/tools/composition.py:827-832 | over features of distinct names an included feature is passed over only when `saliency` are kept (per path type when `saliencyperpath`) |
| Saliency.RankedDistinct | src/tools/composition.py:821 | the sorted items of a dict have distinct feature names |
| Saliency.CorrectedCounterexample | src/tools/composition.py:830 | on the counterexample input, the corrected pruning keeps `amod:red` with weight 1.0 |
| Compose.OffsetKey | src/tools/composition.py:1003-1015 | when `rel` has no ':', a feature that is kept keeps its value (`OffsetValueFeature`, `OffsetPushes`, `OffsetCancels`, `OffsetCancelsToValue` and `OffsetDrops` give the cases) |
| Compose.OffsetVector | src/tools/composition.py:997-1021 | the loop of `offsetVector` computes the dependent's features refiled in key order, a later feature overwriting an earlier one under the same key |
| Compose.OffsetFeature | src/tools/composition.py:1004-1015 | the branches of the loop body of `offsetVector` file a feature under exactly `OffsetKey` of it |
| Compose.RefileMembers | src/tools/composition.py:1016-1017 | the refiled dict has exactly the nonempty keys that some feature is filed under |
| Compose.RefileLastWins | src/tools/composition.py:1016-1017 | every refiled value is the weight of the last feature filed under its key |
| Compose.OffsetKeysAndValues | src/tools/composition.py:997-1021 | no offset key is ""; the keys are exactly the nonempty rewrites of the dependent's features; each value is the weight of the last feature rewritten to that key |
| Compose.OffsetValueFeature | src/tools/composition.py:1012-1013 | `:v` becomes `rel:v`, of order 1 |
| Compose.OffsetPushes | src/tools/composition.py:1014-1015 | a feature whose first label does not start with `_` becomes `rel + SEP + f`, one order higher |
| Compose.OffsetCancels | src/tools/composition.py:1005-1006 | a feature of order 2 or more whose first label is `_rel` loses that label and keeps its value, one order lower |
| Compose.PathTotalsOffsetPushed | src/tools/composition.py:1007-1015 | a value feature ":v" is filed under `rel:v`, of path type `rel`, but its path type "" is filed under `rel` + SEP when the path totals are offset (composition.py:953) |
| Compose.PathTotalsOffsetDropped | src/tools/composition.py:1005-1006 | "_rel:v" is filed under ":v", but its path type "_rel" is filed under "" and so dropped when the path totals are offset (composition.py:953) |
| Compose.InverseFeatureToValue | src/tools/composition.py:1005-1006 | `_rel` followed by a value, or by nothing, has path type `_rel` and is filed under that value |
| Compose.OffsetCancelsToValue | src/tools/composition.py:1005-1006 | a first-order `_rel:v`, or `_rel»:v` whose rest after `_rel` is empty, becomes the bare value `:v`, of order 0; with no value it becomes "" and is dropped |
| Compose.OffsetDrops | src/tools/composition.py:1007-1011 | a feature whose first label starts with `_` but is not `_rel` is dropped |
| Compose.WithoutVals | src/tools/composition.py:977 | deleting the listed keys keeps exactly the other keys with their weights |
| Compose.HeadPartVals | src/tools/composition.py:972-979 | the first loop of `addCompound` gives every head feature its own weight plus the offset's when the offset has it |
| Compose.AddCompound | src/tools/composition.py:962-986 | the two loops of `addCompound` (with the deletions and `update`) compute the composed vector of the head and the offset dependent |
| Compose.CompoundMerge | src/tools/composition.py:962-986 | the keys are those of the head and of the offset vector; shared keys get `head[f] + offset[f]`, head-only keys `head[f]` and offset-only keys `offset[f]` |
| Compose.AddAN | src/tools/composition.py:988-989 | `addAN` is `addCompound` through the relation "mod" |
| Compose.IntersectEach | src/tools/composition.py:1062-1068 | the loop of `intersecteach` computes the features of `a`, in a's order, whose weight `min(a[f], b.get(f, 0))` is positive |
| Compose.IntersectedVals | src/tools/composition.py:1062-1068 | a feature survives exactly when both vectors have it and the smaller weight is positive; that smaller weight is its value |
| Compose.MeetAssociative | src/tools/composition.py:1065-1066 | taking the positive feature-wise minimum is associative |
| Compose.IntersectIsMeet | src/tools/composition.py:1062-1068 | as a map, `intersecteach(a, b)` is the positive feature-wise minimum of the two vectors |
| Compose.IntersectSymmetric | src/tools/composition.py:1062-1068 | as a map, `intersecteach(a, b) == intersecteach(b, a)` |
| Compose.IntersectSelf | src/tools/composition.py:1062-1068 | a list of positively weighted keys intersected with itself keeps every key, in order, with its weight |
| Compose.IntersectIdempotent | src/tools/composition.py:1062-1068 | `intersecteach(v, v) == v` when all weights are positive |
| Compose.IntersectAssociative | src/tools/composition.py:1053-1054 | intersecting three vectors gives the same map however they are grouped |
| Intersection.IntersectWords | src/tools/composition.py:1052-1054 | IndexError for an empty word list; KeyError for the first word without a vector; otherwise the first word's vector intersected with each further word's |
| Intersection.MeetingSound | src/tools/composition.py:1053-1054 | folding `intersecteach` fails (KeyError) exactly when a word has no vector; otherwise it keeps exactly the features of the start vector that every word's vector weights positively, at no more than any of those weights |
| Intersection.MeetingPicksWeight | src/tools/composition.py:1053-1066 | each weight that folding `intersecteach` keeps is the start vector's weight or one word's weight for that feature, since each step keeps the smaller of two weights |
| Intersection.IntersectListSound | src/tools/composition.py:1052-1054 | IndexError exactly for an empty list; success exactly when every word has a vector; one word gives its own vector; two or more keep exactly the features common to all, at no more than any of their weights, each equal to one listed word's weight |
| Intersection.IntersectListsTotals | src/tools/composition.py:1055-1059 | every stored intersected vector has its total stored in `nountots` under the same name |
| Intersection.IntersectListsNames | src/tools/composition.py:1050-1055 | without error, a vector is stored under the joined name of every list, and earlier names are kept |
| Pairs.HeadPoS | src/tools/composition.py:939 | the lookup `headPoS.get(rel, "N")` in the class table `headPoS` (composition.py:42) gives "N" for every relation |
| Pairs.DepPoS | src/tools/composition.py:940 | `depPoS.get(rel, "J")` is "N" exactly for "nn", and "J" otherwise |
| Pairs.ComposedEntryDropsTag | src/tools/composition.py:950 | the composed name keeps the dependent's word before its first '/', then the relation and the whole head, joined by '&#124;' |
| Pairs.Combine | src/tools/composition.py:950-955 | the composed name, `addCompound` of the vectors and of the path totals, and `deptot + headtot` |
| Pairs.ComposedIffKnown | src/tools/composition.py:938-955 | composition succeeds exactly when head and dependent are found under their parts of speech in all three stores; the composed total is the sum of the totals and the vector merges the head's vector with the offset dependent's |
| Pairs.ComposedOkEntry | src/tools/composition.py:950-952 | a composite is stored under the composed name of its pair |
| Pairs.PairJobs | src/tools/composition.py:916-917 | one `ANcompose(comppair[2], comppair[0])` per listed pair, in order; a pair too short to index gives IndexError |
| Pairs.GridJobsProduct | src/tools/composition.py:923-925 | without a pair file the jobs are exactly the adjective and noun combinations |
| Pairs.RunJobsFailure | src/tools/composition.py:915-925 | a run ends without error exactly when no job fails, and otherwise with the error of the first failing job |
| Pairs.StoreKeys | src/tools/composition.py:952-955 | storing a composite adds its name to the keys of all three composed dicts |
| Pairs.RunJobsKeys | src/tools/composition.py:915-925 | a run keeps `ANvecs`, `ANpathtots` and `ANtots` with one key set, made of the entries it started with and the names of the jobs |
| Pairs.RunJobsStoresAll | src/tools/composition.py:915-925 | a run without error stores under the name of every job |
| Composer.TotalsError | src/tools/composition.py:907-908 | the KeyError of the first failing lookup of "J" or "N" |
| Composer.ComposedTotalsSound | src/tools/composition.py:907-908 | the totals step fails exactly when one of the four lookups fails, with a KeyError naming a missing tag; `ANfeattots` is replaced only when both of its lookups succeed, and `ANtypetots` only when all four do; the composed column totals have the features of the noun totals and of the offset adjective totals |
| Composer.Composition.constructor | src/tools/composition.py:98-110 | every part-of-speech tag in `filesbypos` gets an empty store of each of the five kinds, and path totals start aligned with the vectors |
| Composer.Composition.SetWords | src/tools/composition.py:157-186 | with a pair file: the pair words at index 2 for "J" and 0 otherwise, without duplicates, IndexError at a pair too short to index; without a filter file: the part of speech's default list; otherwise the concatenated loaded lists |
| Composer.Composition.StoreLoaded | src/tools/composition.py:891-893 | the loaded column totals, row totals and vectors are stored under the current part of speech, and nothing else changes |
| Composer.Composition.StorePathTotals | src/tools/composition.py:894-895 | the path totals of the current part of speech's vectors and its path-type totals are stored under it; every part of speech's path totals are again those of its vectors |
| Composer.Composition.CompoundCompose | src/tools/composition.py:938-955 | on success the composite is stored under its name in `ANvecs`, `ANpathtots` and `ANtots`; a failed lookup gives its KeyError and stores nothing |
| Composer.Composition.Save | src/tools/composition.py:952-955 | the three stores each gain the composite's part under its name |
| Composer.Composition.ANCompose | src/tools/composition.py:931-936 | `ANcompose(adj, noun)` is `CompoundCompose(adj, noun, "mod")` |
| Composer.Composition.ComposeTotals | src/tools/composition.py:907-908 | `ANfeattots` and `ANtypetots` become `addAN` of the adjective and noun totals, with the KeyError of a missing tag |
| Composer.Composition.RunComposition | src/tools/composition.py:911-925 | the composed dicts are emptied, then every job runs in order up to the first error |
| Composer.Composition.RunANComposition | src/tools/composition.py:902-925 | the composed totals first; on a failed lookup, the KeyError, with `ANfeattots` replaced if its own two lookups succeeded and the composed dicts unchanged; otherwise the run of the jobs from empty composed dicts |
| Composer.Composition.RunPairs | src/tools/composition.py:915-917 | the loop over the pair list runs the pair jobs up to the first error |
| Composer.Composition.RunRow | src/tools/composition.py:924-925 | the inner loop runs `ANcompose(adj, noun)` for every noun up to the first error |
| Composer.Composition.RunGrid | src/tools/composition.py:923-925 | the outer loop runs every adjective's row up to the first error |
| Composer.Composition.IntersectAll | src/tools/composition.py:1047-1060 | every word list's intersected vector is stored under the list's joined name and its total in `nountots`; the first error (IndexError or KeyError) ends the loop, keeping the totals stored before it |

## Left out

- File I/O: the file loops of `splitpos`, `reduceorder`, `maketotals`, `filter`, `normalise`,
  `load_*` and `output`, and the writing of lines. Each stage is modelled on one line, given
  as its entry and its parsed pairs.
- Configuration: `configure` (configparser), the argv parsing of `__init__`, the yaml
  loading of `set_words` (the loaded lists are a parameter of `SetWords`), and the `run`
  dispatch loop. Progress prints are left out too. The model's `saliencyperpath` is a bool that
  stands for the truth of the raw configparser string (composition.py:142): any nonempty
  string, "False" among them, turns per-path capping on.
- `computeppmi`, `mostsalientvecs`, `revectorise`, `mostsalient`, `inspect`, `intersect` and
  `rewrite`. They need floating-point logarithms and powers, printing or graphing, or they are
  stage plumbing around the modelled operations. For the same reason the final PPMI call of
  `runANcomposition` is not modelled.
- The `ValueError` recovery of `maketotals` and `load_vectors`, which depends on Python's
  float parsing. Weights arrive as numbers.
- Python float rounding and `str(float)` formatting. Weights are mathematical reals.
- `str.lower()` is modelled on ASCII letters only.
- The `compose` driver loop over "N" and "J" is modelled by its body, as two methods:
  `StoreLoaded` and `StorePathTotals`. The loaders are the per-line models of `Lines`.
- List aliasing: `set_words` assigns a class-level list to `self.words`, and Python shares it.
  The model copies the value.
- `rowtotals.get(entry, 0)` and `coltotals.get(feat, 0)` in `filter` compare against
  `filterfreq` as reals. Integer and float comparison agree there.

## Findings

| source | as written | input that shows it | evidently intended | confidence | as-written member | corrected member |
|---|---|---|---|---|---|---|
| src/tools/composition.py:828-831 | the cap is read from the class attribute `Composition.saliency` (0 unless changed), and `donetypes[pathtype] += 1` runs on an empty `donetypes`, so a selected feature raises KeyError and otherwise `{}` is returned | `mostsalient_vector({"amod:red": 1.0})` with `self.saliency` and `Composition.saliency` both 1 and no included types listed: KeyError("amod") | cap at `self.saliency`, and the counter written as `donetypes[pathtype] = done + 1` (as `mostsalientvecs` does at composition.py:809), keeping the heaviest features within the cap | not executed | Saliency.MostSalientAsWritten, Saliency.AsWrittenCounterexample | Saliency.MostSalientVector, Saliency.MostSalientKeepsHeaviest, Saliency.CorrectedCounterexample |
