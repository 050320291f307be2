# Binary decision tree: training, prediction, pruning and row cleaning

A Dafny model of the core of a small Go decision-tree classifier. Records are
rows of text fields whose last field is the class label. The model covers:

- the split search: the entropy guard, information gain under a boolean mask,
  the best threshold of one column, and the best column;
- the partitioner and the majority vote;
- oversampling of the `"true"` rows and the depth-bounded recursive builder;
- prediction by string order and accuracy over labelled rows;
- bottom-up pruning against a validation set;
- the row-cleaning helpers.

The tree is the datatype `Tree = Leaf(classLabel) | Node(attributeIndex,
attributeValue, left, right)`. The source's `Children` map with keys `"left"`
and `"right"` becomes two fields, so every tree is full binary by construction.
On text that is valid UTF-8, Go's string `<` (byte-wise lexicographic order)
is `GoStrings.StrLt`; other byte strings are not represented. Dafny's
own `<` on sequences means "proper prefix", so it is not used.

Everything that mutates in place in the source is modelled as a pure function
or a method that returns a new value:

- `Prune` returns the pruned tree;
- the cleaning loops return new records.

Accuracy comparisons are stated on integer correct counts. `Post.EvaluateOrder`
shows that comparing the real-valued accuracies over the same rows is the same
comparison.

Modules, one per file: `Results`, `GoStrings`, `Seqs`, `StringSort`, `Data`,
`SplitSearch` (treeMaking/utils.go), `TreeConstruction`
(treeMaking/treeconstruction.go), `Post` (post/post.go), `Pruning`
(postPruning/pruning.go) and `DataClean` (utils/dataclean.go).

## Model

| member | source | states |
|---|---|---|
| SplitSearch.CalculateEntropy | treeMaking/utils.go:67-71 | fails exactly when the column is empty, with the source's message |
| SplitSearch.EntropyIgnoresOrder | treeMaking/utils.go:73-89 | entropy depends only on the multiset of values, not their order; the source computes it from label counts, and the model holds this by making the entropy value a function of the label multiset |
| SplitSearch.InformationGain | treeMaking/utils.go:171-213 | an all-true or all-false mask gives gain 0 without any loss call; otherwise the result is Ok exactly when the three losses are, and any error is one of the three losses' errors |
| SplitSearch.SelectPartition | treeMaking/utils.go:189-197 | the positive and negative label lists have the mask's true and false counts and together hold every masked label |
| SplitSearch.SelectIsMakeSplit | treeMaking/utils.go:189-197 | the labels of the rows `MakeSplit` sends left on a column and threshold are exactly, in order, the positive labels of that column's mask, and the labels of the rows it sends right are the negative ones, so the tree is split by the same test that scored the threshold |
| SplitSearch.EntropyGainNeverFails | treeMaking/utils.go:180-207 | with entropy as the loss, information gain never fails |
| GoStrings.StrLtFirstDifference | treeMaking/utils.go:57 | Go's string `<` (`GoStrings.StrLt`) holds exactly when, at the first position where the strings differ or one ends, the left string has ended or has the smaller character |
| GoStrings.StrLtIrreflexive | treeMaking/utils.go:136 | no string is below itself, so a threshold never sends its own value left |
| GoStrings.StrLtAsymmetric | treeMaking/utils.go:129 | two strings are never below each other |
| GoStrings.StrLtTransitive | treeMaking/utils.go:129 | the order is transitive, as sorting needs |
| GoStrings.StrLtTotal | treeMaking/utils.go:129 | any two different strings are ordered one way or the other |
| StringSort.SortedUnique | treeMaking/utils.go:119-129 | two strictly sorted lists with the same values are equal, so the sorted candidate list does not depend on the order in which the map yields its keys |
| StringSort.SortedDistinct | treeMaking/utils.go:119-129 | the distinct values are strictly sorted and hold exactly the column's values |
| SplitSearch.CandidatesAreNonMinimal | treeMaking/utils.go:129-131 | a threshold candidate is exactly a column value that is above some other column value, so the smallest value is dropped |
| SplitSearch.CandidatesEmptyIffAllSame | treeMaking/utils.go:129-156 | there are no candidates exactly when the column holds one distinct value |
| SplitSearch.CandidateMaskIsProper | treeMaking/utils.go:133-137 | every candidate's mask has at least one true and at least one false |
| SplitSearch.GainsOf | treeMaking/utils.go:133-152 | the gain list is Ok exactly when every candidate's gain is, in candidate order; an error is some candidate's error |
| SplitSearch.GainsOfFirstError | treeMaking/utils.go:133-148 | a failing gain list carries the error of the first failing candidate, every earlier candidate's gain being Ok |
| SplitSearch.MaxInformationGainSplitFirstError | treeMaking/utils.go:129-148 | a failing column search reports the error of the smallest candidate threshold whose gain fails |
| SplitSearch.FirstMaxIndex | treeMaking/utils.go:158-165 | the index holds a maximal gain and every earlier gain is strictly smaller |
| SplitSearch.MaxInformationGainSplit | treeMaking/utils.go:115-168 | one distinct value gives the invalid zero result; otherwise the result is the first candidate of maximal gain in sorted order, marked valid and numeric, and errors propagate |
| SplitSearch.FirstBestCandidate | treeMaking/utils.go:158-167 | the first maximal gain's candidate beats every smaller candidate strictly and is matched by none |
| SplitSearch.GetBestSplit | treeMaking/utils.go:10-46 | a zero-gain result is the sentinel split; otherwise the gain is positive, the column is an attribute column below the label column, and the split is numeric |
| SplitSearch.GetBestSplitIsBest | treeMaking/utils.go:18-45 | the search succeeds exactly when every column's search does, reports a failing column's error, and on success returns the earliest column whose valid gain is strictly above every earlier one and at least every later one, or the sentinel when none is positive |
| SplitSearch.GetBestSplitFirstError | treeMaking/utils.go:18-30 | a failing search reports the error of the first attribute column whose search fails, every earlier column's search having succeeded |
| SplitSearch.ScanColumnsIsBest | treeMaking/utils.go:18-38 | the column loop keeps the best split so far under strict improvement over the running maximum from 0 |
| SplitSearch.ScanColumnsFirstError | treeMaking/utils.go:18-30 | the column loop aborts at the first failing column with that column's error |
| SplitSearch.EntropySplitNeverFails | treeMaking/utils.go:10-46 | with entropy as the loss, the best-split search never fails on non-empty data |
| SplitSearch.MakeSplit | treeMaking/utils.go:48-65 | the two sides' sizes add up to the input's, left rows pass the test (string `<` when numeric, equality otherwise), right rows fail it, and the sides together are a rearrangement of the input |
| SplitSearch.MakeSplitPreservesOrder | treeMaking/utils.go:53-62 | each side is the input's rows of that side in their original order |
| SplitSearch.MakePrediction | treeMaking/utils.go:93-112 | empty data gives `""`; otherwise the winner is a label of the data whose count no label exceeds |
| SplitSearch.MajorityFrom | treeMaking/utils.go:101-108 | the scan for the largest count ends on a label of maximal count |
| TreeConstruction.YesRecords | treeMaking/treeconstruction.go:41-47 | the yes rows are exactly the input rows whose label is `"true"` |
| TreeConstruction.NoRecords | treeMaking/treeconstruction.go:41-47 | the no rows are exactly the input rows whose label is not `"true"` |
| TreeConstruction.Duplicate | treeMaking/treeconstruction.go:50-53 | the yes rows grow to the no count by appending copies of yes rows, keeping the originals as a prefix |
| TreeConstruction.OversampleRecords | treeMaking/treeconstruction.go:36-58 | the output is the yes rows (originals first, then copies of yes rows) followed by the no rows in their original order, with length max(yes, no) + no |
| TreeConstruction.OversampleSameRows | treeMaking/treeconstruction.go:50-56 | the output has the same distinct rows as the input |
| TreeConstruction.OversampleSides | treeMaking/treeconstruction.go:41-56 | rows before the no block end in `"true"` and the no block's rows do not |
| TreeConstruction.OversampleBalances | treeMaking/treeconstruction.go:50-53 | with 0 < yes < no, the output has as many yes rows as no rows and the no rows are unchanged |
| TreeConstruction.OversampleKeepsBalancedData | treeMaking/treeconstruction.go:50-56 | with yes ≥ no, the output is the input regrouped (yes rows then no rows), the same multiset of rows |
| TreeConstruction.BuildTree | treeMaking/treeconstruction.go:61-115 | a built tree's height is at most the depth budget, every node tests an attribute column, and a split search that never fails makes the build never fail |
| TreeConstruction.BuildTreeStep | treeMaking/treeconstruction.go:63-83 | depth 0 or no rows give the majority leaf; a split-search error aborts the build with that error; zero gain gives the majority leaf |
| TreeConstruction.BuildTreeSplitStep | treeMaking/treeconstruction.go:94-114 | when the best split has non-zero gain, the build is the left side's error if its build fails, else the right side's error if that build fails, else the node on the split over the two built trees |
| TreeConstruction.BuildTreeNodeStep | treeMaking/treeconstruction.go:85-114 | a node comes from a positive-gain numeric split, stores its attribute and value, and its children are the builds of MakeSplit's two sides one level shallower |
| TreeConstruction.EntropyBuildNeverFails | treeMaking/treeconstruction.go:61-115 | with entropy as the loss, the recursive build never fails |
| TreeConstruction.ConstructDecisionTree | treeMaking/treeconstruction.go:20-34 | the built tree has height at most 8 and tests only attribute columns of the input |
| Post.Predict | post/post.go:20-31 | the prediction is the label of some leaf of the tree |
| Post.Correct | post/post.go:7-14 | the correct count is at most the number of rows |
| Post.Evaluate | post/post.go:6-17 | accuracy on non-empty rows lies between 0 and 1 |
| Post.EvaluateOrder | post/post.go:16 | comparing two trees' accuracies on the same rows is comparing their correct counts, for both order and equality |
| Post.LeafCorrect | post/post.go:9-23 | a single leaf is right on exactly the rows carrying its label |
| Post.EvaluateLeaf | post/post.go:6-17 | a single leaf's accuracy is the share of rows carrying its label |
| Post.CorrectConcat | post/post.go:9-14 | correct counts add up over consecutive blocks of rows |
| Post.CorrectNode | post/post.go:25-30 | a node is right on the rows MakeSplit sends left that its left child gets right plus the rows sent right that its right child gets right |
| Pruning.Prune | postPruning/pruning.go:10-41 | the pruned tree arises from the input by collapsing subtrees into leaves, keeps every other node's attribute and value, is no higher, and still fits the validation rows |
| Pruning.AllChildrenAreLeavesIsShallow | postPruning/pruning.go:42-49 | a tree passes the all-children-are-leaves test exactly when it has at most one level of tests: a leaf, or a node over two leaves |
| Pruning.PrunedFromShape | postPruning/pruning.go:10-41 | a pruned tree is no higher than the original and fits every row the original fits |
| Pruning.PruneNodeDecision | postPruning/pruning.go:15-49 | children are pruned first; a node collapses to the validation majority leaf exactly when both pruned children are leaves and that leaf gets strictly more validation rows right; otherwise the node keeps its test over its pruned children |
| Pruning.PruneCollapseIsMajority | postPruning/pruning.go:26-28 | a collapsed node's label is a validation label that no other single leaf beats on the validation rows |
| Pruning.PruneIdempotent | postPruning/pruning.go:10-41 | pruning a pruned tree again changes nothing |
| Pruning.PruneCanLowerAccuracy | postPruning/pruning.go:19-34 | a five-row validation set on which pruning turns a tree with all 5 rows right into one with 3 right |
| Pruning.PruneReducedError | postPruning/pruning.go:10-41 | the corrected pruning also yields a collapsed-subtree tree, no higher, that fits the rows it was pruned with |
| Pruning.PruneReducedErrorNeverHurts | postPruning/pruning.go:30-34 | the corrected pruning never lowers the number of rows the tree gets right |
| Pruning.PruneReducedErrorKeepsAccuracy | postPruning/pruning.go:30-34 | the corrected pruning never lowers validation accuracy |
| DataClean.RemoveFirstRow | utils/dataclean.go:95-100 | putting the first row back in front of the result gives the input; empty input stays empty |
| DataClean.HasMissing | utils/dataclean.go:105-111 | the inner scan reports a missing value exactly when some field is the empty string |
| DataClean.RemoveMissing | utils/dataclean.go:102-118 | the result is the rows with no empty field, in their original order, and every such row is kept |
| DataClean.DropIdColumn | utils/dataclean.go:17-20 | each row keeps its place and loses exactly its first field |
| DataClean.EducationCode | utils/dataclean.go:123-132 | the education code is one of "0" to "3" |
| DataClean.MaritalCode | utils/dataclean.go:134-143 | the marital code is one of "0" to "3" |
| GoStrings.CharToLower | utils/dataclean.go:123 | each ASCII capital becomes its own lower-case letter, lower-case ASCII letters are kept, U+0130 becomes 'i' and the Kelvin sign U+212A becomes 'k'; a lower-case ASCII result comes only from an ASCII letter or one of those two runes |
| GoStrings.ToLowerIdempotent | utils/dataclean.go:134 | lower-casing an already lower-cased string changes nothing |
| GoStrings.ToLowerIgnoresAsciiCase | utils/dataclean.go:123 | two strings that differ only in the case of ASCII letters lower to the same string |
| DataClean.EducationCodeNames | utils/dataclean.go:123-132 | code n in 1..3 is given exactly to text whose lower-case form is primary, secondary or tertiary respectively, and code 0 to everything else |
| DataClean.MaritalCodeNames | utils/dataclean.go:134-143 | code n in 1..3 is given exactly to text whose lower-case form is married, single or divorced respectively, and code 0 to everything else |
| DataClean.CodesIgnoreCase | utils/dataclean.go:123-134 | lower-casing the text first does not change either code |
| DataClean.CodesCaseInsensitive | utils/dataclean.go:121-143 | text that differs only in the case of ASCII letters gets the same education code and the same marital code |
| DataClean.MapTextToNumeric | utils/dataclean.go:121-146 | column 3 becomes the education code, column 2 the marital code, every other field and the row lengths are unchanged |
| DataClean.YesToBool | utils/dataclean.go:46-50 | the answer is "true" or "false", and "true" exactly for "yes" |
| DataClean.MapBoolColumns | utils/dataclean.go:41-53 | columns 4, 6, 7 and 16 become "true" exactly where they were "yes" and "false" elsewhere; all other fields are unchanged |
| DataClean.FilterRecordsAge | utils/dataclean.go:76-93 | the result is, in order, exactly the rows whose first field parses to an integer in 0..120; rows that fail to parse are dropped |

## Left out

- Entropy as a number: `math.Log2` and float64 arithmetic in `CalculateEntropy` and `InformationGain` (treeMaking/utils.go:73-89, 209-210). The loss is an abstract function from label sequences to a `Result<real>`. Entropy is an abstract function of the label multiset behind the modelled empty-column guard. Only the guards, the partition and the arg-max logic are proved.
- Gains are `real`, while the source compares float64 values. The strict `>` comparisons are modelled exactly, but rounding is not.
- `rand.Shuffle` in `ConstructDecisionTree` (treeMaking/treeconstruction.go:27-30) is omitted. The builder receives the oversampled rows in order.
- `rand.Intn` in oversampling (treeMaking/treeconstruction.go:51) becomes an index oracle `pick`, reduced modulo the yes count.
- TreeConstruction.OversampleRecords: with no yes rows and at least one no row the source calls `rand.Intn(0)` and panics, so the model requires yes rows whenever there are no rows.
- Go map iteration order in `MakePrediction` and `getMajorityClass` is not modelled. Contracts promise only "a label of maximal count". The one function `SplitSearch.MakePrediction` models both, since their code is the same computation.
- `MakeSplit`'s error result is always nil in the source, so the model returns the pair directly. The builder's error branch for it (treeMaking/treeconstruction.go:96-98) cannot happen.
- `Evaluate` on empty data is `0/0`, NaN, in the source. Evaluate and Prune require non-empty validation data instead of modelling NaN comparisons.
- Post.Evaluate: the source divides two float64 values. The model divides exact reals, which order the same way as long as the counts are exactly representable (below 2^53).
- Post.Predict: the model requires the row to have every column the tree tests anywhere, which is stronger than the source. The source indexes only the columns on the row's own path, so a row too short for an untested branch still gets a prediction there. Every caller in the program passes rows of the training width, which meet the model's requirement.
- Post.Correct and Post.Evaluate: the same whole-tree requirement for every row, plus a label, which the source reads with `row[len(row)-1]` and which panics on an empty row.
- Pruning.Prune: a nil root is not representable, since trees are values.
- Pruning.Prune: on revert the source leaves the majority label in the internal node's `ClassLabel` field. That field is never read for internal nodes, so it is not modelled.
- DataClean.DropIdColumn: requires a field in every row. The source slices `record[1:]` (utils/dataclean.go:19), which panics on an empty row.
- DataClean.MapTextToNumeric: requires at least four fields in every row. The source indexes `record[3]` (utils/dataclean.go:123) and panics otherwise.
- DataClean.MapBoolColumns: requires at least seventeen fields in every row. The source indexes column 16 (utils/dataclean.go:46) and panics otherwise.
- DataClean.FilterRecordsAge: requires a field in every row. The source reads `record[0]` (utils/dataclean.go:80) and panics on an empty row.
- The printing in `ConstructDecisionTree`, `Prune`, `constructDecisionTreeRecursive`, `removeMissing`, `filterRecordsAge` and `DataClean` is left out, since it is output only.
- DataClean.FilterRecordsAge: `strconv.Atoi` is an abstract partial parser `atoi` passed in, answering `None` where the source reports an error.
- The integer-column normalisation loop of `DataClean` (utils/dataclean.go:25-36) is left out. It needs `Atoi` and `Itoa` exactly, and its only effects are canonical number text or an aborting error.
- `standardizeBalance` (utils/dataclean.go:147-169) is left out: it is float mean, deviation and `Sprintf`.
- `addJobFeatures` and the job-column drop (utils/dataclean.go:58-64, 171-191) are left out: their column order depends on Go map iteration.
- `ReadCSV`, `SaveCSV`, `SplitData` (random split), the `DataClean` orchestration and `main` are I/O and wiring.
- Only valid UTF-8 text is represented: fields are Dafny strings of Unicode scalar values. Go strings are byte strings, and `encoding/csv` passes invalid UTF-8 bytes through, so a field such as the single byte 0xE9 has no counterpart. `GoStrings.StrLt` equals Go's byte order on valid UTF-8 text only, and the U+FFFD replacement that `strings.ToLower` makes for invalid bytes is not modelled.
- DataClean.EducationCode and DataClean.MaritalCode lower-case text with `GoStrings.ToLower`. It maps ASCII capitals and the two non-ASCII runes whose lower case is an ASCII letter. Other Unicode case mappings cannot affect a match against the ASCII names, so they are left out.

## Findings

| source | as written | input that shows it | evidently intended | confidence | as-written member | corrected member |
|---|---|---|---|---|---|---|
| postPruning/pruning.go:19-34 | a candidate node is judged by the accuracy of its own subtree on the whole validation set, including rows that never reach it, and the collapsed leaf takes the majority label of the whole validation set | tree `Node(0,"b", Node(1,"q",m,w), Node(0,"c",y,z))` with validation rows `[a,p,m]` three times, `[b,p,y]` and `[c,p,z]`: the right subtree scores 2/5 against 3/5 for a leaf m and collapses, although it was right on both rows reaching it; the tree falls from 5/5 to 3/5 | a collapse is kept only if it does not lower validation accuracy (reduced-error pruning), so each candidate is judged on the validation rows routed to it | high; not executed | Pruning.PruneCanLowerAccuracy | Pruning.PruneReducedErrorNeverHurts |
