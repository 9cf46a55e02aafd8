# refDiffTS matching core in Dafny

This project models the refactoring detector at the heart of refDiffTS
(`refDiffTS/packages/refdiffts-core`). It compares a "before" and an "after"
code structure tree and reports what happened to each file, class and
function: same, renamed, moved, re-signatured, extracted, inlined, added or
removed.

The model follows the source file by file:

- `multisets.dfy` (`Diff/Multiset.ts`): the token multiset.
  - A multiset is a `map<T, nat>`.
  - `get`, `max`, `sub` and `removeKeys` build fresh values, so they are pure functions.
  - `add` updates a `Multiset` object in place.
- `cst_node.dfy` and `cst.dfy` (`CST/CSTNode.ts`, `CST/CST.ts`, `CST/Location.ts`, `CST/TokenizedFile.ts`): the code structure tree.
  - Nodes live in an arena and refer to each other by index.
  - The `CST` class owns the arena while it is built: `CreateNode`, `AddChild`, `AddCall`, `AddRootNode` and `AddTokensForFile`.
  - After that the tree is a read-only `Forest` value.
  - `CSTIterator` walks it breadth-first, row by row, with the source's `done`/`row`/`rowIndex` fields.
  - The walk is proved to yield exactly the reference traversal `Traversal`: every node of a well-formed forest, once each.
- `relationship.dfy` (`Diff/Relationship.ts`): the ordered `RelationshipType` enumeration and the `(before?, after?, type)` record.
- `name_split.dfy`, `token_scan.dfy`, `weighted_jaccard.dfy` and `code_similarity.dfy` (`Diff/CodeSimiliarity.ts`): the similarity engine.
  - The camel-case name splitter.
  - The token scan that builds each node's full-span and body multisets.
  - The per-ancestor name multiset.
  - Document-frequency counting and the IDF tables.
  - The weighted Jaccard coefficient and its contained variant.
  - The `sim`, `bodySim`, `nameSim`, `extractedSim` and `inlineSim` queries.
  - The `CodeSimilarity` class fills the same maps as the source. The walks and counting loops follow the source; the loop that weighs the combined token counts visits the tokens in an unspecified order.
- `relationship_finder.dfy` (`Diff/RelationshipFinder.ts`): the greedy multi-pass matcher.
  - It runs the identity pass (which cascades into children), the similarity pass, the children-evidence pass, the classification of every match, the extract, extract-and-move and inline passes, and finally removed/added reporting.
  - The `RelationshipFinder` class keeps the source's match list, unmatched pools and both match maps as fields.
  - The passes update those fields in loops that visit a pool in insertion order and skip nodes already removed. This is how a JavaScript `Set` behaves when it is deleted from while being iterated.

Every similarity score is a `Result`:

- A zero denominator, which the source turns into NaN, gives the score `NoScore`. `NoScore` never exceeds the 0.5 threshold, exactly as NaN compares false in the source.
- Reading a multiset the source never stored throws a `TypeError` in the source. In the model it gives a `Fault`, and the fault propagates out of `findRelationships` as a `Failure`.

A classification that matches no rule of `findMatchingRelationship` is `None`. `resolveMatching` casts it and emits it anyway, so the model's relationship kind is an `Option`.

## Model


| member | source | states |
|---|---|---|
| Multisets.AddOne | refDiffTS/packages/refdiffts-core/src/Diff/Multiset.ts:15-17 | `add(k)` raises the count of `k` by exactly one, leaves every other count unchanged and adds `k` to the keys |
| Multisets.Multiset.constructor | refDiffTS/packages/refdiffts-core/src/Diff/Multiset.ts:3-5 | a new multiset holds no key |
| Multisets.Multiset.Add | refDiffTS/packages/refdiffts-core/src/Diff/Multiset.ts:15-17 | the object's values become `AddOne` of its old values |
| Multisets.TallyIsMultiset | refDiffTS/packages/refdiffts-core/src/Diff/Multiset.ts:7-17 | after adding the elements of a sequence one by one, `get(k)` is the number of occurrences of `k`, so it is 0 for a key never added |
| Multisets.Max | refDiffTS/packages/refdiffts-core/src/Diff/Multiset.ts:19-28 | the keys of `max(a, b)` are the keys of either, and each count is the larger of the two counts |
| Multisets.MaxCommutes | refDiffTS/packages/refdiffts-core/src/Diff/Multiset.ts:19-28 | `max` is commutative |
| Multisets.MaxIdempotent | refDiffTS/packages/refdiffts-core/src/Diff/Multiset.ts:19-28 | `max(a, a)` is `a` |
| Multisets.Sub | refDiffTS/packages/refdiffts-core/src/Diff/Multiset.ts:30-36 | `a.sub(b)` keeps exactly `a`'s keys, each count is `a`'s count minus `b`'s truncated at 0, and no count exceeds `a`'s |
| Multisets.SubOfAbsent | refDiffTS/packages/refdiffts-core/src/Diff/Multiset.ts:30-36 | a key absent from the receiver counts 0 in the difference |
| Multisets.RemoveKeys | refDiffTS/packages/refdiffts-core/src/Diff/Multiset.ts:38-47 | `removeKeys(S)` drops the keys of `S` (count 0) and keeps every other key with its count |
| Cst.CST.constructor | refDiffTS/packages/refdiffts-core/src/CST/CST.ts:52-55 | a new tree has no nodes, no root nodes and no tokenized files |
| Cst.CST.CreateNode | refDiffTS/packages/refdiffts-core/src/CST/CSTNode.ts:13-16 | a new node is appended to the arena with the given id, type and attributes, no children, no calls and no parent; earlier nodes are unchanged |
| Cst.CST.AddChild | refDiffTS/packages/refdiffts-core/src/CST/CSTNode.ts:18-21 | the child is appended to the parent's children after the existing ones, its parent becomes the receiver, and no call set, attribute or other link changes |
| Cst.CST.AddCall | refDiffTS/packages/refdiffts-core/src/CST/CSTNode.ts:23-25 | the target joins the node's call set; adding a target already present changes nothing; children and parents never change |
| Cst.CST.AddRootNode | refDiffTS/packages/refdiffts-core/src/CST/CST.ts:57-59 | the node is appended to the root nodes; nothing else changes |
| Cst.CST.AddTokensForFile | refDiffTS/packages/refdiffts-core/src/CST/CST.ts:61-63 | the file name now maps to a tokenized file holding that name and those tokens, replacing any earlier entry |
| Cst.CSTIterator.constructor | refDiffTS/packages/refdiffts-core/src/CST/CST.ts:9-13 | the walk starts on the root row, at index 0, not done, with nothing yielded |
| Cst.CSTIterator.Next | refDiffTS/packages/refdiffts-core/src/CST/CST.ts:15-41 | once done it stays done and yields nothing; inside a row it yields the next node; at the end of a row it moves to the concatenated children of the row, and it ends when that row is empty; what it has yielded is always a prefix of the breadth-first traversal, and all of it when it ends |
| Cst.CSTIterator.Yield | refDiffTS/packages/refdiffts-core/src/CST/CST.ts:34-40 | yields the node at the row index and advances the index |
| Cst.CSTIterator.Advance | refDiffTS/packages/refdiffts-core/src/CST/CST.ts:23-25 | the row becomes the next row (`getNextRow`) and the index restarts at 0 |
| Cst.CSTIterator.YieldedSoFar | refDiffTS/packages/refdiffts-core/src/CST/CST.ts:15-41 | in a well-formed forest, the nodes yielded so far are a prefix of the traversal |
| Cst.CSTIterator.EndOfIteration | refDiffTS/packages/refdiffts-core/src/CST/CST.ts:16-32 | in a well-formed forest, a finished walk has yielded the whole traversal |
| Cst.NextRow | refDiffTS/packages/refdiffts-core/src/CST/CST.ts:43-45 | `getNextRow` holds exactly the children of the nodes of the row |
| Cst.NextRowMembers | refDiffTS/packages/refdiffts-core/src/CST/CST.ts:43-45 | the next row holds exactly the nodes whose parent is in the current row |
| Cst.NextRowNoDup | refDiffTS/packages/refdiffts-core/src/CST/CST.ts:43-45 | the next row of a row without repeats has no repeats |
| Cst.RowIsDepth | refDiffTS/packages/refdiffts-core/src/CST/CST.ts:23-25 | row `k` holds exactly the nodes at depth `k`, once each |
| Cst.LevelsAreShallowNodes | refDiffTS/packages/refdiffts-core/src/CST/CST.ts:15-45 | the first `k` rows hold exactly the nodes of depth below `k`, once each |
| Cst.TraversalVisitsEachNodeOnce | refDiffTS/packages/refdiffts-core/src/CST/CST.ts:15-45 | in a well-formed forest the traversal visits every node exactly once |
| Cst.RowsEndBeforeArenaSize | refDiffTS/packages/refdiffts-core/src/CST/CST.ts:26-32 | no row beyond the number of nodes is populated, so the walk ends |
| Cst.EmptyRowsStayEmpty | refDiffTS/packages/refdiffts-core/src/CST/CST.ts:16-32 | after an empty row every later row is empty and nothing more is yielded |
| Cst.EmptyRowEndsTraversal | refDiffTS/packages/refdiffts-core/src/CST/CST.ts:26-32 | the rows before the first empty row are the whole traversal |
| Relationships.Ordinal | refDiffTS/packages/refdiffts-core/src/Diff/Relationship.ts:3-20 | every kind has an ordinal below 14, its position in the enumeration |
| Relationships.OrdinalInjective | refDiffTS/packages/refdiffts-core/src/Diff/Relationship.ts:3-20 | distinct kinds have distinct ordinals |
| Relationships.NonMatchingRange | refDiffTS/packages/refdiffts-core/src/Diff/Relationship.ts:13-17 | the ordinal range `extractSuperType..inline` holds exactly the four non-matching kinds |
| Relationships.RangeNeighbours | refDiffTS/packages/refdiffts-core/src/Diff/Relationship.ts:3-20 | `added` and `removed` lie above that range and `same`..`moveAndRename` exactly below it |
| NameSplit.Split | refDiffTS/packages/refdiffts-core/src/Diff/CodeSimiliarity.ts:136-148 | a split name has at least one segment |
| NameSplit.SplitName | refDiffTS/packages/refdiffts-core/src/Diff/CodeSimiliarity.ts:136-148 | the character loop produces the reference split |
| NameSplit.SplitRoundTrip | refDiffTS/packages/refdiffts-core/src/Diff/CodeSimiliarity.ts:136-148 | concatenating the segments gives back the name |
| NameSplit.SplitCount | refDiffTS/packages/refdiffts-core/src/Diff/CodeSimiliarity.ts:139-146 | there is one segment more than there are characters equal to their own upper case (digits, `_` and `.` included) |
| NameSplit.SplitSegments | refDiffTS/packages/refdiffts-core/src/Diff/CodeSimiliarity.ts:139-146 | every segment after the first starts with such a character and contains no other; the first contains none |
| NameSplit.LeadingBoundary | refDiffTS/packages/refdiffts-core/src/Diff/CodeSimiliarity.ts:139-146 | a name starting with such a character splits into a leading empty segment |
| CodeSimilarity.AddSegments | refDiffTS/packages/refdiffts-core/src/Diff/CodeSimiliarity.ts:125-127 | adding the segments one by one tallies them onto the multiset |
| CodeSimilarity.CollectNameTokens | refDiffTS/packages/refdiffts-core/src/Diff/CodeSimiliarity.ts:119-129 | the ancestor loop builds the node's name multiset |
| CodeSimilarity.NameTokenCountsOf | refDiffTS/packages/refdiffts-core/src/Diff/CodeSimiliarity.ts:122-129 | the name multiset is the split of the node's own name, repeated once per level from the node up to its root |
| CodeSimilarity.NameMultisetCounts | refDiffTS/packages/refdiffts-core/src/Diff/CodeSimiliarity.ts:122-129 | each segment's count is the number of levels times its occurrences in the split |
| CodeSimilarity.NameCountsOfSameName | refDiffTS/packages/refdiffts-core/src/Diff/CodeSimiliarity.ts:119-129 | two nodes with the same name at the same depth get the same name multiset |
| TokenScan.AsciiSlice | refDiffTS/packages/refdiffts-core/src/Diff/CodeSimiliarity.ts:95-99 | an in-range slice has one character per byte, each the byte's low seven bits; no slice is longer than the buffer |
| TokenScan.SpanTokensStep | refDiffTS/packages/refdiffts-core/src/Diff/CodeSimiliarity.ts:88-100 | one step of the scan: a token starting before the node is skipped, one ending after the node stops the scan, any other is kept |
| TokenScan.SpanTokensMembers | refDiffTS/packages/refdiffts-core/src/Diff/CodeSimiliarity.ts:88-100 | every scanned token is in the list and lies inside the node's span |
| TokenScan.SpanTokensOfOrdered | refDiffTS/packages/refdiffts-core/src/Diff/CodeSimiliarity.ts:88-94 | when token ends are ordered, the scan keeps exactly the tokens inside the node's span, in list order |
| TokenScan.WordsOfWithin | refDiffTS/packages/refdiffts-core/src/Diff/CodeSimiliarity.ts:101-107 | the words of a filtered token list are a sub-multiset of the words of the list |
| TokenScan.BodyBelowSpan | refDiffTS/packages/refdiffts-core/src/Diff/CodeSimiliarity.ts:101-107 | a node's body multiset is pointwise at most its full-span multiset |
| CodeSimilarity.ScanTokens | refDiffTS/packages/refdiffts-core/src/Diff/CodeSimiliarity.ts:84-108 | the scan loop fills the full-span multiset with the scanned words and, when the node has a body, the body multiset with the scanned words inside the body |
| CodeSimilarity.AddKeys | refDiffTS/packages/refdiffts-core/src/Diff/CodeSimiliarity.ts:110-112 | adding a node's keys raises each of them by exactly one and nothing else |
| CodeSimilarity.AddEachKey | refDiffTS/packages/refdiffts-core/src/Diff/CodeSimiliarity.ts:110-112 | the `forEach` loop adds one for each distinct key of the node |
| CodeSimilarity.DocFreqBounds | refDiffTS/packages/refdiffts-core/src/Diff/CodeSimiliarity.ts:64-71 | a token's tree count is at most the number of nodes, is at least one when present, and is present exactly when some node has the token |
| CodeSimilarity.MaxDocFreqBounded | refDiffTS/packages/refdiffts-core/src/Diff/CodeSimiliarity.ts:43-48 | after combining the trees with `max`, every count lies between 1 and the larger element count |
| CodeSimilarity.CodeSimilarity.AddNode | refDiffTS/packages/refdiffts-core/src/Diff/CodeSimiliarity.ts:74-117 | stores the node's full-span multiset, stores its body multiset only when the body starts after the node, and adds each distinct token once to the tree counts |
| CodeSimilarity.CodeSimilarity.AddNodeName | refDiffTS/packages/refdiffts-core/src/Diff/CodeSimiliarity.ts:119-134 | stores the node's name multiset and adds each distinct name token once to the tree name counts |
| CodeSimilarity.CodeSimilarity.IndexNode | refDiffTS/packages/refdiffts-core/src/Diff/CodeSimiliarity.ts:65-68 | one round of the walk extends the index and the document frequencies by one node |
| CodeSimilarity.CodeSimilarity.AddTree | refDiffTS/packages/refdiffts-core/src/Diff/CodeSimiliarity.ts:58-72 | the walk indexes every node of the traversal, builds the tree's document frequencies, and returns the number of nodes walked |
| CodeSimilarity.CodeSimilarity.IndexTrees | refDiffTS/packages/refdiffts-core/src/Diff/CodeSimiliarity.ts:25-41 | indexes both trees and returns their document frequencies and element counts |
| CodeSimilarity.BuildIdf | refDiffTS/packages/refdiffts-core/src/Diff/CodeSimiliarity.ts:50-55 | the IDF table weighs each combined token by `weigh(elementsCount, count)` |
| CodeSimilarity.WeighTokens | refDiffTS/packages/refdiffts-core/src/Diff/CodeSimiliarity.ts:50-55 | the `forEach` loop sets one weight per token of the combined counts, and each token is listed once; the order of the listing is unconstrained |
| CodeSimilarity.CodeSimilarity.ComputeIdf | refDiffTS/packages/refdiffts-core/src/Diff/CodeSimiliarity.ts:43-55 | the IDF tables come from the `max` of the two trees' counts and the larger element count, and the node maps are unchanged |
| CodeSimilarity.CodeSimilarity.constructor | refDiffTS/packages/refdiffts-core/src/Diff/CodeSimiliarity.ts:13-56 | a new engine has every node of both trees indexed and both IDF tables built |
| CodeSimilarity.CodeSimilarity.NodeIndexed | refDiffTS/packages/refdiffts-core/src/Diff/CodeSimiliarity.ts:58-117 | every node has its full-span and name multisets stored, and a body multiset exactly when it has a body |
| CodeSimilarity.CodeSimilarity.IdfTablesValid | refDiffTS/packages/refdiffts-core/src/Diff/CodeSimiliarity.ts:50-55 | both IDF tables list each token once and have non-negative weights |
| CodeSimilarity.CodeSimilarity.Sim | refDiffTS/packages/refdiffts-core/src/Diff/CodeSimiliarity.ts:150-158 | `sim` is the weighted Jaccard of the two full-span multisets under the token IDF |
| CodeSimilarity.CodeSimilarity.SimOfNodes | refDiffTS/packages/refdiffts-core/src/Diff/CodeSimiliarity.ts:150-158 | `sim` of two nodes never fails, is symmetric and lies in [0, 1] |
| CodeSimilarity.CodeSimilarity.BodySim | refDiffTS/packages/refdiffts-core/src/Diff/CodeSimiliarity.ts:160-168 | `bodySim` is the weighted Jaccard of the two body multisets |
| CodeSimilarity.CodeSimilarity.BodySimOfNodes | refDiffTS/packages/refdiffts-core/src/Diff/CodeSimiliarity.ts:160-168 | `bodySim` fails exactly when a node has no body and the IDF table is not empty; it is symmetric and lies in [0, 1] |
| CodeSimilarity.CodeSimilarity.NameSim | refDiffTS/packages/refdiffts-core/src/Diff/CodeSimiliarity.ts:170-178 | `nameSim` is the weighted Jaccard of the two name multisets under the name IDF |
| CodeSimilarity.CodeSimilarity.NameSimOfNodes | refDiffTS/packages/refdiffts-core/src/Diff/CodeSimiliarity.ts:170-178 | `nameSim` of two nodes never fails, is symmetric and lies in [0, 1] |
| CodeSimilarity.CodeSimilarity.NameSimOfSameName | refDiffTS/packages/refdiffts-core/src/Diff/CodeSimiliarity.ts:170-178 | two nodes with the same name at the same depth score 1, or no score when the denominator is 0 |
| CodeSimilarity.Omitted | refDiffTS/packages/refdiffts-core/src/Diff/CodeSimiliarity.ts:195-202 | the stoplist holds exactly `"return"` and both nodes' parameters |
| CodeSimilarity.SubOf | refDiffTS/packages/refdiffts-core/src/Diff/CodeSimiliarity.ts:207 | a difference of stored multisets fails exactly when the receiver is missing, or the argument is missing and the receiver is not empty |
| CodeSimilarity.ExtractedSimOfProperties | refDiffTS/packages/refdiffts-core/src/Diff/CodeSimiliarity.ts:180-209 | `extractedSim` fails exactly when a parameter list, the extracted body or the before body is missing, or the after body is missing and the before body is not empty; otherwise it lies in [0, 1] |
| CodeSimilarity.CodeSimilarity.ExtractedSim | refDiffTS/packages/refdiffts-core/src/Diff/CodeSimiliarity.ts:180-209 | the query computes the contained coefficient of the stoplisted extracted body against the stoplisted before-minus-after body |
| CodeSimilarity.CodeSimilarity.ExtractedOfNodes | refDiffTS/packages/refdiffts-core/src/Diff/CodeSimiliarity.ts:180-209 | for nodes of the trees, the same failure conditions stated in terms of bodies and parameters, and a score in [0, 1] otherwise |
| CodeSimilarity.InlineSimOfProperties | refDiffTS/packages/refdiffts-core/src/Diff/CodeSimiliarity.ts:211-230 | `inlineSim` fails exactly when the after body is missing, or the before body is missing and the after body is not empty, or the inlined body is missing and the IDF table is not empty; otherwise it lies in [0, 1] |
| CodeSimilarity.CodeSimilarity.InlineSim | refDiffTS/packages/refdiffts-core/src/Diff/CodeSimiliarity.ts:211-230 | the query computes the contained coefficient of the inlined body against the after-minus-before body, with no stoplist |
| CodeSimilarity.CodeSimilarity.InlineOfNodes | refDiffTS/packages/refdiffts-core/src/Diff/CodeSimiliarity.ts:211-230 | for nodes of the trees, the same failure conditions in terms of bodies, and a score in [0, 1] otherwise |
| WeightedJaccard.ScaleMonotone | refDiffTS/packages/refdiffts-core/src/Diff/CodeSimiliarity.ts:242-244 | a count times a non-negative weight is non-negative and grows with the count |
| WeightedJaccard.MinSumBelowCounts | refDiffTS/packages/refdiffts-core/src/Diff/CodeSimiliarity.ts:241-245 | with non-negative weights the numerator is non-negative and at most either multiset's weighted size |
| WeightedJaccard.CountSumBelowMax | refDiffTS/packages/refdiffts-core/src/Diff/CodeSimiliarity.ts:241-245 | a multiset's weighted size is at most the denominator |
| WeightedJaccard.SumsSymmetric | refDiffTS/packages/refdiffts-core/src/Diff/CodeSimiliarity.ts:241-245 | numerator and denominator do not depend on the order of the two multisets |
| WeightedJaccard.SumsOfIdentical | refDiffTS/packages/refdiffts-core/src/Diff/CodeSimiliarity.ts:241-245 | for identical multisets numerator and denominator are both the weighted size |
| WeightedJaccard.RatioOfSelf | refDiffTS/packages/refdiffts-core/src/Diff/CodeSimiliarity.ts:247 | a non-zero sum divided by itself is 1, a zero one gives no score |
| WeightedJaccard.RatioAtMostOne | refDiffTS/packages/refdiffts-core/src/Diff/CodeSimiliarity.ts:247 | a non-negative numerator at most a non-zero denominator gives a ratio in [0, 1] |
| WeightedJaccard.WjcBounded | refDiffTS/packages/refdiffts-core/src/Diff/CodeSimiliarity.ts:233-248 | numerator at most denominator, a zero denominator only with a zero numerator, and any score in [0, 1] |
| WeightedJaccard.WjcSymmetric | refDiffTS/packages/refdiffts-core/src/Diff/CodeSimiliarity.ts:233-248 | the coefficient is symmetric |
| WeightedJaccard.WjcOfIdentical | refDiffTS/packages/refdiffts-core/src/Diff/CodeSimiliarity.ts:233-248 | identical multisets score 1 when the denominator is positive |
| WeightedJaccard.ContainedWjcBounded | refDiffTS/packages/refdiffts-core/src/Diff/CodeSimiliarity.ts:251-265 | contained numerator at most its denominator, and any score in [0, 1] |
| WeightedJaccard.MinSumOfContained | refDiffTS/packages/refdiffts-core/src/Diff/CodeSimiliarity.ts:251-265 | when the first multiset is contained in the second, the numerator is its weighted size |
| WeightedJaccard.ContainedWjcOfContained | refDiffTS/packages/refdiffts-core/src/Diff/CodeSimiliarity.ts:251-265 | a contained multiset scores 1 when its weighted size is positive |
| WeightedJaccard.WjcOfDefined | refDiffTS/packages/refdiffts-core/src/Diff/CodeSimiliarity.ts:233-248 | on stored multisets the coefficient never fails, is symmetric and lies in [0, 1] |
| WeightedJaccard.WjcOfProperties | refDiffTS/packages/refdiffts-core/src/Diff/CodeSimiliarity.ts:233-248 | reading a missing multiset fails exactly when the IDF table is not empty; the result is symmetric and bounded |
| WeightedJaccard.WjcOfSame | refDiffTS/packages/refdiffts-core/src/Diff/CodeSimiliarity.ts:233-248 | a multiset compared with itself scores 1, or no score |
| WeightedJaccard.ContainedWjcOfProperties | refDiffTS/packages/refdiffts-core/src/Diff/CodeSimiliarity.ts:251-265 | the contained coefficient fails exactly when its first multiset is missing and the table is not empty, and is bounded otherwise |
| WeightedJaccard.CalculateWjc | refDiffTS/packages/refdiffts-core/src/Diff/CodeSimiliarity.ts:233-248 | the accumulation loop over the IDF map computes the reference coefficient |
| WeightedJaccard.CalculateContainedWjc | refDiffTS/packages/refdiffts-core/src/Diff/CodeSimiliarity.ts:251-265 | the accumulation loop computes the reference contained coefficient |
| Finder.SameSignature | refDiffTS/packages/refdiffts-core/src/Diff/RelationshipFinder.ts:208-222 | same signature exactly when the local names are equal and the parameter lists are both missing or equal element by element |
| Finder.SameParent | refDiffTS/packages/refdiffts-core/src/Diff/RelationshipFinder.ts:198-206 | a root is only ever paired with a root; two nodes with parents agree exactly when the before-parent is matched to the after-parent; two roots agree exactly when their namespaces do |
| Finder.SameParentGrows | refDiffTS/packages/refdiffts-core/src/Diff/RelationshipFinder.ts:198-206 | two nodes with the same parent keep it as more nodes are matched |
| Finder.Classify | refDiffTS/packages/refdiffts-core/src/Diff/RelationshipFinder.ts:224-250 | a kind is returned exactly when the types agree and either signature and parent agree or the similarity exceeds 0.5; `same` exactly when signature and parent agree; otherwise `move`/`moveAndRename` exactly when the parents differ, and `changeSignature`/`move` exactly when the names agree |
| Finder.ClassificationStays | refDiffTS/packages/refdiffts-core/src/Diff/RelationshipFinder.ts:224-250 | a pair that gets a kind keeps getting one as the match map grows |
| Finder.HitsBounds | refDiffTS/packages/refdiffts-core/src/Diff/RelationshipFinder.ts:116-121 | an unmatched before-child hits no after-child, and no child hits more than the number of after-children |
| Finder.HitsGrow | refDiffTS/packages/refdiffts-core/src/Diff/RelationshipFinder.ts:116-121 | the number of after-children a before-child hits never shrinks as the match map grows |
| Finder.ChildPairsGrow | refDiffTS/packages/refdiffts-core/src/Diff/RelationshipFinder.ts:114-124 | the number of matched child pairs never shrinks as the match map grows |
| Finder.ByChildrenStays | refDiffTS/packages/refdiffts-core/src/Diff/RelationshipFinder.ts:104-107 | a pair that passes the children test keeps passing it as the match map grows |
| Finder.PairedInverse | refDiffTS/packages/refdiffts-core/src/Diff/RelationshipFinder.ts:252-259 | `beforeToAfter` and `afterToBefore` are inverse maps |
| Finder.PairedSnoc | refDiffTS/packages/refdiffts-core/src/Diff/RelationshipFinder.ts:252-259 | matching two unmatched nodes keeps the list and both maps in agreement and only extends the maps |
| Finder.RecordedSnoc | refDiffTS/packages/refdiffts-core/src/Diff/RelationshipFinder.ts:252-259 | appending an unmatched pair keeps every recorded match in both maps and within the trees |
| Finder.PoolRemove | refDiffTS/packages/refdiffts-core/src/Diff/RelationshipFinder.ts:253-257 | a pool without the newly matched node holds no matched node |
| Finder.PoolIsUnmatched | refDiffTS/packages/refdiffts-core/src/Diff/RelationshipFinder.ts:52-72 | a pool that holds no matched node and misses no unmatched one is exactly the set of unmatched nodes |
| Finder.CoveredKept | refDiffTS/packages/refdiffts-core/src/Diff/RelationshipFinder.ts:253-257 | every node stays in its pool or matched when the pool loses only newly matched nodes |
| Finder.CollectNodes | refDiffTS/packages/refdiffts-core/src/Diff/RelationshipFinder.ts:34-39 | the pool holds every node of the tree, in traversal order |
| Finder.NewEngine | refDiffTS/packages/refdiffts-core/src/Diff/RelationshipFinder.ts:32 | the engine is a valid `CodeSimilarity` over the two trees, their files and the IDF weight, and `sim` and `nameSim` are defined for every pair of their nodes |
| Finder.SimDefined | refDiffTS/packages/refdiffts-core/src/Diff/RelationshipFinder.ts:228 | `sim` never fails for a before-node and an after-node of the trees |
| Finder.NameSimDefined | refDiffTS/packages/refdiffts-core/src/Diff/RelationshipFinder.ts:106 | `nameSim` never fails for a before-node and an after-node of the trees |
| Finder.RelationshipFinder.constructor | refDiffTS/packages/refdiffts-core/src/Diff/RelationshipFinder.ts:22-40 | a new finder has no matches, empty maps, every node of each tree in its pool, each pool ordered by the breadth-first traversal of its tree, and a valid engine over the two trees, their files and the IDF weight |
| Finder.RelationshipFinder.AddMatch | refDiffTS/packages/refdiffts-core/src/Diff/RelationshipFinder.ts:252-262 | when both nodes are unmatched, the pair is appended, recorded in both maps and removed from both pools, and the cascade over the children adds only identity pairs; otherwise nothing changes; pools and maps stay in agreement; afterwards the two nodes are not both unmatched, and no identity pair among the children of a new match is left with both nodes unmatched |
| Finder.RelationshipFinder.FindMatchingsById | refDiffTS/packages/refdiffts-core/src/Diff/RelationshipFinder.ts:75-89 | the identity pass only grows the matches and maps and shrinks the pools by the newly matched nodes; every new pair has equal namespace and local name; afterwards no before-node and after-node of the given lists with equal namespace and local name are both still unmatched, and the same holds for the children of every pair it matched (the cascade) |
| Finder.RelationshipFinder.FindMatchingsInRow | refDiffTS/packages/refdiffts-core/src/Diff/RelationshipFinder.ts:80-87 | the inner loop for one before-node: afterwards it, or every after-node of the list with its namespace and local name, is matched |
| Finder.CascadedJoin | refDiffTS/packages/refdiffts-core/src/Diff/RelationshipFinder.ts:252-262 | the cascade guarantee of two successive runs of matches holds for the joined run once the pools have shrunk |
| Finder.SettledRow | refDiffTS/packages/refdiffts-core/src/Diff/RelationshipFinder.ts:79-88 | the outer identity loop extends the settled rows by one before-node |
| Finder.SettledColumn | refDiffTS/packages/refdiffts-core/src/Diff/RelationshipFinder.ts:80-87 | the inner identity loop extends the settled columns by one after-node |
| Finder.RelationshipFinder.KindOf | refDiffTS/packages/refdiffts-core/src/Diff/RelationshipFinder.ts:224-250 | a defined classification of a match is one of the five matching kinds |
| Finder.RelationshipFinder.FindMatchingRelationship | refDiffTS/packages/refdiffts-core/src/Diff/RelationshipFinder.ts:224-250 | the decision table on the two nodes and their `sim`; a kind is returned only when the node types agree |
| Finder.RelationshipFinder.FindMatchingsBySimilarity | refDiffTS/packages/refdiffts-core/src/Diff/RelationshipFinder.ts:91-99 | every pair the pass adds is an identity pair of the cascade or passes the decision table under the final map; afterwards no before-node and after-node still unmatched pass the decision table under the map the pass started from |
| Finder.RelationshipFinder.MatchPass | refDiffTS/packages/refdiffts-core/src/Diff/RelationshipFinder.ts:91-112 | the loops the similarity and children passes share: every new match is an identity pair or passes the pass's test under the final map, and no pair left in both pools passes the test under the starting map |
| Finder.RelationshipFinder.MatchInRow | refDiffTS/packages/refdiffts-core/src/Diff/RelationshipFinder.ts:93-97 | the inner loop for one before-node: unless it gets matched, no after-node left in the pool passes the test with it under the starting map |
| Finder.RelationshipFinder.PassTest | refDiffTS/packages/refdiffts-core/src/Diff/RelationshipFinder.ts:91-112 | the test of a pass accepts a pair exactly when the pair passes the decision table (similarity pass) or the children test (children pass) under the current map |
| Finder.RelationshipFinder.PassStays | refDiffTS/packages/refdiffts-core/src/Diff/RelationshipFinder.ts:91-112 | a pair that passes either pass's test keeps passing it as the match map grows |
| Finder.RelationshipFinder.SoundJoin | refDiffTS/packages/refdiffts-core/src/Diff/RelationshipFinder.ts:91-112 | matches that passed under an earlier map, followed by matches that pass under the current one, all pass under the current one |
| Finder.RelationshipFinder.RejectedEarlier | refDiffTS/packages/refdiffts-core/src/Diff/RelationshipFinder.ts:91-112 | a pair rejected under the current map was rejected under every earlier map |
| Finder.RelationshipFinder.RejectedEverywhere | refDiffTS/packages/refdiffts-core/src/Diff/RelationshipFinder.ts:92-93 | rejection over the whole traversal order of both pools covers every pair of pooled nodes |
| Finder.RelationshipFinder.MatchingsChildren | refDiffTS/packages/refdiffts-core/src/Diff/RelationshipFinder.ts:114-124 | the nested loop counts the (before-child, after-child) pairs the match map links |
| Finder.RelationshipFinder.FindMatchingsByChildren | refDiffTS/packages/refdiffts-core/src/Diff/RelationshipFinder.ts:101-112 | every pair the pass adds is an identity pair of the cascade or has more than one matched child pair and a name similarity above 0.5; afterwards no pair still unmatched passes that test under the map the pass started from |
| Finder.RelationshipFinder.ChildrenTest | refDiffTS/packages/refdiffts-core/src/Diff/RelationshipFinder.ts:104-107 | accepts a pair exactly when more than one child pair is linked and `nameSim` exceeds 0.5 |
| Finder.RelationshipFinder.JustifiedKept | refDiffTS/packages/refdiffts-core/src/Diff/RelationshipFinder.ts:55-57 | a match that passed its pass's test still does as the map grows |
| Finder.RelationshipFinder.FindMatchings | refDiffTS/packages/refdiffts-core/src/Diff/RelationshipFinder.ts:55-57 | after the three passes every node is in its pool or matched and every match passes the test of the identity, similarity or children pass; no pair of unmatched nodes was a missed identity pair of the roots or of a matched pair's children, passed the decision table when the similarity pass ran, or passed the children test when the children pass ran |
| Finder.RelationshipFinder.ExhaustedShrinks | refDiffTS/packages/refdiffts-core/src/Diff/RelationshipFinder.ts:55-72 | the missed-nothing guarantee of the matching passes still holds for smaller pools |
| Finder.RelationshipFinder.ResolveMatching | refDiffTS/packages/refdiffts-core/src/Diff/RelationshipFinder.ts:126-136 | one relationship per match, in match order, carrying the match's classification (possibly none), which is one of the five matching kinds and never `removed`, `added`, an extract or an inline |
| Finder.ResolvedCovers | refDiffTS/packages/refdiffts-core/src/Diff/RelationshipFinder.ts:126-136 | every matched node appears in the resolved relationships |
| Finder.RelationshipFinder.ExtractCandidate | refDiffTS/packages/refdiffts-core/src/Diff/RelationshipFinder.ts:155-172 | the fault is exactly the failure of `extractedSim`, raised when the after-node calls the candidate and the parent test matches the pass; without a fault, a candidate is accepted exactly when it passes those tests and `extractedSim` exceeds 0.5 |
| Finder.RelationshipFinder.ExtractFrom | refDiffTS/packages/refdiffts-core/src/Diff/RelationshipFinder.ts:154-176 | the inner loop reports accepted candidates, each once, and removes exactly them from the pool; it ends without a fault exactly when no candidate of the pool has a failing `extractedSim`, and a fault it returns is one of those failures; without a fault, no after-node left in the pool passes the extract test for the match |
| Finder.RelationshipFinder.ExtractStep | refDiffTS/packages/refdiffts-core/src/Diff/RelationshipFinder.ts:168-174 | reporting one more pooled candidate that passes the test keeps the report sound, each node once, and the pool minus exactly the reported nodes |
| Finder.RelationshipFinder.ExtractFailedGrows | refDiffTS/packages/refdiffts-core/src/Diff/RelationshipFinder.ts:146-178 | a failing `extractedSim` over a pool is also one over any larger pool |
| Finder.RelationshipFinder.ExtractAll | refDiffTS/packages/refdiffts-core/src/Diff/RelationshipFinder.ts:153-177 | the outer loop over the matches does the same over all matched pairs; without a fault, no after-node left in the pool passes the extract test for any match and no score it computed failed; a fault it returns is the failing `extractedSim` of some match and some node of the starting pool |
| Finder.RelationshipFinder.ExtractRound | refDiffTS/packages/refdiffts-core/src/Diff/RelationshipFinder.ts:153-177 | one more match's inner loop extends the no-candidate-left guarantee to that match |
| Finder.RelationshipFinder.FindExtractedRelationships | refDiffTS/packages/refdiffts-core/src/Diff/RelationshipFinder.ts:146-178 | every reported node was an unmatched after-node called by its match and passing the score test; it is reported once and leaves the after pool; matches and maps are unchanged; without a fault, no after-node left unmatched passes the test for any match; a fault is the failing `extractedSim` of some match and some node unmatched on entry |
| Finder.RelationshipFinder.FindExtractions | refDiffTS/packages/refdiffts-core/src/Diff/RelationshipFinder.ts:138-144 | the extract and extract-and-move sweeps together report only justified relationships, extracts before extract-and-moves, each after-node once, and leave no candidate of either kind in the after pool when no score fails; a fault is a failing `extractedSim` of one of the two sweeps over the nodes unmatched on entry |
| Finder.RelationshipFinder.ExtractionsJoin | refDiffTS/packages/refdiffts-core/src/Diff/RelationshipFinder.ts:138-141 | the extract sweep followed by the extract-and-move sweep: the after pool loses exactly the reported nodes, each justified by one of the two tests, sorted by kind, each after-node once |
| Finder.ExtractsThenMoves | refDiffTS/packages/refdiffts-core/src/Diff/RelationshipFinder.ts:138-141 | extract relationships followed by extract-and-move ones are sorted by kind |
| Finder.DistinctConcat | refDiffTS/packages/refdiffts-core/src/Diff/RelationshipFinder.ts:173-174 | relationships from different matches never report the same extracted node twice |
| Finder.RelationshipFinder.InlinedOfSound | refDiffTS/packages/refdiffts-core/src/Diff/RelationshipFinder.ts:182-194 | each relationship of the inner loop reports the node as inlined into a matched after-node whose before-node calls it with an inline score above 0.5 |
| Finder.RelationshipFinder.InlinedOfComplete | refDiffTS/packages/refdiffts-core/src/Diff/RelationshipFinder.ts:182-194 | every match that inlines the node gets a relationship |
| Finder.RelationshipFinder.InlinedOfNodes | refDiffTS/packages/refdiffts-core/src/Diff/RelationshipFinder.ts:182-194 | the inner loop reports only the node itself as a before-node |
| Finder.RelationshipFinder.InlineInto | refDiffTS/packages/refdiffts-core/src/Diff/RelationshipFinder.ts:182-194 | without a fault, the inner loop over the matches reports exactly the reference relationships; it ends without a fault exactly when no match's `inlineSim` for the node fails, and a fault it returns is one of those failures |
| Finder.RelationshipFinder.InlineAll | refDiffTS/packages/refdiffts-core/src/Diff/RelationshipFinder.ts:181-195 | the outer loop removes exactly the reported nodes from the pool and reports only true inlinings; it ends without a fault exactly when no `inlineSim` of a match and a pooled node fails, and then reports every inlining, so no node left in the pool is inlined by any match; a fault is one of those failures |
| Finder.RelationshipFinder.InlineRound | refDiffTS/packages/refdiffts-core/src/Diff/RelationshipFinder.ts:182-194 | one more before-node of the traversal keeps the sweep sound and reports every inlining of that node |
| Finder.RelationshipFinder.InlineDone | refDiffTS/packages/refdiffts-core/src/Diff/RelationshipFinder.ts:181-195 | after the whole traversal, every inlining of a pooled node is reported and no node left in the pool is inlined by any match |
| Finder.RelationshipFinder.FindInlinedRelationships | refDiffTS/packages/refdiffts-core/src/Diff/RelationshipFinder.ts:180-196 | only inlinings are reported and the reported nodes leave the before pool; the sweep ends without a fault exactly when no `inlineSim` of a match and a node unmatched on entry fails, and then every inlining of such a node is reported; a fault is one of those failures |
| Finder.RelationshipFinder.FindNonMatchingRelationships | refDiffTS/packages/refdiffts-core/src/Diff/RelationshipFinder.ts:138-144 | the three sweeps report only extract, extract-and-move and inline relationships that pass their tests, in that kind order, each extracted node once, and the pools lose exactly the reported nodes; without a fault, every inlining of a node unmatched on entry is reported and no leftover node is a missed extraction or inlining; a fault is a failing score of one of the three sweeps over the nodes unmatched on entry |
| Finder.RelationshipFinder.NonMatchingJoin | refDiffTS/packages/refdiffts-core/src/Diff/RelationshipFinder.ts:138-144 | justified extractions followed by justified inlinings on other after-nodes are sound: kind-sorted, each extracted node once |
| Finder.ExtractsThenInlines | refDiffTS/packages/refdiffts-core/src/Diff/RelationshipFinder.ts:138-144 | sorted extractions with distinct after-nodes followed by inlinings on other after-nodes stay sorted and report each extracted node once |
| Finder.RelationshipFinder.FailedNotClean | refDiffTS/packages/refdiffts-core/src/Diff/RelationshipFinder.ts:138-144 | a failing score of the sweeps rules out a run in which none fails |
| Finder.KindSortedConcat | refDiffTS/packages/refdiffts-core/src/Diff/RelationshipFinder.ts:138-144 | appending relationships of a later kind keeps the report sorted by kind |
| Finder.ExtractedOnceConcat | refDiffTS/packages/refdiffts-core/src/Diff/RelationshipFinder.ts:138-144 | appending inline relationships for fresh after-nodes keeps every extracted node reported once |
| Finder.ReportRemoved | refDiffTS/packages/refdiffts-core/src/Diff/RelationshipFinder.ts:61-65 | the relationships are exactly one `removed` relationship per node of the before pool, in the pool's traversal order, and only those |
| Finder.InPoolMembers | refDiffTS/packages/refdiffts-core/src/Diff/RelationshipFinder.ts:61-70 | the visiting order of a pool holds each pooled node once and nothing else |
| Finder.RemovedOfNodes | refDiffTS/packages/refdiffts-core/src/Diff/RelationshipFinder.ts:61-65 | one `removed` relationship per node of a sequence mentions exactly those nodes |
| Finder.AddedOfNodes | refDiffTS/packages/refdiffts-core/src/Diff/RelationshipFinder.ts:66-70 | one `added` relationship per node of a sequence mentions exactly those nodes |
| Finder.ReportAdded | refDiffTS/packages/refdiffts-core/src/Diff/RelationshipFinder.ts:66-70 | the relationships are exactly one `added` relationship per node of the after pool, in the pool's traversal order, and only those |
| Finder.LeftoversUnmatched | refDiffTS/packages/refdiffts-core/src/Diff/RelationshipFinder.ts:61-70 | every reported relationship has a side; the `removed` nodes are exactly the before pool and the `added` nodes exactly the after pool, all unmatched; no extracted or inlined node is reported `removed` or `added` |
| Finder.RelationshipFinder.ReportUnmatched | refDiffTS/packages/refdiffts-core/src/Diff/RelationshipFinder.ts:59-70 | on success the result is the non-matching relationships, then one `removed` per node left in the before pool and one `added` per node left in the after pool, in traversal order; it holds every inlining of a node pooled on entry, covers every node pooled on entry, and no missed extraction or inlining remains among the leftovers; a Failure is a failing score of one of the sweeps, and when none of their scores fails there is no Failure; every relationship has a side |
| Finder.RelationshipFinder.LeftoversReported | refDiffTS/packages/refdiffts-core/src/Diff/RelationshipFinder.ts:59-70 | the non-matching relationships followed by the `removed` and `added` ones report the leftovers exactly and completely |
| Finder.RelationshipFinder.LeftoversAfterResolved | refDiffTS/packages/refdiffts-core/src/Diff/RelationshipFinder.ts:58-70 | putting the resolved matches in front changes none of those leftover facts |
| Finder.AllReported | refDiffTS/packages/refdiffts-core/src/Diff/RelationshipFinder.ts:52-72 | a node that is matched or still in its pool ends up in the report |
| Finder.RelationshipFinder.ReportAll | refDiffTS/packages/refdiffts-core/src/Diff/RelationshipFinder.ts:58-72 | on success the report is the classified matches in match order, then the non-matching relationships, then the `removed` and `added` leftovers in traversal order; it covers every node, and no pair of its `removed` and `added` nodes was missed by a matching pass; a Failure is a failing score of a sweep over the unmatched nodes, and when no such score fails the result is a success; matches and maps are kept |
| Finder.RelationshipFinder.ReportedJoin | refDiffTS/packages/refdiffts-core/src/Diff/RelationshipFinder.ts:58-72 | the classified matches in front of what a successful `ReportUnmatched` returns form the full report, and the missed-nothing guarantee of the matching passes holds for its `removed` and `added` nodes |
| Finder.RelationshipFinder.ReportCovers | refDiffTS/packages/refdiffts-core/src/Diff/RelationshipFinder.ts:58-72 | the resolved matches and the leftover relationships together mention every node of both trees |
| Finder.ReportSides | refDiffTS/packages/refdiffts-core/src/Diff/RelationshipFinder.ts:58-72 | every relationship of the report has a side, and no `removed` or `added` node is matched |
| Finder.RelationshipFinder.FindRelationships | refDiffTS/packages/refdiffts-core/src/Diff/RelationshipFinder.ts:52-73 | on success: every node of both trees appears in the result; the result is one relationship per match in match order, then the sound extract, extract-and-move and inline relationships in kind order, then the `removed` and `added` nodes, which are exactly the nodes left unmatched, in traversal order; every relationship has a side; every match passed its pass's test; no leftover pair was missed by a matching pass, and no leftover node is a missed extraction or inlining. A Failure carries a failing score of the three sweeps over the nodes left unmatched, and when none of those scores fails the result is a success |
| Finder.FindRelationships | refDiffTS/packages/refdiffts-core/src/Diff/RelationshipFinder.ts:42-50 | for any two well-formed trees, the finder is built over them, their files and the IDF weight, with traversal-ordered pools; on success the result is what the finder's `findRelationships` promises (every node covered, matches first, then the non-matching, removed and added relationships); a Failure carries a failing score of the sweeps, and when none fails the result is a success |

## Left out

- The language front end, the editor extension, git access and the evaluation script: the trees, token lists and file contents are inputs.
- `Math.log`: the IDF weight is a caller-supplied function `weigh(elementsCount, count)`, assumed non-negative for `1 <= count <= elementsCount`.
- Floating point: scores are exact reals. A zero denominator gives `NoScore` in place of NaN.
- Exceptions: a read of a missing multiset or parameter list is a `Fault` result. On a fault, the model does not say what the partly updated pools, or the relationships gathered before the throw, contain. `InlineAll` also drops the node's partial additions on a fault.
- `CodeSimilarity.CodeSimilarity.constructor`: requires every node's file to be tokenized, with its contents present whenever the node spans a token. The source throws on a missing file, and that crash is not modelled.
- `Finder.RelationshipFinder.constructor`: requires well-formed trees, meaning parents precede children and parent and child links agree. This is what the front end builds. On other inputs the depth function stops at a bad link instead of looping.
- `NameSplit.Split`: a character starts a segment when it is not an ASCII lower-case letter. The source compares with `toUpperCase()`, which differs for non-ASCII letters. Names are sequences of Unicode scalar values, not UTF-16 code units.
- `TokenScan.AsciiSlice`: models Node's `Buffer.toString('ascii')` with clamped offsets and the low seven bits of each byte.
- Iteration order: JavaScript `Map` and `Set` insertion order is represented by sequences, namely the match list and the traversal order of each pool. The multiset's own key order is not represented; it only feeds order-independent sums and key insertions.
- `CodeSimilarity.WeighTokens`: the IDF table's key order is not the insertion order of the `max` map; the model picks the tokens in an unspecified order. The order only affects the summation order of floating-point sums, which are exact reals here.
- Helper splits: several source methods are modelled by a method plus helper methods on local copies of a pool. Examples are `ExtractAll`/`ExtractFrom`/`ExtractCandidate`, `InlineAll`/`InlineInto` and `FindMatchings`/`ReportAll`. The similarity and children passes are the same two nested loops with a different test, so both call `MatchPass` with the test as a parameter. The caller then assigns the pool field; the net effect is the same as the in-place deletions.
- `Finder.FindRelationships`: states the success report through the finder it builds; the justification of each match and the missed-nothing guarantee of the matching passes are stated on `Finder.RelationshipFinder.FindRelationships`.
- The inline pass, as written, keeps scanning matches after it deletes a node from the pool. A node can therefore be reported as inlined into several after-nodes, and the model reports it that way.
- The name multiset repeats the split of the node's own local name once per ancestor level, as the loop at `CodeSimiliarity.ts:124-128` does.
