# Verification of pdfdelta's evidence, matching and protocol algorithms

A Dafny model of the algorithms in pdfdelta whose claims reach beyond what examples can
settle, most of them in its benchmark crate: statements about every optimal alignment,
every matching, every cheapest assignment, every way of cutting a stream, every
interleaving and every crash. Each
algorithm keeps the form of its source (loops over arrays and sequences stay loops,
objects stay classes, protocols are step systems), and each is proved against a
declarative definition that does not mention the algorithm.

| file | what it holds |
|---|---|
| `Basics`, `Sorting`, `OrderStatistics` | optional values and results, half-open ranges, saturating arithmetic, sorting, percentiles |
| `Alignment`, `LcsTables`, `RegionBounds`, `EditEvidence`, `StructureProbe` | the LCS evidence engine against alignments (increasing lists of equal-character pairs; optimal means longest) |
| `RoleAnchors` | locating and merging named members, and masks refined between anchors |
| `Matching`, `Generalization` | augmenting-path matching, and the scores built on it |
| `Scores`, `AssignmentProblem`, `AssignmentSearch`, `AssignmentBounds`, `AssignmentRun` | cheapest partial assignments under lexicographic scores, found with prices, how large these get, and what all cheapest assignments contain |
| `Spans` | interval merging, intersection, overlap ratios and the choice among expected variants |
| `BlockWalk`, `CanonicalSource`, `BlockSpans` | tiling a source with blocks, the two walks that look for a tiling, projection of group spans |
| `IntervalChain` | the patience scan for the longest chain of line intervals |
| `Compactor`, `CompactMeaning`, `CompactReport`, `FeedPoints`, `CompactRun`, `CutExample` | the streaming compactor against a whole-text reference, what its scans find said of lines, and when the cut into reads shows |
| `Publication`, `PublicationProgress`, `Prune` | concurrent publication, its safety and its progress, and crash-resumable pruning as step systems |
| `CandidateVisits` | visit quantiles, posting totals and their summary |
| `Utf8`, `LiteralSelectors`, `SelectorSources` | bytes against characters, quotes located within work budgets, and their source atoms |
| `Provenance` | the split-contamination validator |

## Conventions

- Text is a sequence of characters; where bytes matter it is a sequence of Unicode
  scalars encoded as sections 3 and 4 of RFC 3629 say.
- Integers are unbounded. Saturating sums, the limits on work, memory and counts, and the
  checked steps that can fail are written out, and the contracts say when none of them
  shows. Left implicit are checked sums and products that cannot exceed the length of a
  text in memory (the block walks, projected spans) and the two checked size
  computations of the LCS tables, which an exact comparison with the memory limit covers.
- Ratios are exact (`real` or whole numbers), digests are carried as the digested
  content, and hash maps are read in any order.
- A library call with a documented result is written out as a function or a small loop
  (sorting, `partition_point`, `starts_with`).
- `hide` statements only keep definitions away from proofs that do not need them.

## Results that came out negative

- Publication keeps a present destination whole and fixed exactly when no destination
  lies where a publisher makes its temporary files (`Publication.StandsExactlyWhenApart`).
- Pruning is crash-safe, and every rerun passes its checks and completes, exactly when no
  original lies where a compact copy lies (`Prune.SafeExactlyWhenSeparate`,
  `Prune.CompletesExactlyWhenSeparate`; a capture that passes all checks at first and is
  refused for good after the removal: `Prune.OneFileForBoth`).
- Intersection over union reaches 1 for equal spans only while twice their length fits
  a `usize`; beyond that the union saturates (`Spans.IouOne`).
- Both block walks prefer no gap over a gap. For nonempty texts they find a tiling of every
  source that has one exactly when every text after the first holds something else than
  spaces (`BlockWalk.NeverMissesExactlyWhenNonblank`; instances
  `CanonicalSource.BlankBlockMissed` and `BlockSpans.SpaceTextMissed`).
- A report may compact when read at once and be refused when read in two chunks
  (`CutExample.CutMatters`), and in reads of one fixed size it is refused whenever a line
  of an item is longer than the sample bound and one read together: from 2 MiB on for the
  program's 64 KiB and 1 MiB (`CutExample.PiecesRefuse`). A report's result is the same for every cut exactly when it
  fails anyway or no array it reaches holds a line over the sample bound before its last
  bytes (`FeedPoints.CutNeverMatters`, `FeedPoints.CutNeverMattersByLines`).
- Of named members with distinct identities every common one is paired exactly when the
  common ones come in the same order on both sides (`RoleAnchors.MergeFunctionMembers`).

## Model

| member | source | states |
|---|---|---|
| Alignment.PrefixUpper | crates/pdfdelta-bench/examples/structure_claim_probe.rs:260-279 | no alignment of two prefixes is longer than the forward recurrence, for every pair of prefixes |
| Alignment.PrefixWitness | crates/pdfdelta-bench/examples/structure_claim_probe.rs:260-279 | some alignment of the prefixes is exactly that long |
| Alignment.SuffixUpper | crates/pdfdelta-bench/examples/structure_claim_probe.rs:281-299 | the same upper bound for every pair of suffixes |
| Alignment.SuffixWitness | crates/pdfdelta-bench/examples/structure_claim_probe.rs:281-299 | and its attainment |
| Alignment.OptimalLength | crates/pdfdelta-bench/examples/structure_claim_probe.rs:233-308 | an alignment is optimal exactly when it has the length the tables report |
| Alignment.ThroughPair | crates/pdfdelta-bench/examples/structure_claim_probe.rs:310-328 | forward + 1 + reverse through a pair of equal characters reaches the LCS exactly when some optimal alignment contains that pair |
| Alignment.AroundColumn | crates/pdfdelta-bench/examples/structure_claim_probe.rs:330-359 | some split of the old text reaches the LCS around a new position exactly when some optimal alignment leaves the position unmatched |
| LcsTables.New | crates/pdfdelta-bench/examples/structure_claim_probe.rs:233-308 | building fails on the length and memory guards alone, and otherwise both in-place tables hold the LCS of every prefix pair and every suffix pair |
| LcsTables.ForwardRow | crates/pdfdelta-bench/examples/structure_claim_probe.rs:260-279 | one row of the forward table from the exact row above it, all other rows kept; the checked increment never overflows |
| LcsTables.ReverseRow | crates/pdfdelta-bench/examples/structure_claim_probe.rs:281-299 | the same for the reverse table |
| LcsTables.MandatoryChanged | crates/pdfdelta-bench/examples/structure_claim_probe.rs:310-328 | a position of either side is flagged exactly when no optimal alignment matches it |
| LcsTables.KeptNewByPair | crates/pdfdelta-bench/examples/structure_claim_probe.rs:310-328 | a new position is matched by some optimal alignment exactly when one of its pairs passes the table test |
| LcsTables.PositionStateMeaning | crates/pdfdelta-bench/examples/structure_claim_probe.rs:330-359 | the three states mean never, always and sometimes matched over all optimal alignments; only a position past the end fails |
| RegionBounds.CellBounds | crates/pdfdelta-bench/examples/structure_claim_probe.rs:204-214 | a DP cell's bounds enclose the number of range positions matched by every longest alignment of its prefixes |
| RegionBounds.CellAttained | crates/pdfdelta-bench/examples/structure_claim_probe.rs:204-214 | both bounds of every cell are attained by longest alignments |
| RegionBounds.SelectedAndInserted | crates/pdfdelta-bench/examples/structure_claim_probe.rs:361-413 | matched and unmatched positions of the range add up to its length for every alignment |
| RegionBounds.AdvanceRow | crates/pdfdelta-bench/examples/structure_claim_probe.rs:361-413 | the row overwritten in place becomes the next row of the DP |
| RegionBounds.RegionInsertBounds | crates/pdfdelta-bench/examples/structure_claim_probe.rs:361-413 | returns exactly the minimum and maximum insertions over all optimal alignments, both attained; the disagreement, overflow and underflow errors are unreachable |
| EditEvidence.WitnessIsAlignment | crates/pdfdelta-bench/examples/structure_claim_probe.rs:450-456 | kept texts agree exactly when the masks are the complement of some alignment |
| EditEvidence.WitnessCost | crates/pdfdelta-bench/examples/structure_claim_probe.rs:477-545 | a valid mask pair costs at least the optimum, and exactly the optimum only for an optimal alignment |
| EditEvidence.MandatoryInside | crates/pdfdelta-bench/examples/structure_claim_probe.rs:563-587 | every optimal alignment matches only positions outside the mandatory mask, so the mask costs at most the optimum, and exactly the optimum only when it is that alignment's complement |
| EditEvidence.AgreementIsMinimal | crates/pdfdelta-bench/examples/structure_claim_probe.rs:563-587 | when all optimal alignments keep the same positions the mandatory mask is the complement of each of them, at the optimal cost |
| EditEvidence.MandatoryEquivalence | crates/pdfdelta-bench/examples/structure_claim_probe.rs:563-608 | kept texts agree, changed count equals optimal cost, and all optimal alignments keep the same positions are equivalent |
| StructureProbe.CostIsExact | crates/pdfdelta-bench/examples/structure_claim_probe.rs:553-561 | under the table guard the checked cost never fails and is the optimal edit cost |
| StructureProbe.LiteralMandatoryEvidence | crates/pdfdelta-bench/examples/structure_claim_probe.rs:589-606 | fails on the memory guard alone; the witness is complete exactly when all optimal alignments agree, a complete witness is minimal |
| StructureProbe.RangeMask | crates/pdfdelta-bench/examples/structure_claim_probe.rs:435-448 | accepts exactly sorted disjoint ranges inside the text and flags exactly the covered positions |
| StructureProbe.MaskRanges | crates/pdfdelta-bench/examples/structure_claim_probe.rs:704-727 | lists maximal runs that cover exactly the flagged positions |
| StructureProbe.RunsUnique | crates/pdfdelta-bench/examples/structure_claim_probe.rs:704-727 | two run lists covering the same positions are equal, so mask and ranges round-trip |
| StructureProbe.MaskFacts | crates/pdfdelta-bench/examples/structure_claim_probe.rs:477-545 | an annotated mask is valid exactly when some alignment has it as complement, in the solution set exactly when an optimal one has; for valid masks the distance to the optimum does not saturate; both changed counts and the kept pairs are the numbers of positions that each side's ranges cover or leave |
| StructureProbe.ProveDomain | crates/pdfdelta-bench/examples/structure_claim_probe.rs:939-974 | counts of never and always matched positions are exact, the three counts partition the range, and certain <= min <= max <= certain + ambiguous |
| RoleAnchors.FindUniqueCaseFolded | crates/pdfdelta-bench/examples/structure_claim_probe.rs:1227-1253 | returns the one case-folded occurrence or shows there are none or two |
| RoleAnchors.OccursMeans | crates/pdfdelta-bench/examples/structure_claim_probe.rs:1228-1244 | a name occurs where every character is its own or the other case of the same one of the 26 letters |
| RoleAnchors.LocateFunctionMembers | crates/pdfdelta-bench/examples/structure_claim_probe.rs:1255-1270 | succeeds exactly when every name occurs once and the occurrences come in list order |
| RoleAnchors.MergeFunctionMembers | crates/pdfdelta-bench/examples/structure_claim_probe.rs:1272-1337 | the anchors use every member of both sides once, in order, and pair only equal identities; of distinct identities all common ones are paired exactly when these come in the same order on both sides |
| RoleAnchors.PairsNeedOrder | crates/pdfdelta-bench/examples/structure_claim_probe.rs:1272-1337 | anchors that keep both orders can pair every common identity only when the two orders agree |
| RoleAnchors.MergedIsWalkable | crates/pdfdelta-bench/examples/structure_claim_probe.rs:1272-1337 | anchors merged from ordered members can always be walked, so the segmented mask fails on the memory guard alone |
| RoleAnchors.RefineSegment | crates/pdfdelta-bench/examples/structure_claim_probe.rs:610-634 | writes the mandatory masks of one segment in place and leaves the rest of both masks |
| RoleAnchors.OneSidedMask | crates/pdfdelta-bench/examples/structure_claim_probe.rs:636-642 | marking a one-sided anchor writes what refining it against nothing would |
| RoleAnchors.SegmentsTile | crates/pdfdelta-bench/examples/structure_claim_probe.rs:644-702 | the segments of walkable anchors tile both texts, so each position is written once |
| RoleAnchors.DerivedMaskForAnchors | crates/pdfdelta-bench/examples/structure_claim_probe.rs:644-702 | succeeds exactly when the anchors walk and every segment fits the guard, and returns the segments' mandatory masks end to end |
| RoleAnchors.LcsSuperadditive | crates/pdfdelta-bench/examples/structure_claim_probe.rs:644-702 | the LCS of two concatenations is at least the sum of the parts' |
| RoleAnchors.SegmentCostsCoverOptimum | crates/pdfdelta-bench/examples/structure_claim_probe.rs:644-702 | segment costs add up to at least the global optimum |
| RoleAnchors.SegmentedEvidence | crates/pdfdelta-bench/examples/structure_claim_probe.rs:644-702 | the segmented mask costs at most the segment costs, with equality exactly when every segment is complete, and then it is a complete witness of the whole |
| Matching.MaximumCardinalityMatching | crates/pdfdelta-bench/src/evaluator.rs:697-748 | for every edge list the count is the size of a largest matching on rights below the bound; both loops end and the parent lookup never fails |
| Matching.Search | crates/pdfdelta-bench/src/evaluator.rs:703-730 | the breadth-first search ends with a free right at the end of an alternating path, or with a visited set that blocks the root |
| Matching.Flip | crates/pdfdelta-bench/src/evaluator.rs:732-744 | flipping the path in both arrays keeps them mutually inverse along real edges and matches exactly one more left |
| Matching.MatchRoot | crates/pdfdelta-bench/src/evaluator.rs:702-746 | one turn of the root loop keeps the matching maximum among the lefts seen so far |
| Matching.BlockedStaysMaximum | crates/pdfdelta-bench/src/evaluator.rs:702-730 | a blocked root leaves the matching maximum with the root included |
| Matching.TradedMatches | crates/pdfdelta-bench/src/evaluator.rs:702-730 | any rival matching can trade its edges inside a blocked set for the current ones |
| Matching.TradedCount | crates/pdfdelta-bench/src/evaluator.rs:702-730 | that trade loses no edge, because the blocked set has one right fewer than lefts |
| Matching.AugmentedIsMaximum | crates/pdfdelta-bench/src/evaluator.rs:732-746 | one more matched left is maximum with the root included |
| Matching.MatchingNumberMeaning | crates/pdfdelta-bench/src/evaluator.rs:697-748 | the matching number is unique, attained, and bounds every matching |
| Scores.ValueOrders | crates/pdfdelta-core/src/document/matching/assignment.rs:12-34 | read as numbers in a large base, scores compare as they do class by class |
| Scores.CheckedMeans | crates/pdfdelta-core/src/document/matching/assignment.rs:19-34 | a checked sum or difference fails exactly when some class of it is not a 128-bit integer, and is exact otherwise |
| AssignmentProblem.RowsOnce | crates/pdfdelta-core/src/document/matching/assignment.rs:139-219 | when every row has one column the rows' prices count once each, whichever columns these are |
| AssignmentProblem.PricesDecide | crates/pdfdelta-core/src/document/matching/assignment.rs:139-219 | at fair prices, never positive for a column and nothing for a free one, no way to give every row a column costs less than one along tight edges |
| AssignmentProblem.PricedIsCheapest | crates/pdfdelta-core/src/document/matching/assignment.rs:139-219 | the real columns so assigned are a cheapest partial assignment in the lexicographic order, dummies standing for rows left out |
| AssignmentSearch.EnterOne | crates/pdfdelta-core/src/document/matching/assignment.rs:164-199 | entering a column keeps the tree rooted and tells every column outside its exact distance from it |
| AssignmentSearch.DeltaNotNegative | crates/pdfdelta-core/src/document/matching/assignment.rs:200-210 | after the first step prices of the tree never move down, although edge costs may be negative |
| AssignmentSearch.MoveOn | crates/pdfdelta-core/src/document/matching/assignment.rs:200-211 | moving the prices by the nearest distance keeps all prices fair and all matched and tree edges tight, and makes the nearest column's edge tight |
| AssignmentSearch.TreeIsSmall | crates/pdfdelta-core/src/document/matching/assignment.rs:164-215 | a search enters no more columns than there are rows so far |
| AssignmentSearch.SomeColumnReached | crates/pdfdelta-core/src/document/matching/assignment.rs:200 | there is always a next column, because one dummy column is free |
| AssignmentSearch.ShiftOne | crates/pdfdelta-core/src/document/matching/assignment.rs:216-221 | one step back along the path keeps every row in exactly one column and every edge tight |
| AssignmentSearch.ShiftEnds | crates/pdfdelta-core/src/document/matching/assignment.rs:216-221 | back at the start the new row is assigned at fair prices as well |
| AssignmentBounds.TreeNearRoot | crates/pdfdelta-core/src/document/matching/assignment.rs:164-215 | in each class the prices of the i-th column entered and of its row are at most 2 * i costs away from the root's |
| AssignmentBounds.AllPricesFit | crates/pdfdelta-core/src/document/matching/assignment.rs:139-215 | whenever a column stands at the door no price but column 0's exceeds twice 4 * (rows + 1) costs, and once it is a free one not even once that: no bound grows from row to row |
| AssignmentBounds.EnteredFits | crates/pdfdelta-core/src/document/matching/assignment.rs:176-205 | with the column entered every price, every distance and the price of column 0 are within four times that |
| AssignmentBounds.FirstColumnIsCost | crates/pdfdelta-core/src/document/matching/assignment.rs:203-207 | the price of column 0, which moves in every search, is what the assigned columns cost together, negated |
| AssignmentBounds.WeightsAreTame | crates/pdfdelta-core/src/document/matching/assignment.rs:37-44 | costs from weights of 32 bits leave room for every sum and difference of a solve, with any number of rows a machine can hold |
| AssignmentRun.Relax | crates/pdfdelta-core/src/document/matching/assignment.rs:161-199 | one pass over the columns updates all distances and finds a nearest column, the budget charged once for each; nothing overflows while the search is steady |
| AssignmentRun.Move | crates/pdfdelta-core/src/document/matching/assignment.rs:200-210 | one pass over the columns moves every price of the tree and every distance by delta, the budget charged once for each; nothing overflows while the values are within their bounds |
| AssignmentRun.Grow | crates/pdfdelta-core/src/document/matching/assignment.rs:161-215 | the search ends at a free column, its work exactly a multiple of the columns entered; a steady search stays steady and never overflows |
| AssignmentRun.Augment | crates/pdfdelta-core/src/document/matching/assignment.rs:216-221 | the rows move along the path and one more row is priced |
| AssignmentRun.OnceIsSafe | crates/pdfdelta-core/src/document/matching/assignment.rs:161-211 | entering a column and moving the prices keeps a search steady, and every value the move touches is within its bound |
| AssignmentRun.FindOptimum | crates/pdfdelta-core/src/document/matching/assignment.rs:139-245 | whatever is forbidden, the solve returns the cost and proposals of a cheapest partial assignment, or is cut short by an overflow or for want of work that a stated bound would cover; it never overflows when the sizes fit and 32 * (rows + 1) times the largest component of a cost is below 2^127; the two lookups that could fail never do |
| AssignmentRun.PricedOut | crates/pdfdelta-core/src/document/matching/assignment.rs:267-273 | a cheapest assignment without a proposal never costs less, and costs more exactly when every cheapest assignment takes the proposal up |
| AssignmentRun.Certificate | crates/pdfdelta-core/src/document/matching/assignment.rs:264-278 | the sorted list returned holds exactly the proposals of every cheapest assignment; the comparison that would refute the first solve never fires, nor does an overflow where the costs leave room |
| AssignmentRun.SolveComponent | crates/pdfdelta-core/src/document/matching/assignment.rs:249-285 | a component is reported exhaustive with exactly those proposals, or not exhaustive with none; where the sizes fit and the costs leave room it is exhaustive with any work limit from a stated bound on |
| Generalization.Score | crates/pdfdelta-bench/src/generalization.rs:470-514 | fails exactly when the true, unsaturated work passes the limit; true and false positives partition the observed facts, true positives and false negatives the expected ones |
| Generalization.PerfectScore | crates/pdfdelta-bench/src/generalization.rs:197-203 | no false positive and no false negative exactly when an acceptance-respecting bijection exists |
| Generalization.ScopedScore | crates/pdfdelta-bench/src/generalization.rs:141-165 | for expected facts scoped on both sides the true positives are the size of the multiset intersection |
| Generalization.AcceptsMeans | crates/pdfdelta-bench/src/generalization.rs:141-165 | an expected fact accepts an observed one exactly when some way to fill in its absent scopes makes them equal |
| Generalization.ScopedMeans | crates/pdfdelta-bench/src/generalization.rs:141-165 | the expected facts scoped on both sides are those that accept nothing but themselves |
| Generalization.ScoreAlternatives | crates/pdfdelta-bench/src/generalization.rs:422-446 | every alternative is scored against direct and inferred reports out of one budget, which fails exactly when the total work exceeds it |
| Generalization.ExactMeans | crates/pdfdelta-bench/src/generalization.rs:240-257 | exact means a complete comparison in which each annotated dimension has no inferred report and one alternative matched fact for fact |
| Spans.MergeSpans | crates/pdfdelta-bench/src/evaluator.rs:520-533 | merging nonempty spans keeps the covered positions and yields sorted, separated spans |
| Spans.LenIsCover | crates/pdfdelta-bench/src/evaluator.rs:535-539 | on separated spans the saturating sum is the number of covered positions |
| Spans.IntersectionLen | crates/pdfdelta-bench/src/evaluator.rs:541-556 | the two-pointer count is the size of the intersection of the covered sets |
| Spans.DropFirst | crates/pdfdelta-bench/src/evaluator.rs:541-556 | the span that ends first shares exactly its overlap with the other list's head |
| Spans.CountTokens | crates/pdfdelta-bench/src/evaluator.rs:428-468 | TP + FP is the covered size of the reported side exactly when that size fits a usize, TP + FN likewise for the expected side, and TP is the number of shared positions, saturated |
| Spans.IouOne | crates/pdfdelta-bench/src/evaluator.rs:803-817 | intersection over union is 1 exactly for equal spans whose doubled length fits a usize |
| Spans.IouIsShare | crates/pdfdelta-bench/src/evaluator.rs:803-817 | while the lengths fit, the ratio times the size of the union of the covered positions is the size of their intersection; it is 0 for an empty union |
| Spans.SelectExpectedSpan | crates/pdfdelta-bench/src/evaluator.rs:496-511 | chooses the first variant whose best overlap with the reported spans is largest |
| Spans.VerbatimVariantWins | crates/pdfdelta-bench/src/evaluator.rs:496-518 | when a variant was reported verbatim the variant chosen was too |
| BlockWalk.NeverMissesExactlyWhenNonblank | crates/pdfdelta-bench/src/evaluator.rs:914-945 | the preference for no gap loses no tiling of any source exactly when every text after the first holds a non-space |
| BlockWalk.NonblankIsTight | crates/pdfdelta-bench/src/evaluator.rs:930-945 | with such texts every tiling is the one the walk finds |
| BlockWalk.MissedIsTileable | crates/pdfdelta-bench/src/evaluator.rs:930-945 | for any text after the first, the texts joined with one space around that text are a source with a tiling |
| BlockWalk.MissedIsNotWalkable | crates/pdfdelta-bench/src/evaluator.rs:930-945 | and if that text is the last blank one the walk fails on it |
| BlockWalk.WalkStep | crates/pdfdelta-bench/src/evaluator.rs:930-960 | a placed text goes on in the one way any tight tiling can |
| CanonicalSource.MapCanonicalBlocks | crates/pdfdelta-bench/src/evaluator.rs:902-974 | succeeds exactly when the ids differ and a tight tiling of the source exists, returns that tiling and names every block; the cursor never passes the end |
| CanonicalSource.BlankBlockMissed | crates/pdfdelta-bench/src/evaluator.rs:930-945 | a source with a tiling and an all-space block on which the walk fails |
| CanonicalSource.OrderedGroupIsSlice | crates/pdfdelta-bench/src/evaluator.rs:984-1000 | the positions of consecutive ids are a slice of the index |
| CanonicalSource.OrderedGroupMeans | crates/pdfdelta-bench/src/evaluator.rs:984-1000 | a group is found exactly when its ids are those of consecutive blocks of the index, and then it is these blocks |
| CanonicalSource.SpaceAtJoint | crates/pdfdelta-bench/src/evaluator.rs:866-868 | the separator puts a space exactly where none stands on either side of the joint |
| CanonicalSource.SpaceAtBoundary | crates/pdfdelta-core/src/alignment/score.rs:24-36 | a boundary of a group has a space exactly when all have one or its place in a per-boundary pattern says so |
| CanonicalSource.ProjectGroupSpan | crates/pdfdelta-bench/src/evaluator.rs:829-868 | projects exactly when the gaps agree with the separator and the range lies in the joined text, and then shifts the range by the group's start |
| CanonicalSource.GroupTextInSource | crates/pdfdelta-bench/src/evaluator.rs:829-868 | where the gaps agree the source itself reads as the separator-joined group text |
| CanonicalSource.ProjectionReadsGroup | crates/pdfdelta-bench/src/evaluator.rs:829-868 | the source slice at the projected range equals the group-text slice at the local range |
| CanonicalSource.GlobalSpan | crates/pdfdelta-bench/src/evaluator.rs:819-827 | a span projects exactly under those conditions and then reads in the source as it does in its group |
| IntervalChain.LongestRenderMonotoneSubsequence | crates/pdfdelta-bench/examples/layout_line_probe.rs:394-431 | returns a subsequence in which each end is strictly below the next start, and no such subsequence is longer |
| IntervalChain.DominatesStep | crates/pdfdelta-bench/examples/layout_line_probe.rs:403-416 | after one more line the tail of each length is still the smallest end of all chains of that length |
| IntervalChain.ScanStep | crates/pdfdelta-bench/examples/layout_line_probe.rs:403-416 | overwriting one tail keeps the tails strictly increasing by end and the predecessor links one shallower |
| IntervalChain.WalkBack | crates/pdfdelta-bench/examples/layout_line_probe.rs:417-430 | the predecessor walk ends and yields a chain as long as the list of tails |
| CompactRun.FeedNext | benchmark/realworld/compact_native.py:72-85 | after a feed every field is what it would be had all bytes come at once, and the feed fails exactly when their unfinished line exceeds the bound |
| Compactor.NextFieldsAre | benchmark/realworld/compact_native.py:72-85 | the incremental fields are functions of all bytes fed, however they were cut |
| Compactor.FeedStep | benchmark/realworld/compact_native.py:77-85 | the tally of complete lines and the pending rest do not depend on the cut |
| Compactor.HeadKept | benchmark/realworld/compact_native.py:182-188 | a head found in the buffer is the head of the whole remaining text |
| Compactor.HeadSkips | benchmark/realworld/compact_native.py:197-203 | whole lines without a head can be retained without moving the next head |
| CompactMeaning.OpensMeans | benchmark/realworld/compact_native.py:71-72 | a line opens or closes an item exactly when it is two blanks more than the indentation and the brace, with or without one comma behind a closing one |
| CompactMeaning.KindOfMeans | benchmark/realworld/compact_native.py:69 | a line has a kind exactly when it is the indented key around that nonempty text without quote or newline, with or without one comma |
| CompactMeaning.PageOfMeans | benchmark/realworld/compact_native.py:70 | a line has a page exactly when it is the indented key and decimal digits that write that number, leading zeros included, with or without one comma |
| CompactMeaning.NumberIsWritten | benchmark/realworld/compact_native.py:83 | the number read from digits is the one whose last digit and whose tenth they write |
| CompactMeaning.TextIsLines | benchmark/realworld/compact_native.py:77-79 | every text is lines, each with its newline, and an unfinished rest |
| CompactMeaning.TallyMeans | benchmark/realworld/compact_native.py:82-85 | the tally of a text counts its lines of each shape, each kind as often as lines have it, and collects the pages they write; the rest counts for nothing |
| CompactMeaning.SamplesMean | benchmark/realworld/compact_native.py:75-76 | the samples are the first and the last bytes, as many as the bound allows |
| CompactMeaning.FinishMeans | benchmark/realworld/compact_native.py:99-112 | an array is accepted exactly when as many lines open an item as close one and as carry a kind, every kind is known and its samples can be extracted |
| CompactMeaning.HeadMeans | benchmark/realworld/compact_native.py:182-188 | a head stands exactly where a line starts with one or more blanks and the key with its bracket |
| CompactMeaning.ArrayLengthMeans | benchmark/realworld/compact_native.py:114-133 | an array is one bracket, or starts with a line break and goes up to the first line start with the same blanks and a closing bracket |
| CompactReport.PiecesOf | benchmark/realworld/compact_native.py:178-203 | every input byte goes, in order, to exactly one of retained text, a key head or one array's feed, and the output is the retained text with each array replaced |
| CompactRun.Reader.Fill | benchmark/realworld/compact_native.py:46-51 | a refill moves one chunk from the stream to the buffer and accounts for its bytes |
| CompactRun.ConsumeSources | benchmark/realworld/compact_native.py:114-139 | consumes exactly the array the whole text defines and summarizes exactly its bytes; refuses exactly when there is no such array or summary, or when one of its own feeds ends in an unfinished line over the bound |
| CompactRun.PassedMore | benchmark/realworld/compact_native.py:126-138 | after each read without a terminator the array ends later and no feed so far met a line over the bound |
| CompactRun.ShowsAtEnd | benchmark/realworld/compact_native.py:126-133 | once the terminator is read only the last feed is still to be judged |
| CompactRun.FeedMost | benchmark/realworld/compact_native.py:135-138 | keeping back a terminator's length never splits a terminator; the feed fails exactly on an unfinished line over the bound |
| CompactReport.LinesKept | benchmark/realworld/compact_native.py:197-200 | retaining head-free lines commutes with compacting the rest |
| CompactReport.LongLineDooms | benchmark/realworld/compact_native.py:201-202 | a buffered line over the retention bound fails the report however it continues |
| CompactRun.HeadIsFresh | benchmark/realworld/compact_native.py:182-188 | behind a head just found no earlier read has ended, so the array's feeds depend only on the reads still to come |
| CompactRun.Run | benchmark/realworld/compact_native.py:178-203 | for every list of nonempty chunks the run ends and returns the reference result of the whole text, except that it refuses exactly when these chunks feed some array up to an unfinished line over the bound |
| FeedPoints.CutNeverMatters | benchmark/realworld/compact_native.py:77-81 | all cuts of a text give the reference result exactly when that is a refusal or no array can be fed up to an unfinished line over the bound |
| FeedPoints.CutNeverMattersByLines | benchmark/realworld/compact_native.py:77-81 | with a bound over the largest indentation: exactly when it is a refusal or no array holds a line over the bound before its last bytes |
| FeedPoints.CanByLines | benchmark/realworld/compact_native.py:135-138 | which arrays can be fed so: a long line, or part of one, before the bytes that are always held back |
| FeedPoints.ExposingMark | benchmark/realworld/compact_native.py:135-138 | one place to cut a text that makes the run refuse it, whatever else is cut |
| FeedPoints.OneReadShowsNothing | benchmark/realworld/compact_native.py:126-133 | a report that compacts is never refused when read at once |
| CutExample.CutMatters | benchmark/realworld/compact_native.py:77-81 | a schema-11 report of three glyphs, and two cuts of it with different results |
| CutExample.PiecesRefuse | benchmark/realworld/compact_native.py:46-51 | read in pieces of one size the same report is refused whenever its long line exceeds the bound and a piece together, for then a read ends inside it |
| Publication.NextInv | crates/pdfdelta-bench/src/publication.rs:25-124 | every step of every publisher or outsider keeps the publication invariant |
| Publication.PresentIsComplete | crates/pdfdelta-bench/src/publication.rs:79-80 | a present destination is an outsider's file or one successful publisher's complete bytes |
| Publication.RunKeeps | crates/pdfdelta-bench/src/publication.rs:25-124 | over any run a present destination stays the same file with the same bytes |
| Publication.StandsExactlyWhenApart | crates/pdfdelta-bench/src/publication.rs:25-124 | that holds for all runs exactly when no destination lies in a publisher's temporary namespace |
| Publication.RunsExclusive | crates/pdfdelta-bench/src/publication.rs:25-124 | at most one publisher to a path succeeds, no two own one temporary file, success stands published, and a returned call whose removal worked leaves nothing else |
| Publication.CallsEnd | crates/pdfdelta-bench/src/publication.rs:97-124 | each step brings its own call strictly closer to returning, at most 64 reservations included |
| Publication.NeverStuck | crates/pdfdelta-bench/src/publication.rs:25-124 | a call that has not returned can always take a step |
| PublicationProgress.CanPublish | crates/pdfdelta-bench/src/publication.rs:25-124 | from any state a call at its start whose directory exists and whose destination is free publishes when left alone and nothing fails, if the first free temporary name is among the next 64 and is not the destination; the destination with its bytes is then the only new file |
| PublicationProgress.FindName | crates/pdfdelta-bench/src/publication.rs:97-124 | existing names are passed over, the counter wrapping at 64 bits, and the first free one is taken |
| PublicationProgress.NamesDiffer | crates/pdfdelta-bench/src/publication.rs:97-108 | temporary names differ between processes, between directories and between draws of one counter, up to a whole turn of it |
| PublicationProgress.AnswerIsSettled | crates/pdfdelta-bench/src/publication.rs:25-124 | in any run, whatever the others do, a call that meets no failure and returns leaves no temporary file and succeeds exactly when it came to link and its destination was free then |
| PublicationProgress.SmoothlyOn | crates/pdfdelta-bench/src/publication.rs:25-124 | a call that has not returned can always go on without a failure |
| PublicationProgress.AnyCallMayFail | crates/pdfdelta-bench/src/publication.rs:53-79 | every call of the file system may fail at any time, and then changes no file |
| PublicationProgress.OthersMayCreate | crates/pdfdelta-bench/src/publication.rs:45-50 | another program may create any missing file with any content at any time |
| Prune.VerifyEntries | benchmark/realworld/compact_capture.py:132-153 | the loop accepts exactly when pairs are distinct, every entry is verified and every reported pair is covered |
| Prune.RowsMean | benchmark/realworld/compact_capture.py:126 | the dictionary of the summary holds exactly the pairs of its rows, each with the report of the last row of that pair |
| Prune.PassesMeans | benchmark/realworld/compact_capture.py:118-153 | the checks pass exactly when the reports recorded in the rows and those listed by the manifest are the same, no pair is listed twice, and the files of every entry stand |
| Prune.OneToOne | benchmark/realworld/compact_capture.py:126-153 | with one row to a pair, an accepted manifest's entries are one to one the rows that have a report |
| Prune.Run | benchmark/realworld/compact_capture.py:118-160 | an undisturbed call refuses and changes nothing, or leaves the intent, no originals and the receipt |
| Prune.RecordsAreSafe | benchmark/realworld/compact_capture.py:119-151 | no verified original is the manifest or the summary itself |
| Prune.NextInv | benchmark/realworld/compact_capture.py:118-160 | every step and every crash keeps the pruning invariant |
| Prune.StillPasses | benchmark/realworld/compact_capture.py:132-153 | where originals lie apart from compact copies, every rerun passes its checks, and an original is missing only under the intent with its verified copy present |
| Prune.SafeExactlyWhenSeparate | benchmark/realworld/compact_capture.py:118-160 | both hold over all runs exactly when no original lies where a compact copy lies |
| Prune.CompletesExactlyWhenSeparate | benchmark/realworld/compact_capture.py:118-160 | at every moment of every run one undisturbed call passes its checks and leaves the disk the first would have left, exactly under that same condition |
| Prune.CanFinish | benchmark/realworld/compact_capture.py:118-160 | wherever a run was cut off, one call that is not killed ends with every original removed and the receipt written, where originals lie apart from compact copies |
| Prune.OneFileForBoth | benchmark/realworld/compact_capture.py:132-153 | the checks accept a capture whose original is its own compact copy; some run of it is not safe, and leaves a disk that is refused |
| Prune.RunsEndAlike | benchmark/realworld/compact_capture.py:154-160 | with or without that condition: a receipt is true and final, a finished call leaves the disk the first would have left, and whatever a run leaves has the same completion, should its checks pass |
| Prune.ReceiptMeansDone | benchmark/realworld/compact_capture.py:154-160 | once a receipt stands no further step changes any file |
| Prune.RefusalKeepsAll | benchmark/realworld/compact_capture.py:120-153 | if the first checks fail no run changes anything |
| CandidateVisits.LargestFirst | crates/pdfdelta-bench/src/candidate_eval.rs:764-766 | no choice of k contributions adds up to more than the first k in descending order |
| CandidateVisits.FirstPrefixIsFewest | crates/pdfdelta-bench/src/candidate_eval.rs:793-820 | the first prefix that reaches a target is the smallest number of contributions that can |
| CandidateVisits.TargetsMean | crates/pdfdelta-bench/src/candidate_eval.rs:800-801 | reaching half rounded up is carrying half, and reaching the total less a tenth rounded down is leaving at most a tenth |
| CandidateVisits.CumulativeVisitCounts | crates/pdfdelta-bench/src/candidate_eval.rs:793-820 | the first count is the least number of contributions that carry at least half of the visits, the second the least number that carry at least nine tenths of them, also for a zero total |
| CandidateVisits.FewestIsUnique | crates/pdfdelta-bench/src/candidate_eval.rs:785-792 | the least size is unique, so the counts depend only on the multiset of contributions |
| CandidateVisits.TopTen | crates/pdfdelta-bench/src/candidate_eval.rs:773-777 | ten or fewer contributions never add up to more than the first ten |
| CandidateVisits.VisitsCountPairs | crates/pdfdelta-bench/src/candidate_eval.rs:844-865 | document frequency times occurrences over all old n-grams equals the n-grams shared by all pairs of blocks |
| CandidateVisits.BlockVisits | crates/pdfdelta-bench/src/candidate_eval.rs:822-825 | the new-side frequencies of one old block's n-grams add up to what it shares with each new block |
| CandidateVisits.PairsSymmetric | crates/pdfdelta-bench/src/candidate_eval.rs:822-825 | swapping the sides changes no visit |
| CandidateVisits.CountBlocks | crates/pdfdelta-bench/src/candidate_eval.rs:831-842 | the map gives each n-gram the number of blocks containing it |
| CandidateVisits.NgramVisits | crates/pdfdelta-bench/src/candidate_eval.rs:844-865 | fails exactly when the total overflows, whatever the order of the map; one contribution per shared n-gram; the dominant charge is the largest |
| CandidateVisits.NgramVisitStats | crates/pdfdelta-bench/src/candidate_eval.rs:826-879 | the whole summary, document-frequency percentiles and maximum included, has its meaning over the multiset of contributions |
| OrderStatistics.KthSmallestMeaning | crates/pdfdelta-bench/src/candidate_eval.rs:893-901 | the sample at a rank is the one a value reaches exactly when more than that many samples are no larger |
| OrderStatistics.NearestRankIsNearest | crates/pdfdelta-bench/src/candidate_eval.rs:893-901 | the rank is the whole number nearest to the share of the last index, halves up, and never past it |
| OrderStatistics.RoundedPercentileMeaning | crates/pdfdelta-bench/src/candidate_eval.rs:893-901 | the percentile does not depend on the order of the samples |
| Utf8.EncodeSame | crates/pdfdelta-bench/src/candidate_eval.rs:491-493 | no scalar's bytes begin another's |
| Utf8.EncodeMeans | crates/pdfdelta-bench/src/candidate_eval.rs:491-493 | a scalar's bytes are exactly the octets whose syntax and bits the standard gives its number |
| Utf8.OctetsAreOfScalars | crates/pdfdelta-bench/src/candidate_eval.rs:491-493 | every octet sequence of that syntax is some scalar's |
| Utf8.PrefixByBytes | crates/pdfdelta-bench/src/candidate_eval.rs:505-516 | comparing bytes is comparing characters |
| BlockSpans.BlockGlobalSpans | crates/pdfdelta-bench/src/candidate_eval.rs:494-560 | returns the tight tiling, each scalar span denoting its block's text, or there is none; the beyond-source error and the final scalar check can never fire |
| BlockSpans.SpaceTextMissed | crates/pdfdelta-bench/src/candidate_eval.rs:505-516 | a source with a tiling and a one-space text on which the walk fails |
| BlockSpans.LastChecks | crates/pdfdelta-bench/src/candidate_eval.rs:544-557 | the byte cursor is at the end exactly when the scalar cursor is |
| LiteralSelectors.ScanBlock | crates/pdfdelta-bench/src/literal_selectors.rs:263-297 | the scan lists the occurrences so far in reading order and stops at the second, at the first scalar it cannot pay for, or at the end, having paid exactly for the scalars it looked at |
| LiteralSelectors.FindOccurrences | crates/pdfdelta-bench/src/literal_selectors.rs:247-298 | the search lists all occurrences in scope or stops at the second; it runs out exactly when the budgets reach neither the end nor a second occurrence; what it leaves of the work is exact in each case |
| LiteralSelectors.AttachSources | crates/pdfdelta-bench/src/literal_selectors.rs:336-373 | every quoted scalar gets its nonempty atoms, or none is reported; the budget is exceeded exactly when some scalar's atoms do not fit and no earlier scalar lacks them |
| LiteralSelectors.ResolveHit | crates/pdfdelta-bench/src/literal_selectors.rs:299-335 | the verdict on the only occurrence; it is out of budget exactly when looking through its unknown glyphs, projecting it or its atoms do not fit, in that order |
| LiteralSelectors.ResolveSelector | crates/pdfdelta-bench/src/literal_selectors.rs:221-374 | the meaning of each verdict over all occurrences; the budget is reported exceeded exactly when it is; what is left of both budgets after each verdict |
| LiteralSelectors.LeavesOne | crates/pdfdelta-bench/src/literal_selectors.rs:211-374 | what a selector leaves of the budgets is determined by the selector, the blocks and what it found |
| LiteralSelectors.OccurrenceSlices | crates/pdfdelta-bench/src/literal_selectors.rs:271-278 | byte and scalar offsets of an occurrence both cut out exactly the quote |
| LiteralSelectors.Resolve | crates/pdfdelta-bench/src/literal_selectors.rs:175-208 | every selector's verdict is justified against its side when both hashes match, and is a mismatch otherwise; each reports its budget exceeded exactly when it is for what its predecessors left; all atoms reported together stay within the limit |
| SelectorSources.ProjectedAtoms | crates/pdfdelta-core/src/normalize/mod.rs:393-411 | an atom is listed for a scalar exactly when some map entry whose range holds it, or some unmapped token at it, mentions the atom; no atom twice; in the order of first mention |
| SelectorSources.UniqueReports | crates/pdfdelta-bench/src/literal_selectors.rs:336-373 | a unique verdict reports every scalar of the only occurrence with its offsets, its value and exactly those atoms |
| SelectorSources.MissingReports | crates/pdfdelta-bench/src/literal_selectors.rs:353-361 | a missing source is reported only where no atom is mentioned for some scalar of the only occurrence |
| SelectorSources.ProjectionIsCounted | crates/pdfdelta-bench/src/literal_selectors.rs:318-324 | projecting is charged one for each map entry and one for each of its atoms |
| SelectorSources.ScopeMeans | crates/pdfdelta-bench/src/literal_selectors.rs:247-262 | a block is in scope exactly when neither locator of the selector names another |
| SelectorSources.OverflowMeans | crates/pdfdelta-bench/src/literal_selectors.rs:318-329 | for a nonempty quote the checked charge overflows exactly when it does not fit a usize |
| SelectorSources.TotalIsCounted | crates/pdfdelta-bench/src/literal_selectors.rs:362-366 | what counts against the atom limit is every atom reported, in every scalar of every resolution |
| Provenance.ValidateManifest | crates/pdfdelta-bench/src/evaluation.rs:141-219 | accepts exactly the manifests with unique pairs, valid rows and pairwise agreement |
| Provenance.CheckRow | crates/pdfdelta-bench/src/evaluation.rs:148-216 | an accepted row is recorded in all maps, a rejected one spoils every manifest it ends |
| Provenance.BlankMeans | crates/pdfdelta-bench/src/evaluation.rs:155-164 | a field is blank exactly when trimming white space from both its ends leaves nothing |
| Provenance.KnownMeans | crates/pdfdelta-bench/src/evaluation.rs:185 | a producer counts as known exactly when its family differs from that one word in more than the case of letters |
| Provenance.Insert | crates/pdfdelta-bench/src/evaluation.rs:221-235 | inserting a fact into a map fails exactly on a conflict with the facts already there |
| Provenance.AgreementIsPairwise | crates/pdfdelta-bench/src/evaluation.rs:173-215 | single-valued maps are pairwise agreement of the rows |
| Provenance.OrderDoesNotMatter | crates/pdfdelta-bench/src/evaluation.rs:141-219 | acceptance does not depend on the order of the rows |
| OrderStatistics.PercentileMeaning | crates/pdfdelta-bench/src/evaluation.rs:353-359 | the nearest-rank percentile is the least sample not exceeded by the given share of all samples |

## Left out

- Prune.SafeExactlyWhenSeparate: temporary files left by a crash inside `publish_json` are not modelled; linking is one atomic step.
- Publication.RunKeeps: deletion or rewriting by other programs is excluded; they may create files at any time.
- AssignmentRun.Relax: promises a nearest column, not which one of several equally near; no result depends on the choice.
- PDF parsing, layout, normalization, alignment and diff calls: their outputs are arbitrary inputs here.
- `enumerate_paths` and the other exhaustive self-checks: their role is taken by quantifying over all alignments.
- JSON, gzip, SHA-256 and the regular-expression engine: the line patterns are functions of whole lines, summary encodings and sample extraction are a table, and the final JSON parse of the compacted report is not modelled.
- A source kind that is not valid UTF-8, and page numbers of more digits than the interpreter converts, in the compactor.
- `prune`: malformed JSON, symbolic links and two concurrent calls; a path is a plain identity inside or outside the two directories.
- `compact_capture` (conversion), whose checks are one-branch comparisons of recorded fields.
- `from_json` of literal annotations and the row parser of the revision manifest: field-by-field validation.
- Kinds of operations, edges, conventions and pixel masks in facts are opaque tokens, and the work units of a fact are a parameter.
- Checks that an annotated fact belongs to its dimension and that a display range is not reversed.
- Precision, recall and recall at K: quotients of the counts proved here.
- `map_blocks` and `true_counterparts`: filters over the proved spans.
- Rounding in floating-point ratios and ranks, which can make near ties of overlaps equal.
- Building an assignment problem from proposals: numbering its vertices, choosing the smaller side as rows, and the class a weight is charged to; the problem is given as rows of edges.
- The other matching strategies of the core crate (`cardinality.rs`, `hybrid.rs`) and its interval, table and form comparisons.
- Recorded experiment fixtures, budgets of other probes, report rendering, timing and memory measurement.
- Vectors that live only inside one function are sequences; in-place arrays are kept where the source overwrites a table, a row, a mask or the match arrays of the cardinality matching; the vectors of one assignment solve are sequences, updated one place at a time.
