# tm_solver in Dafny

A model of the solver for the *Turing Machine* board game. In the game, a
secret three-digit code (blue, yellow and purple, each from 1 to 5) is
checked by a handful of *rules*. Testing a code against a rule says whether
that rule gives a particular outcome. Each round uses one code and at most
three tests. The solver does two things:

- It enumerates the 125 codes and computes each code's *outcome vector*
  under the selected rules. It then keeps the outcome vectors that single
  out exactly one code.
- It builds a binary *decision tree* over those vectors. A Branch is a test
  "rule i gives outcome v"; a Leaf names the solution. At every round start,
  the tree names a code with which the whole round can be played.

The model covers three source files.

| file | Dafny |
|---|---|
| `src/rules.rs` | `rules.dfy`: the 21 rules, each as a pure function with its meaning stated |
| `src/construct_tree.rs` | `trees.dfy`, `splitter.dfy`, `permutations.dfy`, `rounds.dfy`, `search.dfy` |
| `src/main.rs` | `legacy.dfy` (the older copy of the search), `precompute.dfy` (enumeration, grouping, the pipeline) |

`wrappers.dfy` holds the `Option` type.

The main properties proved are these:

- **Identification.** Every tree the search returns decides its batch.
  Walking the tree with an entry's outcome vector ends at that entry's
  solution, and the leaves are exactly the batch's solutions. Such a tree
  has one Branch fewer than its batch has entries.
- **Round discipline.** Every tree the search returns is playable, as the
  ghost predicate `Rounds.RoundValid` defines it:
  - no rule is tested twice within a round;
  - the two sides of a Branch never ask one rule for different outcomes
    within the compared window;
  - every round start carries a code listed under an outcome vector that
    gives every outcome the round may test.

  In the program's pipeline this becomes `Precompute.CodesReproduce`. The
  code at each round start really does give every outcome the round may
  ask for, under the selected rules.
- **Completeness of the pipeline.** In every tree the search returns,
  every code whose outcome vector is unique is found. The walk with its
  outcomes ends at that code.
- **The search does not miss the smallest case.** In both copies of the
  search, a split of two entries whose two Leaves pass the pair checks
  always yields a tree, at every level. So `Search.OptimalTree` returns a
  tree for two entries with different outcome vectors when either vector
  is a key of the map. Larger batches are not covered (see "Left out").
- The u8 arithmetic `a - 1 - current_level` in the depth bound never
  underflows (`Search.AbortBound` and `Search.AbortRoom`).
- The early exit in `construct_trees_rec` can never fire. A tree that
  decides n entries has exactly n - 1 Branch nodes. The library's
  "ideal total size" is always at least n. So the tree's `total_depth()`
  (its Branch count) is always below the exit value
  (`Search.EarlyExitUnreachable`).
- The two copies of the search check the same windows of tests
  (`Legacy.LevelWindowAgrees`). They also rank trees the same way: ranking
  by node count is ranking by Branch count (`Legacy.SizeOrderAgrees`).

Where the code and its documentation differ, the model follows the code:

- `total_depth()` counts Branch nodes. Its documentation speaks of summed
  path lengths.
- `optimal_tree` computes the observed outcome values from the batch it
  is given.
- The window of tests that a Branch compares reaches `tests_per_round -
  phase - 1` levels below the children. This is one level further than the
  round itself, because that is how `construct_trees_rec` calls
  `get_tests`.

## Model

| member | source | states |
|---|---|---|
| Rules.ParityCounts | src/rules.rs:86-98 | the odd and even fields of a code add up to three |
| Rules.CompareValues | src/rules.rs:15-21 | outcome 0, 1 or 2 exactly when the value is below, equal to or above the target; never undefined |
| Rules.Rule1 | src/rules.rs:23 | three-way comparison of blue with 1 |
| Rules.Rule2 | src/rules.rs:24 | three-way comparison of blue with 3 |
| Rules.Rule3 | src/rules.rs:25 | three-way comparison of yellow with 3 |
| Rules.Rule4 | src/rules.rs:26 | three-way comparison of yellow with 4 |
| Rules.SingleParity | src/rules.rs:29-34 | outcome 0 for an even value, 1 for an odd one |
| Rules.Rule5 | src/rules.rs:36 | always an outcome, below 2, and 1 exactly when blue is odd |
| Rules.Rule6 | src/rules.rs:37 | always an outcome, below 2, and 1 exactly when yellow is odd |
| Rules.Rule7 | src/rules.rs:38 | always an outcome, below 2, and 1 exactly when purple is odd |
| Rules.CountDigit | src/rules.rs:41-47 | the number of fields equal to the digit (its multiplicity in the code), at most 3 |
| Rules.Rule8 | src/rules.rs:49 | how often 1 occurs in the code |
| Rules.Rule9 | src/rules.rs:50 | how often 3 occurs in the code |
| Rules.Rule10 | src/rules.rs:51 | how often 4 occurs in the code |
| Rules.Rule11 | src/rules.rs:54 | three-way comparison of blue with yellow |
| Rules.Rule12 | src/rules.rs:55 | three-way comparison of blue with purple |
| Rules.Rule13 | src/rules.rs:56 | three-way comparison of yellow with purple |
| Rules.Rule14 | src/rules.rs:59-70 | outcome k exactly when field k is strictly smaller than both others; undefined exactly when no field is |
| Rules.Rule15 | src/rules.rs:72-83 | outcome k exactly when field k is strictly greater than both others; undefined exactly when no field is |
| Rules.Rule16 | src/rules.rs:86-92 | 1 exactly when at least two fields are odd |
| Rules.Rule17 | src/rules.rs:94-98 | the number of even fields |
| Rules.Rule18 | src/rules.rs:100-105 | the parity of the number of odd fields (the parity of the sum) |
| Rules.Rule19 | src/rules.rs:108 | three-way comparison of blue + yellow with 6 |
| Rules.NoPairs | src/rules.rs:112-114 | the number of equal pairs is never 2: it is 0 when all fields differ, 1 when exactly two distinct values occur, 3 when all fields are equal |
| Rules.Rule20 | src/rules.rs:111-120 | the number of distinct field values minus one |
| Rules.Rule21 | src/rules.rs:122-124 | 1 exactly when exactly two distinct values occur |
| Rules.RulesOutcomes | src/rules.rs:126-130 | 21 rules; every rule except 14 and 15 is defined on every code; every outcome is at most 3 |
| Trees.MaxDepth | src/construct_tree.rs:44-49 | the depth is zero exactly at a Leaf; its bounds against the Branch count and the leaves are Trees.DepthBounds |
| Trees.TotalDepth | src/construct_tree.rs:53-58 | the Branch count is never below the depth; its exact value for a tree that decides a batch is Search.IdentifiesTotalDepth |
| Trees.Size | src/construct_tree.rs:62-67 | the node count is always odd; its exact value is Trees.SizeIsTwiceTotalDepthPlusOne |
| Trees.GetTests | src/construct_tree.rs:72-77 | the window of tests below a node; characterised by Trees.GetTestsWindow and Trees.GetTestsMonotone |
| Trees.SizeIsTwiceTotalDepthPlusOne | src/construct_tree.rs:53-67 | the node count is twice the Branch count plus one |
| Trees.LeavesCountBranches | src/construct_tree.rs:53-58 | a tree has one more leaf than it has Branch nodes |
| Trees.DepthBounds | src/construct_tree.rs:44-49 | the depth is at most the Branch count; a tree of depth d has at most 2^d leaves; the depth is positive exactly at a Branch |
| Trees.GetTestsWindow | src/construct_tree.rs:72-77 | the window is empty at a Leaf, always holds a Branch's own test, is exactly that test at width 0, and grows with the width |
| Trees.GetTestsMonotone | src/construct_tree.rs:124-136 | a wider window holds every test of a narrower one |
| Trees.CollectTests | src/construct_tree.rs:124-136 | the set collected test by test equals the window of the given width |
| Splitter.Select | src/construct_tree.rs:161-172 | one side of a split in batch order; characterised by Splitter.SelectMembers, Splitter.SelectAppend and Splitter.SelectPartitions |
| Splitter.SelectMembers | src/construct_tree.rs:161-172 | an entry is on a side exactly when it is in the batch and its outcome agrees with that side |
| Splitter.SelectAppend | src/construct_tree.rs:161-172 | each side keeps the batch order: splitting a concatenation concatenates the splits |
| Splitter.SelectPartitions | src/construct_tree.rs:161-172 | the two sides together are a permutation of the batch |
| Splitter.SelectSolutions | src/construct_tree.rs:161-172 | the solutions of the two sides together are a permutation of the batch's solutions |
| Splitter.SelectWellFormed | src/construct_tree.rs:161-172 | both sides keep outcome vectors of the batch's length |
| Splitter.FromTest | src/construct_tree.rs:161-172 | the result carries the test, the entries that pass it and the entries that fail it, each in batch order |
| Splitter.EstimatedValue | src/construct_tree.rs:181 | the smaller side's size: at most either side and equal to one of them |
| Splitter.CandidateSplits | src/construct_tree.rs:265-280 | every node is a split that leaves both sides non-empty, tests an observed value and a rule not yet used in the round; every such test has a node |
| Splitter.InsertDesc | src/construct_tree.rs:284-286 | inserting keeps the list sorted by decreasing key and adds exactly the new element |
| Splitter.SortDesc | src/construct_tree.rs:284-286 | the nodes sorted by decreasing key, as a permutation of the input |
| Permutations.InProductSnoc | src/construct_tree.rs:184-198 | a pick from i + 1 sets is a pick from the first i sets followed by a value of the last one |
| Permutations.PushExtensions | src/construct_tree.rs:189-193 | adds the partial vector extended by each allowed value, and nothing else; no duplicates |
| Permutations.ExtendAll | src/construct_tree.rs:187-195 | the output is every partial vector extended by every allowed value; no duplicates; the product of the sizes |
| Permutations.GetPermutations | src/construct_tree.rs:184-198 | the result holds exactly the vectors with one allowed value per position, each once, as many as the product of the set sizes |
| Rounds.UsesIndexAppend | src/construct_tree.rs:296-303 | appending a test to the used list adds exactly its rule to the used rules |
| Rounds.RoundWindow | src/construct_tree.rs:351-360 | the window of a round-valid node asks for one outcome per rule, for rules below n only, and never for a rule used earlier in the round |
| Rounds.BranchWindow | src/construct_tree.rs:361-378 | the same holds for a Branch assembled from two round-valid children without conflict |
| Rounds.HasConflict | src/construct_tree.rs:351-360 | true exactly when the two sets ask one rule for different outcomes |
| Rounds.FindRoundCode | src/construct_tree.rs:372-392 | a found code is the first code under an outcome vector that gives every committed outcome and an observed value elsewhere; none means no such vector is in the map |
| Search.BranchIdentifies | src/construct_tree.rs:361-366 | a Branch over the two sides of its test, with children that decide their sides, decides the whole batch |
| Search.BranchesIdentify | src/construct_tree.rs:361-393 | every Branch assembled from the subtree lists decides the batch |
| Search.IdentifiesTotalDepth | src/construct_tree.rs:53-58 | a tree that decides a batch has exactly one Branch fewer than the batch has entries |
| Search.ObservedValues | src/construct_tree.rs:209-214 | one set per rule, holding exactly the outcomes that some entry of the batch has for that rule |
| Search.Log2 | src/construct_tree.rs:218 | the largest power of two not above the size |
| Search.IdealTotalSize | src/construct_tree.rs:217-221 | the ideal total size is at least the number of entries |
| Search.EarlyExitUnreachable | src/construct_tree.rs:398-402 | a tree that decides the batch always has a total depth below the ideal total size, so the early exit never fires |
| Search.PopBest | src/construct_tree.rs:239-246 | the tree picked is no worse than any other by depth, then total depth, and it is the last such tree of the list |
| Search.NextLevelPhase | src/construct_tree.rs:296-303 | the position in the round of the next level is the next phase, wrapping at the round length |
| Search.CombinePairs | src/construct_tree.rs:351-403 | every pair kept becomes a Branch with the split's test that is round-valid at this phase; unless the search stopped early, every pair of subtrees that has no conflicting tests, is no deeper than the final best depth and (at a round start) has a matching outcome vector is kept; the best depth never rises and is unchanged when nothing is kept; the exit flag means the last tree met the exit value |
| Search.CombineRow | src/construct_tree.rs:353-402 | the pairs of one correct-side subtree: the same guarantees as Search.CombinePairs for that subtree |
| Search.AssembleBranch | src/construct_tree.rs:351-392 | a Branch is built exactly when the two subtrees have no conflicting tests, the Branch is no deeper than the best tree so far and, at a round start, some outcome vector matches the round; the Branch carries the split's test and is round-valid at this phase |
| Search.AcceptedUnderLowerBest | src/construct_tree.rs:367-371 | a pair accepted against a lower best depth is accepted against any higher one, so lowering the best never admits a pair it would have dropped |
| Search.HasPairSnoc | src/construct_tree.rs:393-396 | appending a tree keeps every pair already built and adds the new Branch's pair |
| Search.HasPairConcat | src/construct_tree.rs:352-353 | the pairs kept for one correct-side subtree join those kept before |
| Search.RoundStartCode | src/construct_tree.rs:372-392 | a code found for a round start is the first code under an outcome vector that gives every outcome the round below the Branch may test; none is found exactly when no outcome vector of the map matches the round |
| Search.AbortRoom | src/construct_tree.rs:307-316 | the depth bound in force is at least one past the current level, so `a - 1 - current_level` does not underflow |
| Search.SidesFit | src/construct_tree.rs:311-316 | sides that fit under the depth bound keep the bound for the level below, and sides of one entry always fit |
| Search.LeafPairKept | src/construct_tree.rs:351-403 | combining two single Leaves that pass the pair checks against the best depth on entry keeps a tree |
| Search.LeafSplitSides | src/construct_tree.rs:161-172 | both sides of a split of two entries hold one entry each |
| Search.SubTrees | src/construct_tree.rs:319-348 | a side of one entry gives its Leaf; every subtree decides its side and keeps the round discipline from the next level on, restarting with a fresh round after a round's last level |
| Search.TrySplit | src/construct_tree.rs:292-316 | every tree built under the split, whether or not the depth bound lets it through, is a Branch on a viable split (unused rule, observed value, two non-empty sides), decides the batch and keeps the round discipline; a split of two entries whose two Leaves pass the pair checks yields a tree; the best depth is unchanged when nothing is built; the exit flag is set only at the root, when the last tree reaches the ideal size |
| Search.SearchSides | src/construct_tree.rs:319-403 | both sides searched and combined: every tree built is a Branch on a viable split (unused rule, observed value, two non-empty sides), decides the batch and keeps the round discipline; a split of two entries whose two Leaves pass the pair checks yields a tree |
| Search.ConstructTreesRec | src/construct_tree.rs:250-408 | a single entry gives one Leaf; otherwise every tree is a Branch whose test uses a rule not yet used in the round and an observed value, and leaves both sides non-empty; every tree decides the batch and keeps the round discipline; a batch of two entries with a split whose two Leaves pass the pair checks yields at least one tree |
| Search.TryNodes | src/construct_tree.rs:288-407 | every tree kept from the splits in turn is a Branch on a viable split that decides the batch and keeps the round discipline; when none is kept, no split of the list was a two-entry split whose Leaves pass the pair checks |
| Search.NoLeafSplitLeft | src/construct_tree.rs:264-286 | the sorted list holds a node for every viable split, so a split missing from it is not viable |
| Search.TwoEntryLeafSplit | src/construct_tree.rs:208-214 | two entries with different outcome vectors, one of them a key of the map, have a split at the root whose two Leaves pass the pair checks |
| Search.OptimalTree | src/construct_tree.rs:200-248 | none for an empty batch and a Leaf for a single entry; a tree for two entries with different outcome vectors when either vector is a key of the map; every tree in the ghost list decides the batch and is round-valid from a fresh round; the tree returned is one of them, no worse than any other by depth, then total depth, and the last such; it has one Branch fewer than the batch has entries |
| Legacy.GetTestsAtLevel | src/main.rs:27-39 | the window by absolute level is empty exactly at a Leaf; Legacy.LevelWindowAgrees shows it equals the library's window |
| Legacy.LevelWindowAgrees | src/main.rs:27-39 | the window by absolute level is the library's window for the levels left in the round; at a round's last level it is the node's own test |
| Legacy.ProductValue | src/main.rs:107 | zero exactly when a side is empty; otherwise at least either side's size |
| Legacy.SortBySplit | src/main.rs:110-121 | the entries that pass and that fail the test, in batch order, together as many as the batch |
| Legacy.ConstructTrees | src/main.rs:139-268 | a single entry gives one Leaf; otherwise every tree is a Branch whose test uses a rule not yet used in the round and an observed value, and leaves both sides non-empty; every tree decides the batch and keeps three-test rounds; a batch of two entries with a split whose two Leaves pass the pair checks yields at least one tree |
| Legacy.TryNodes | src/main.rs:171-265 | every tree kept from the splits in turn is a Branch on a viable split that decides the batch and keeps three-test rounds; when none is kept, no split of the list was a two-entry split whose Leaves pass the pair checks |
| Legacy.TrySplit | src/main.rs:175-199 | every tree built under the split, whether or not the depth bound lets it through, is a Branch on a viable split, decides the batch and keeps three-test rounds; a split of two entries whose two Leaves pass the pair checks yields a tree; the best depth is unchanged when nothing is built |
| Legacy.SearchSides | src/main.rs:178-264 | both sides searched on the next level and combined: every tree built is a Branch on a viable split, decides the batch and keeps three-test rounds; a split of two entries whose two Leaves pass the pair checks yields a tree |
| Legacy.SizeOrderAgrees | src/main.rs:64-69 | ranking by depth and node count is ranking by depth and Branch count |
| Legacy.FirstBest | src/main.rs:349-363 | none exactly for an empty list; otherwise the first tree of the list that is no worse than every other by depth, then node count |
| Precompute.CodeOf | src/main.rs:295-301 | the i-th code is a valid code, and its index is i |
| Precompute.EnumerationComplete | src/main.rs:295-301 | every valid code is enumerated, at its own index |
| Precompute.AllCodes | src/main.rs:295-301 | 125 codes, the i-th being the i-th of the enumeration |
| Precompute.AllCodesExactly | src/main.rs:295-301 | a code is enumerated exactly when it is valid |
| Precompute.Outcomes | src/main.rs:307-312 | the defined outcomes in rule order; full length exactly when every rule is defined, and then each entry is that rule's outcome |
| Precompute.Matching | src/main.rs:306-319 | the codes listed under an outcome vector are enumerated codes, defined under every rule and giving exactly that vector |
| Precompute.MatchingSnoc | src/main.rs:313-318 | one more code is appended under p exactly when it is kept and gives p |
| Precompute.MatchingComplete | src/main.rs:306-319 | every enumerated code defined under every rule is listed under its own outcome vector |
| Precompute.GroupSolutions | src/main.rs:305-319 | the map's keys are exactly the vectors some code gives; each value is the list of those codes, in enumeration order |
| Precompute.UniqueSolutions | src/main.rs:322-327 | exactly the pairs of a key with a single code and that code; no key twice |
| Precompute.UniqueDeterminesCode | src/main.rs:322-327 | a unique vector names its code: no other valid code gives the same outcomes |
| Precompute.RoundCodeReproduces | src/main.rs:238-258 | a round code taken from the grouped map gives every committed outcome under the selected rules |
| Precompute.RoundValidReproduces | src/main.rs:238-258 | with the grouped map, the round discipline means that each round's code gives every outcome its round may test |
| Precompute.UniqueCodesFound | src/main.rs:322-363 | a tree that decides the unique vectors finds every code whose outcome vector is unique |
| Precompute.SearchTrees | src/main.rs:337-349 | every tree of the search from level 0 decides the unique vectors and keeps three-test rounds from a fresh round |
| Precompute.Selected | src/main.rs:275-287 | the selected rules, one per rule number, in selection order |
| Precompute.Prepare | src/main.rs:305-327 | the grouped map and the unique vectors, as the two steps above state them |
| Precompute.BuildTree | src/main.rs:329-363 | every tree in the ghost list reproduces every round with its code and finds every code with a unique outcome vector; none exactly when that list is empty; the tree returned is the first of them that is no worse than any other by depth, then node count |
| Precompute.Solve | src/main.rs:288-363 | none with fewer than four rules; otherwise, when there is a tree, it reproduces every round, finds every code with a unique outcome vector, and is the first of a ghost list of such trees that is no worse than any other by depth, then node count |

## Left out

- Printing: `to_string`, `print`, progress messages and the verbose listing are output only.
- Command-line parsing: the selection is given as 0-based rule numbers, that is, the parsed and range-checked numbers minus one.
- The worker thread, the channel and the loading indicator: the model runs the search directly.
- The interactive walk over standard input that follows the finished tree.
- The `Send`/`Sync` declarations.
- The iteration order of `HashSet` and `HashMap` is unspecified. The model picks elements in an arbitrary order (`:|`), so every contract holds for every order.
- `u8` widths: depths, sizes, levels and outcomes are unbounded naturals. For valid codes the rule arithmetic stays far below 255, and tree sizes are bounded by the 125 codes.
- Splitter.SortDesc: the stable `sort_by` is an insertion sort with the same result order, stated as sorted and a permutation.
- Search.PopBest: sorting followed by `pop()` is a single scan for the last best tree.
- Legacy.FirstBest: sorting followed by `[0]` is a single scan for the first best tree. It returns none where the program would index an empty list.
- Search.OptimalTree: the ghost list of candidates is not tied to the search beyond what every tree in it satisfies. The contract rules out none for a batch of one entry and for two entries with different vectors, one of them a key of the map. For larger batches it does not rule out none when a playable tree exists, and it does not prove that no smaller playable tree exists.
- Legacy.ConstructTrees: like the library's search, the contract rules out an empty list only for a single entry and for a two-entry batch with a split whose two Leaves pass the pair checks. For larger batches it does not rule out an empty list when a playable tree exists, and global optimality is not proved.
- Search.TrySplit: the contract does not say which splits the depth bound drops, only what every tree kept satisfies; the same holds for Legacy.TrySplit.
- Precompute.BuildTree: it returns none both when no outcome vector is unique and when the search finds no tree. The ghost list of candidates is not tied to the search beyond what every tree in it satisfies, so the contract does not rule out none when a playable tree exists.
- Precompute.Solve: the same as Precompute.BuildTree. Nothing in the contract rules out none for a selection of four or more rules.
- Trees.Walk: a test on a rule past the end of the outcome vector counts as failed, where the program would panic. Every search contract requires the test indices to be in range, so this never happens in the model.
- The copy of `get_permutations` in `src/main.rs` (lines 123-137) is identical to the library's, and `Permutations.GetPermutations` models both. The program's own `TestResult` differs: its estimate is the product of the two sides (`Legacy.ProductValue`), and its partition `sort_by_split` (lines 110-121) is `Legacy.SortBySplit`, whose loop is the one `Splitter.FromTest` also runs.
- `BinaryTree::print` and `Branch` printing are output only.
