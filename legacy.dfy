/**
 * The older, self-contained copy of the search kept next to the command-line
 * program: rounds are always three tests long, the window of tests is
 * tracked by absolute level, splits are ranked by the product of the side
 * sizes, the search never restarts at a round boundary and has no early
 * exit, and the final tree is picked by depth and node count.
 */
module Legacy {
  import opened Wrappers
  import opened Trees
  import opened Splitter
  import opened Rounds
  import opened Search

  /** Rounds are three tests long. */
  const TestsPerRound: nat := 3

  /**
   * The tests from a node at `level` to the end of its round: a node at the
   * last position of a round (level % 3 == 2) contributes only its own test.
   */
  function GetTestsAtLevel<T>(t: BinaryTree<T>, level: nat): (r: set<Test>)
    ensures r == {} <==> t.Leaf?
  {
    match t
    case Leaf(_) => {}
    case Branch(test, c, i, _) =>
      if level % 3 != 2 then {test} + GetTestsAtLevel(c, level + 1) + GetTestsAtLevel(i, level + 1)
      else {test}
  }

  /**
   * The level-based window is the library's window of the levels left in the
   * round, so both copies check the same tests.
   */
  lemma {:induction false} LevelWindowAgrees<T>(t: BinaryTree<T>, level: nat)
    ensures GetTestsAtLevel(t, level) == GetTests(t, 2 - level % 3)
    ensures t.Branch? && level % 3 == 2 ==> GetTestsAtLevel(t, level) == {t.test}
  {
    match t
    case Leaf(_) =>
    case Branch(_, c, i, _) =>
      if level % 3 != 2 {
        NextLevelPhase(level, TestsPerRound);
        LevelWindowAgrees(c, level + 1);
        LevelWindowAgrees(i, level + 1);
      }
  }

  /** The heuristic of this copy: the product of the side sizes. */
  function ProductValue<T(==)>(r: TestResult<T>): (v: nat)
    ensures v == 0 <==> r.correct == [] || r.incorrect == []
    ensures r.correct != [] && r.incorrect != [] ==> v >= |r.correct| && v >= |r.incorrect|
  {
    if r.correct != [] && r.incorrect != [] then
      MulAtLeast(|r.correct|, |r.incorrect|);
      MulAtLeast(|r.incorrect|, |r.correct|);
      |r.correct| * |r.incorrect|
    else
      |r.correct| * |r.incorrect|
  }

  /** This copy's partition: the same two sides as the library's, in batch order. */
  method SortBySplit<T(==)>(entries: seq<Feasible<T>>, test: Test)
    returns (correct: seq<Feasible<T>>, incorrect: seq<Feasible<T>>)
    requires forall e :: e in entries ==> test.0 < |e.0|
    ensures correct == Select(entries, test, true)
    ensures incorrect == Select(entries, test, false)
    ensures |correct| + |incorrect| == |entries|
  {
    var r := FromTest(entries, test);
    correct, incorrect := r.correct, r.incorrect;
    SelectPartitions(entries, test);
  }

  /**
   * The recursive search of this copy. Every tree returned decides the batch
   * and keeps the three-test round discipline from this level on.
   */
  method ConstructTrees<T(==)>(entries: seq<Feasible<T>>, tests: seq<set<nat>>, solMap: map<seq<nat>, seq<T>>,
                               currentLevel: nat, abortLevel: Option<nat>, usedTests: seq<Test>)
    returns (trees: seq<BinaryTree<T>>)
    requires WellFormed(entries, |tests|)
    requires forall p :: p in solMap ==> |solMap[p]| > 0
    requires AbortBound(|entries|, currentLevel, abortLevel)
    ensures |entries| == 1 ==> trees == [Leaf(entries[0].1)]
    ensures |entries| != 1 ==> forall t :: t in trees ==> t.Branch? && Viable(entries, tests, usedTests, t.test)
    ensures (exists test :: LeafSplit(entries, tests, solMap, usedTests, currentLevel % TestsPerRound, TestsPerRound, None, test)) ==>
      trees != []
    ensures forall t :: t in trees ==>
      Identifies(t, entries) && RoundValid(t, currentLevel % TestsPerRound, TestsPerRound, usedTests, |tests|, solMap)
    decreases |entries|, 3
  {
    if |entries| == 1 {
      assert Solutions(entries) == [entries[0].1];
      return [Leaf(entries[0].1)];
    }
    var candidates := CandidateSplits(entries, tests, usedTests);
    var nodes := SortDesc(candidates, (r: TestResult<T>) => ProductValue(r));
    forall node | node in nodes
      ensures ValidNode(entries, tests, usedTests, node)
    {
      assert node in multiset(nodes);
    }
    trees := TryNodes(entries, tests, solMap, currentLevel, abortLevel, usedTests, nodes);
    if trees == [] {
      NoLeafSplitLeft(entries, tests, solMap, usedTests, currentLevel % TestsPerRound, TestsPerRound, candidates, nodes);
    }
  }

  /**
   * Every split of the list in turn: the trees of each are appended and the
   * best depth found so far bounds the next. When no tree is found, no split
   * of the list was a LeafSplit.
   */
  method TryNodes<T(==)>(entries: seq<Feasible<T>>, tests: seq<set<nat>>, solMap: map<seq<nat>, seq<T>>,
                         currentLevel: nat, abortLevel: Option<nat>, usedTests: seq<Test>,
                         nodes: seq<TestResult<T>>)
    returns (trees: seq<BinaryTree<T>>)
    requires WellFormed(entries, |tests|)
    requires forall p :: p in solMap ==> |solMap[p]| > 0
    requires AbortBound(|entries|, currentLevel, abortLevel)
    requires forall node :: node in nodes ==> ValidNode(entries, tests, usedTests, node)
    ensures forall t :: t in trees ==>
      && t.Branch? && Viable(entries, tests, usedTests, t.test)
      && Identifies(t, entries) && RoundValid(t, currentLevel % TestsPerRound, TestsPerRound, usedTests, |tests|, solMap)
    ensures trees == [] ==> forall j :: 0 <= j < |nodes| ==>
      !LeafSplit(entries, tests, solMap, usedTests, currentLevel % TestsPerRound, TestsPerRound, None, nodes[j].test)
    decreases |entries|, 2
  {
    trees := [];
    var bestDepth: Option<nat> := None;
    for k := 0 to |nodes|
      invariant forall t :: t in trees ==>
        && t.Branch? && Viable(entries, tests, usedTests, t.test)
        && Identifies(t, entries) && RoundValid(t, currentLevel % TestsPerRound, TestsPerRound, usedTests, |tests|, solMap)
      invariant bestDepth.Some? ==> bestDepth.value >= 1
      invariant trees == [] ==> bestDepth.None?
      invariant trees == [] ==> forall j :: 0 <= j < k ==>
        !LeafSplit(entries, tests, solMap, usedTests, currentLevel % TestsPerRound, TestsPerRound, None, nodes[j].test)
    {
      var built, best := TrySplit(entries, tests, solMap, currentLevel, abortLevel, usedTests, nodes[k], bestDepth);
      trees := trees + built;
      bestDepth := best;
    }
  }

  /**
   * One split of this copy's search: skipped when a side is too large for the
   * depth bound in force; otherwise both sides are searched on the next level
   * and the pairs combined under the split's test.
   */
  method TrySplit<T(==)>(entries: seq<Feasible<T>>, tests: seq<set<nat>>, solMap: map<seq<nat>, seq<T>>,
                         currentLevel: nat, abortLevel: Option<nat>, usedTests: seq<Test>,
                         node: TestResult<T>, bestDepth: Option<nat>)
    returns (built: seq<BinaryTree<T>>, best: Option<nat>)
    requires WellFormed(entries, |tests|)
    requires forall p :: p in solMap ==> |solMap[p]| > 0
    requires AbortBound(|entries|, currentLevel, abortLevel)
    requires ValidNode(entries, tests, usedTests, node)
    requires bestDepth.Some? ==> bestDepth.value >= 1
    ensures forall t :: t in built ==>
      && t.Branch? && Viable(entries, tests, usedTests, t.test)
      && Identifies(t, entries) && RoundValid(t, currentLevel % TestsPerRound, TestsPerRound, usedTests, |tests|, solMap)
    ensures best.Some? ==> best.value >= 1
    ensures built == [] ==> best == bestDepth
    ensures LeafSplit(entries, tests, solMap, usedTests, currentLevel % TestsPerRound, TestsPerRound, bestDepth, node.test) ==>
      built != []
    decreases |entries|, 1
  {
    SelectPartitions(entries, node.test);
    var abort := if currentLevel == 0 then bestDepth else abortLevel;
    AbortRoom(|entries|, currentLevel, abortLevel, bestDepth);
    LeafSplitSides(entries, tests, solMap, usedTests, currentLevel % TestsPerRound, TestsPerRound, bestDepth, node);
    if !SidesFit(|node.correct|, |node.incorrect|, currentLevel, abort) {
      return [], bestDepth;
    }
    built, best := SearchSides(entries, tests, solMap, currentLevel, abort, usedTests, node, bestDepth);
  }

  /** Both sides of a split searched on the next level, and the pairs combined. */
  method SearchSides<T(==)>(entries: seq<Feasible<T>>, tests: seq<set<nat>>, solMap: map<seq<nat>, seq<T>>,
                            currentLevel: nat, abort: Option<nat>, usedTests: seq<Test>,
                            node: TestResult<T>, bestDepth: Option<nat>)
    returns (built: seq<BinaryTree<T>>, best: Option<nat>)
    requires WellFormed(entries, |tests|)
    requires forall p :: p in solMap ==> |solMap[p]| > 0
    requires ValidNode(entries, tests, usedTests, node)
    requires |node.correct| < |entries| && |node.incorrect| < |entries|
    requires AbortBound(|node.correct|, currentLevel + 1, abort) && AbortBound(|node.incorrect|, currentLevel + 1, abort)
    requires bestDepth.Some? ==> bestDepth.value >= 1
    ensures forall t :: t in built ==>
      && t.Branch? && Viable(entries, tests, usedTests, t.test)
      && Identifies(t, entries) && RoundValid(t, currentLevel % TestsPerRound, TestsPerRound, usedTests, |tests|, solMap)
    ensures best.Some? ==> best.value >= 1
    ensures built == [] ==> best == bestDepth
    ensures LeafSplit(entries, tests, solMap, usedTests, currentLevel % TestsPerRound, TestsPerRound, bestDepth, node.test) ==>
      built != []
    decreases |entries|, 0
  {
    var phase := currentLevel % TestsPerRound;
    NextLevelPhase(currentLevel, TestsPerRound);
    SelectWellFormed(entries, node.test, true, |tests|);
    SelectWellFormed(entries, node.test, false, |tests|);
    var nextSplits := if phase == 2 then [] else usedTests + [node.test];
    var correctTrees := ConstructTrees(node.correct, tests, solMap, currentLevel + 1, abort, nextSplits);
    var incorrectTrees := ConstructTrees(node.incorrect, tests, solMap, currentLevel + 1, abort, nextSplits);
    var done;
    built, best, done := CombinePairs(node.test, correctTrees, incorrectTrees, tests, solMap,
                                      phase, TestsPerRound, usedTests, bestDepth, None);
    BranchesIdentify(built, node.test, correctTrees, incorrectTrees, entries);
    if LeafSplit(entries, tests, solMap, usedTests, phase, TestsPerRound, bestDepth, node.test) {
      LeafSplitSides(entries, tests, solMap, usedTests, phase, TestsPerRound, bestDepth, node);
      LeafPairKept(node.test, node.correct[0].1, node.incorrect[0].1, correctTrees, incorrectTrees, built,
                   tests, solMap, phase, TestsPerRound, bestDepth, best);
    }
  }

  /** a is at least as good as b: smaller depth, then fewer nodes. */
  predicate NoWorseBySize<T>(a: BinaryTree<T>, b: BinaryTree<T>) {
    MaxDepth(a) < MaxDepth(b) || (MaxDepth(a) == MaxDepth(b) && Size(a) <= Size(b))
  }

  /** Ranking by node count is ranking by Branch count, so both copies agree on the best tree. */
  lemma SizeOrderAgrees<T>(a: BinaryTree<T>, b: BinaryTree<T>)
    ensures NoWorseBySize(a, b) <==> NoWorse(a, b)
  {
    SizeIsTwiceTotalDepthPlusOne(a);
    SizeIsTwiceTotalDepthPlusOne(b);
  }

  /**
   * Sorting by increasing depth, then size, and taking the first tree: the
   * first best tree of the list; none when the search found no tree.
   */
  method FirstBest<T>(trees: seq<BinaryTree<T>>) returns (r: Option<BinaryTree<T>>, index: nat)
    ensures r.None? <==> trees == []
    ensures r.Some? ==> index < |trees| && r.value == trees[index]
    ensures r.Some? ==> forall t :: t in trees ==> NoWorseBySize(r.value, t)
    ensures r.Some? ==> forall j :: 0 <= j < index ==> !NoWorseBySize(trees[j], r.value)
  {
    if trees == [] {
      return None, 0;
    }
    index := 0;
    for j := 1 to |trees|
      invariant index < j
      invariant forall m :: 0 <= m < j ==> NoWorseBySize(trees[index], trees[m])
      invariant forall m :: 0 <= m < index ==> !NoWorseBySize(trees[m], trees[index])
    {
      if !NoWorseBySize(trees[index], trees[j]) {
        index := j;
      }
    }
    r := Some(trees[index]);
  }
}
