/**
 * The branch-and-bound search for decision trees whose rounds can each be
 * played with one code, and the driver that picks the best tree.
 */
module Search {
  import opened Wrappers
  import opened Trees
  import opened Splitter
  import opened Permutations
  import opened Rounds

  /**
   * The tree decides the batch: following a candidate's own outcome vector
   * ends at that candidate's solution, and the leaves are the batch's
   * solutions, each as often as it occurs in the batch.
   */
  ghost predicate Identifies<T>(t: BinaryTree<T>, entries: seq<Feasible<T>>) {
    && (forall e :: e in entries ==> Walk(t, e.0) == e.1)
    && multiset(Leaves(t)) == multiset(Solutions(entries))
  }

  /** A Branch decides a batch when its children decide the two sides of its test. */
  lemma BranchIdentifies<T>(test: Test, c: BinaryTree<T>, i: BinaryTree<T>, code: Option<T>, entries: seq<Feasible<T>>)
    requires Identifies(c, Select(entries, test, true))
    requires Identifies(i, Select(entries, test, false))
    ensures Identifies(Branch(test, c, i, code), entries)
  {
    SelectSolutions(entries, test);
    forall e | e in entries ensures Walk(Branch(test, c, i, code), e.0) == e.1 {
      SelectMembers(entries, test, true, e);
      SelectMembers(entries, test, false, e);
    }
  }

  /** Every Branch assembled from deciding subtrees of the two sides decides the batch. */
  lemma BranchesIdentify<T>(built: seq<BinaryTree<T>>, test: Test, correctTrees: seq<BinaryTree<T>>,
                            incorrectTrees: seq<BinaryTree<T>>, entries: seq<Feasible<T>>)
    requires forall t :: t in built ==>
      t.Branch? && t.test == test && t.correct in correctTrees && t.incorrect in incorrectTrees
    requires forall t :: t in correctTrees ==> Identifies(t, Select(entries, test, true))
    requires forall t :: t in incorrectTrees ==> Identifies(t, Select(entries, test, false))
    ensures forall t :: t in built ==> Identifies(t, entries)
  {
    forall t | t in built ensures Identifies(t, entries) {
      BranchIdentifies(t.test, t.correct, t.incorrect, t.code, entries);
    }
  }

  /**
   * A tree that decides a batch of n candidates has n - 1 Branch nodes: the
   * program's total depth is the same for every tree it compares.
   */
  lemma IdentifiesTotalDepth<T>(t: BinaryTree<T>, entries: seq<Feasible<T>>)
    requires Identifies(t, entries)
    ensures TotalDepth(t) + 1 == |entries|
  {
    LeavesCountBranches(t);
    assert |multiset(Leaves(t))| == |multiset(Solutions(entries))|;
  }

  /** For every rule, the outcome values that occur in the batch. */
  method ObservedValues<T>(entries: seq<Feasible<T>>, n: nat) returns (tests: seq<set<nat>>)
    requires WellFormed(entries, n)
    ensures |tests| == n
    ensures forall j, v :: 0 <= j < n ==> (v in tests[j] <==> exists e :: e in entries && e.0[j] == v)
  {
    tests := seq(n, _ => {});
    for i := 0 to n
      invariant |tests| == n
      invariant forall j, v :: 0 <= j < i ==> (v in tests[j] <==> exists e :: e in entries && e.0[j] == v)
      invariant forall j :: i <= j < n ==> tests[j] == {}
    {
      for k := 0 to |entries|
        invariant |tests| == n
        invariant forall j, v :: 0 <= j < i ==> (v in tests[j] <==> exists e :: e in entries && e.0[j] == v)
        invariant forall j :: i < j < n ==> tests[j] == {}
        invariant forall v :: v in tests[i] <==> exists m :: 0 <= m < k && entries[m].0[i] == v
      {
        assert entries[k] in entries;
        tests := tests[i := tests[i] + {entries[k].0[i]}];
      }
      forall v ensures v in tests[i] <==> exists e :: e in entries && e.0[i] == v {
        if exists e :: e in entries && e.0[i] == v {
          var e :| e in entries && e.0[i] == v;
          var m :| 0 <= m < |entries| && entries[m] == e;
        }
      }
    }
  }

  /** Floor of the binary logarithm. */
  function Log2(n: nat): (r: nat)
    requires n >= 1
    ensures Pow2(r) <= n < 2 * Pow2(r)
  {
    if n == 1 then 0 else 1 + Log2(n / 2)
  }

  lemma MulAtLeast(a: nat, b: nat)
    requires a >= 1
    ensures a * b >= b
  {
  }

  /**
   * The driver's target for the total depth: a tree whose leaves all sit on
   * the two deepest levels of a balanced tree.
   */
  function IdealTotalSize(size: nat): (r: nat)
    requires size >= 1
    ensures r >= size
  {
    var lastPot2 := Pow2(Log2(size));
    var extra := size - lastPot2;
    var deep := extra * 2;
    var shallow := lastPot2 - extra;
    assert shallow == size - deep;
    IdealTotalSizeBound(lastPot2, extra);
    shallow * lastPot2 + deep * lastPot2 * 2
  }

  lemma IdealTotalSizeBound(lastPot2: nat, extra: nat)
    requires extra < lastPot2
    ensures (lastPot2 - extra) * lastPot2 + extra * 2 * lastPot2 * 2 >= lastPot2 + extra
  {
    var s := lastPot2 - extra;
    calc {
      s * lastPot2 + extra * 2 * lastPot2 * 2;
    ==
      (s + 4 * extra) * lastPot2;
    >= { MulAtLeast(lastPot2, s + 4 * extra); }
      s + 4 * extra;
    >=
      lastPot2 + extra;
    }
  }

  /**
   * The greedy early exit compares the total depth with the ideal size; for
   * any tree that decides the batch the two differ, so the exit is never taken.
   */
  lemma EarlyExitUnreachable<T>(t: BinaryTree<T>, entries: seq<Feasible<T>>)
    requires |entries| >= 1
    requires Identifies(t, entries)
    ensures TotalDepth(t) < IdealTotalSize(|entries|)
  {
    IdentifiesTotalDepth(t, entries);
  }

  /** a is at least as good as b: smaller maximum depth, then smaller total depth. */
  predicate NoWorse<T>(a: BinaryTree<T>, b: BinaryTree<T>) {
    MaxDepth(a) < MaxDepth(b) || (MaxDepth(a) == MaxDepth(b) && TotalDepth(a) <= TotalDepth(b))
  }

  /**
   * Sorting by decreasing quality and popping the last tree: the result is a
   * best tree, and the last best one in the list (the sort is stable).
   */
  method PopBest<T>(trees: seq<BinaryTree<T>>) returns (best: BinaryTree<T>, index: nat)
    requires |trees| > 0
    ensures index < |trees| && best == trees[index]
    ensures forall t :: t in trees ==> NoWorse(best, t)
    ensures forall j :: index < j < |trees| ==> !NoWorse(trees[j], best)
  {
    index := 0;
    for j := 1 to |trees|
      invariant index < j
      invariant forall m :: 0 <= m < j ==> NoWorse(trees[index], trees[m])
      invariant forall m :: index < m < j ==> !NoWorse(trees[m], trees[index])
    {
      if NoWorse(trees[j], trees[index]) {
        index := j;
      }
    }
    best := trees[index];
  }

  lemma MulSign(x: int, d: nat)
    ensures x >= 1 ==> x * d >= d
    ensures x <= -1 ==> x * d + d <= 0
  {
    if x >= 1 {
      MulAtLeast(x, d);
    } else if x <= -1 {
      MulAtLeast(-x, d);
    }
  }

  /** The remainder is determined by any quotient-remainder decomposition. */
  lemma ModUnique(a: nat, d: nat, q: nat, r: nat)
    requires 0 <= r < d && a == q * d + r
    ensures a % d == r
  {
    var q' := a / d;
    assert (q' - q) * d == r - a % d;
    MulSign(q' - q, d);
  }

  /** The level below sits at the next position of the round. */
  lemma NextLevelPhase(level: nat, testsPerRound: nat)
    requires testsPerRound >= 1
    ensures (level + 1) % testsPerRound == NextPhase(level % testsPerRound, testsPerRound)
  {
    var q, p := level / testsPerRound, level % testsPerRound;
    if p + 1 < testsPerRound {
      ModUnique(level + 1, testsPerRound, q, p + 1);
    } else {
      assert level + 1 == (q + 1) * testsPerRound;
      ModUnique(level + 1, testsPerRound, q + 1, 0);
    }
  }

  /**
   * The three checks a pair of candidate subtrees must pass to be kept under
   * `test`: their windows ask no rule for different outcomes, the Branch is
   * no deeper than the best tree so far, and at a round start some outcome
   * vector of the solution map gives every outcome the round may test.
   */
  ghost predicate PairAccepted<T>(test: Test, c: BinaryTree<T>, i: BinaryTree<T>, tests: seq<set<nat>>,
                                  solutionMap: map<seq<nat>, seq<T>>, phase: nat, testsPerRound: nat,
                                  best: Option<nat>)
    requires phase < testsPerRound
  {
    && !Conflicting(GetTests(c, testsPerRound - phase - 1), GetTests(i, testsPerRound - phase - 1))
    && (best.Some? ==> MaxDepth(Branch(test, c, i, None)) <= best.value)
    && (phase == 0 ==> exists p :: p in solutionMap && RoundVector(p, tests, GetTests(Branch(test, c, i, None), testsPerRound - 1)))
  }

  /** Some tree of the list is a Branch over exactly these two subtrees. */
  ghost predicate HasPair<T>(built: seq<BinaryTree<T>>, c: BinaryTree<T>, i: BinaryTree<T>) {
    exists t :: t in built && t.Branch? && t.correct == c && t.incorrect == i
  }

  /** A lower best depth accepts no pair that a higher one rejects. */
  lemma AcceptedUnderLowerBest<T>(test: Test, tests: seq<set<nat>>, solutionMap: map<seq<nat>, seq<T>>,
                                  phase: nat, testsPerRound: nat, lower: Option<nat>, higher: Option<nat>)
    requires phase < testsPerRound
    requires higher.Some? ==> lower.Some? && lower.value <= higher.value
    ensures forall c, i :: PairAccepted(test, c, i, tests, solutionMap, phase, testsPerRound, lower) ==>
      PairAccepted(test, c, i, tests, solutionMap, phase, testsPerRound, higher)
  {
  }

  /** Appending a tree keeps every pair already present. */
  lemma HasPairSnoc<T>(built: seq<BinaryTree<T>>, x: BinaryTree<T>)
    ensures forall c, i :: HasPair(built, c, i) ==> HasPair(built + [x], c, i)
    ensures x.Branch? ==> HasPair(built + [x], x.correct, x.incorrect)
  {
    forall c, i | HasPair(built, c, i) ensures HasPair(built + [x], c, i) {
      var t :| t in built && t.Branch? && t.correct == c && t.incorrect == i;
      assert t in built + [x];
    }
    if x.Branch? {
      assert x in built + [x];
    }
  }

  /** Concatenating two lists keeps the pairs of both. */
  lemma HasPairConcat<T>(built: seq<BinaryTree<T>>, added: seq<BinaryTree<T>>)
    ensures forall c, i :: HasPair(built, c, i) || HasPair(added, c, i) ==> HasPair(built + added, c, i)
  {
    forall c, i | HasPair(built, c, i) || HasPair(added, c, i) ensures HasPair(built + added, c, i) {
      var t :| (t in built || t in added) && t.Branch? && t.correct == c && t.incorrect == i;
      assert t in built + added;
    }
  }

  /**
   * A viable split of a two-entry batch whose two Leaves pass the checks
   * against `best`: the smallest case in which the search must find a tree.
   */
  ghost predicate LeafSplit<T>(entries: seq<Feasible<T>>, tests: seq<set<nat>>, solutionMap: map<seq<nat>, seq<T>>,
                               used: seq<Test>, phase: nat, testsPerRound: nat, best: Option<nat>, test: Test)
    requires phase < testsPerRound
  {
    && |entries| == 2
    && Viable(entries, tests, used, test)
    && PairAccepted(test, Leaf(Select(entries, test, true)[0].1), Leaf(Select(entries, test, false)[0].1),
                    tests, solutionMap, phase, testsPerRound, best)
  }

  /**
   * Combines every pair of candidate subtrees under one test, keeping exactly
   * the pairs that pass the checks against the best depth at that moment.
   * Since the best depth only falls, every pair that passes them against the
   * final best depth was kept, unless the search stopped early.
   */
  method CombinePairs<T(==)>(test: Test, correctTrees: seq<BinaryTree<T>>, incorrectTrees: seq<BinaryTree<T>>,
                             tests: seq<set<nat>>, solutionMap: map<seq<nat>, seq<T>>,
                             phase: nat, testsPerRound: nat, used: seq<Test>,
                             bestDepth: Option<nat>, exitAt: Option<nat>)
    returns (built: seq<BinaryTree<T>>, best: Option<nat>, done: bool)
    requires phase < testsPerRound
    requires test.0 < |tests| && !UsesIndex(used, test.0)
    requires forall p :: p in solutionMap ==> |solutionMap[p]| > 0
    requires forall t :: t in correctTrees ==>
      RoundValid(t, NextPhase(phase, testsPerRound), testsPerRound, NextUsed(used, test, phase, testsPerRound), |tests|, solutionMap)
    requires forall t :: t in incorrectTrees ==>
      RoundValid(t, NextPhase(phase, testsPerRound), testsPerRound, NextUsed(used, test, phase, testsPerRound), |tests|, solutionMap)
    requires bestDepth.Some? ==> bestDepth.value >= 1
    ensures forall t :: t in built ==>
      && t.Branch? && t.test == test && t.correct in correctTrees && t.incorrect in incorrectTrees
      && RoundValid(t, phase, testsPerRound, used, |tests|, solutionMap)
    ensures best.Some? ==> best.value >= 1
    ensures bestDepth.Some? ==> best.Some? && best.value <= bestDepth.value
    ensures built == [] ==> best == bestDepth
    ensures done ==> exitAt.Some? && built != [] && TotalDepth(built[|built| - 1]) == exitAt.value
    ensures !done ==> forall c, i ::
      (c in correctTrees && i in incorrectTrees &&
       PairAccepted(test, c, i, tests, solutionMap, phase, testsPerRound, best)) ==> HasPair(built, c, i)
  {
    built, best, done := [], bestDepth, false;
    for a := 0 to |correctTrees|
      invariant forall t :: t in built ==>
        && t.Branch? && t.test == test && t.correct in correctTrees && t.incorrect in incorrectTrees
        && RoundValid(t, phase, testsPerRound, used, |tests|, solutionMap)
      invariant best.Some? ==> best.value >= 1
      invariant bestDepth.Some? ==> best.Some? && best.value <= bestDepth.value
      invariant built == [] ==> best == bestDepth
      invariant forall c, i ::
        (c in correctTrees[..a] && i in incorrectTrees &&
         PairAccepted(test, c, i, tests, solutionMap, phase, testsPerRound, best)) ==> HasPair(built, c, i)
    {
      var correct := correctTrees[a];
      var added, rowBest, rowDone := CombineRow(test, correct, incorrectTrees, tests, solutionMap,
                                                phase, testsPerRound, used, best, exitAt);
      AcceptedUnderLowerBest(test, tests, solutionMap, phase, testsPerRound, rowBest, best);
      HasPairConcat(built, added);
      assert correctTrees[..a + 1] == correctTrees[..a] + [correct];
      built, best := built + added, rowBest;
      if rowDone {
        done := true;
        return;
      }
    }
    assert correctTrees[..|correctTrees|] == correctTrees;
  }

  /**
   * The pairs of one correct-side subtree with every incorrect-side subtree,
   * in order, each checked against the best depth at that moment.
   */
  method CombineRow<T(==)>(test: Test, correct: BinaryTree<T>, incorrectTrees: seq<BinaryTree<T>>,
                           tests: seq<set<nat>>, solutionMap: map<seq<nat>, seq<T>>,
                           phase: nat, testsPerRound: nat, used: seq<Test>,
                           bestDepth: Option<nat>, exitAt: Option<nat>)
    returns (added: seq<BinaryTree<T>>, best: Option<nat>, done: bool)
    requires phase < testsPerRound
    requires test.0 < |tests| && !UsesIndex(used, test.0)
    requires forall p :: p in solutionMap ==> |solutionMap[p]| > 0
    requires RoundValid(correct, NextPhase(phase, testsPerRound), testsPerRound, NextUsed(used, test, phase, testsPerRound), |tests|, solutionMap)
    requires forall t :: t in incorrectTrees ==>
      RoundValid(t, NextPhase(phase, testsPerRound), testsPerRound, NextUsed(used, test, phase, testsPerRound), |tests|, solutionMap)
    requires bestDepth.Some? ==> bestDepth.value >= 1
    ensures forall t :: t in added ==>
      && t.Branch? && t.test == test && t.correct == correct && t.incorrect in incorrectTrees
      && RoundValid(t, phase, testsPerRound, used, |tests|, solutionMap)
    ensures best.Some? ==> best.value >= 1
    ensures bestDepth.Some? ==> best.Some? && best.value <= bestDepth.value
    ensures added == [] ==> best == bestDepth
    ensures done ==> exitAt.Some? && added != [] && TotalDepth(added[|added| - 1]) == exitAt.value
    ensures !done ==> forall i ::
      (i in incorrectTrees && PairAccepted(test, correct, i, tests, solutionMap, phase, testsPerRound, best)) ==>
        HasPair(added, correct, i)
  {
    added, best, done := [], bestDepth, false;
    var testsC := CollectTests(correct, testsPerRound - phase - 1);
    for b := 0 to |incorrectTrees|
      invariant forall t :: t in added ==>
        && t.Branch? && t.test == test && t.correct == correct && t.incorrect in incorrectTrees
        && RoundValid(t, phase, testsPerRound, used, |tests|, solutionMap)
      invariant best.Some? ==> best.value >= 1
      invariant bestDepth.Some? ==> best.Some? && best.value <= bestDepth.value
      invariant added == [] ==> best == bestDepth
      invariant forall i ::
        (i in incorrectTrees[..b] && PairAccepted(test, correct, i, tests, solutionMap, phase, testsPerRound, best)) ==>
          HasPair(added, correct, i)
    {
      var incorrect := incorrectTrees[b];
      assert incorrectTrees[..b + 1] == incorrectTrees[..b] + [incorrect];
      var candidate := AssembleBranch(test, correct, incorrect, testsC, tests, solutionMap,
                                      phase, testsPerRound, used, best);
      if candidate.None? {
        continue;
      }
      var branch := candidate.value;
      var newBest := Some(MaxDepth(branch));
      AcceptedUnderLowerBest(test, tests, solutionMap, phase, testsPerRound, newBest, best);
      HasPairSnoc(added, branch);
      added := added + [branch];
      best := newBest;
      if exitAt.Some? && TotalDepth(branch) == exitAt.value {
        done := true;
        return;
      }
    }
    assert incorrectTrees[..|incorrectTrees|] == incorrectTrees;
  }

  /**
   * One pair of candidate subtrees under the test: a Branch over them exactly
   * when the pair passes the three checks against the best depth so far.
   */
  method AssembleBranch<T(==)>(test: Test, correct: BinaryTree<T>, incorrect: BinaryTree<T>, testsC: set<Test>,
                               tests: seq<set<nat>>, solutionMap: map<seq<nat>, seq<T>>,
                               phase: nat, testsPerRound: nat, used: seq<Test>, best: Option<nat>)
    returns (branch: Option<BinaryTree<T>>)
    requires phase < testsPerRound
    requires test.0 < |tests| && !UsesIndex(used, test.0)
    requires forall p :: p in solutionMap ==> |solutionMap[p]| > 0
    requires testsC == GetTests(correct, testsPerRound - phase - 1)
    requires RoundValid(correct, NextPhase(phase, testsPerRound), testsPerRound, NextUsed(used, test, phase, testsPerRound), |tests|, solutionMap)
    requires RoundValid(incorrect, NextPhase(phase, testsPerRound), testsPerRound, NextUsed(used, test, phase, testsPerRound), |tests|, solutionMap)
    ensures branch.Some? <==> PairAccepted(test, correct, incorrect, tests, solutionMap, phase, testsPerRound, best)
    ensures branch.Some? ==> branch.value.Branch? && branch.value.test == test
    ensures branch.Some? ==> branch.value.correct == correct && branch.value.incorrect == incorrect
    ensures branch.Some? ==> RoundValid(branch.value, phase, testsPerRound, used, |tests|, solutionMap)
    ensures branch.Some? && best.Some? ==> MaxDepth(branch.value) <= best.value
  {
    var testsI := CollectTests(incorrect, testsPerRound - phase - 1);
    var conflict := HasConflict(testsC, testsI);
    if conflict {
      return None;
    }
    var candidate := Branch(test, correct, incorrect, None);
    if best.Some? && best.value < MaxDepth(candidate) {
      return None;
    }
    if phase == 0 {
      var code := RoundStartCode(test, correct, incorrect, tests, solutionMap, testsPerRound, used);
      if code.None? {
        return None;
      }
      candidate := Branch(test, correct, incorrect, code);
    }
    return Some(candidate);
  }

  /**
   * The code of a Branch that starts a round: the resolver's code for the
   * tests of the whole round below the Branch; none exactly when no outcome
   * vector of the map gives every one of those outcomes.
   */
  method RoundStartCode<T(==)>(test: Test, correct: BinaryTree<T>, incorrect: BinaryTree<T>,
                               tests: seq<set<nat>>, solutionMap: map<seq<nat>, seq<T>>,
                               testsPerRound: nat, used: seq<Test>)
    returns (code: Option<T>)
    requires 0 < testsPerRound
    requires test.0 < |tests| && !UsesIndex(used, test.0)
    requires forall p :: p in solutionMap ==> |solutionMap[p]| > 0
    requires !Conflicting(GetTests(correct, testsPerRound - 1), GetTests(incorrect, testsPerRound - 1))
    requires RoundValid(correct, NextPhase(0, testsPerRound), testsPerRound, NextUsed(used, test, 0, testsPerRound), |tests|, solutionMap)
    requires RoundValid(incorrect, NextPhase(0, testsPerRound), testsPerRound, NextUsed(used, test, 0, testsPerRound), |tests|, solutionMap)
    ensures code.Some? ==> IsRoundCode(code.value, GetTests(Branch(test, correct, incorrect, code), testsPerRound - 1), |tests|, solutionMap)
    ensures code.Some? ==> exists p ::
      p in solutionMap && solutionMap[p][0] == code.value &&
      RoundVector(p, tests, GetTests(Branch(test, correct, incorrect, None), testsPerRound - 1))
    ensures code.None? ==> forall p :: p in solutionMap ==>
      !RoundVector(p, tests, GetTests(Branch(test, correct, incorrect, None), testsPerRound - 1))
  {
    var committed := CollectTests(Branch(test, correct, incorrect, None), testsPerRound - 1);
    BranchWindow(test, correct, incorrect, None, 0, testsPerRound, used, |tests|, solutionMap);
    code := FindRoundCode(tests, committed, solutionMap);
    assert GetTests(Branch(test, correct, incorrect, code), testsPerRound - 1) == committed;
  }

  /** Whether the abort bound inherited from the root is safe to use at this level. */
  predicate AbortBound(size: nat, currentLevel: nat, abortLevel: Option<nat>) {
    currentLevel > 0 && abortLevel.Some? ==>
      currentLevel <= abortLevel.value && size <= Pow2(abortLevel.value - currentLevel)
  }

  /**
   * The depth bound in force leaves room for at least one more level below a
   * batch of two or more candidates.
   */
  lemma AbortRoom(size: nat, currentLevel: nat, abortLevel: Option<nat>, bestDepth: Option<nat>)
    requires size >= 2
    requires AbortBound(size, currentLevel, abortLevel)
    requires bestDepth.Some? ==> bestDepth.value >= 1
    ensures currentLevel == 0 && bestDepth.Some? ==> bestDepth.value >= currentLevel + 1
    ensures currentLevel > 0 && abortLevel.Some? ==> abortLevel.value >= currentLevel + 1
  {
  }

  /**
   * The candidate trees for one side of a split: the search continues on the
   * next level inside a round, and restarts from scratch after the last
   * test of a round.
   */
  method SubTrees<T(==)>(part: seq<Feasible<T>>, tests: seq<set<nat>>, solutionMap: map<seq<nat>, seq<T>>,
                         currentLevel: nat, abort: Option<nat>, testsPerRound: nat, optimalDepth: nat,
                         nextSplits: seq<Test>)
    returns (trees: seq<BinaryTree<T>>)
    requires testsPerRound >= 1
    requires WellFormed(part, |tests|)
    requires forall p :: p in solutionMap ==> |solutionMap[p]| > 0
    requires currentLevel % testsPerRound == testsPerRound - 1 ==> nextSplits == []
    requires AbortBound(|part|, currentLevel + 1, abort)
    ensures |part| == 1 ==> trees == [Leaf(part[0].1)]
    ensures forall t :: t in trees ==>
      Identifies(t, part) && RoundValid(t, (currentLevel + 1) % testsPerRound, testsPerRound, nextSplits, |tests|, solutionMap)
    decreases |part|, 5
  {
    NextLevelPhase(currentLevel, testsPerRound);
    if currentLevel % testsPerRound == testsPerRound - 1 {
      var r, _, _ := OptimalTree(part, solutionMap, testsPerRound);
      assert r.Some? ==> part[0] in part;
      trees := if r.Some? then [r.value] else [];
    } else {
      trees := ConstructTreesRec(part, tests, solutionMap, currentLevel + 1, abort, testsPerRound, optimalDepth, nextSplits);
    }
  }

  /**
   * Whether both sides of a split fit under the depth bound in force: below
   * the next level there is room for at most 2^(a - 1 - level) candidates.
   * Sides that fit keep the bound for the level below, and sides of one
   * candidate always fit.
   */
  function SidesFit(correct: nat, incorrect: nat, currentLevel: nat, abort: Option<nat>): (r: bool)
    requires abort.Some? ==> abort.value >= currentLevel + 1
    ensures r ==> AbortBound(correct, currentLevel + 1, abort) && AbortBound(incorrect, currentLevel + 1, abort)
    ensures correct <= 1 && incorrect <= 1 ==> r
  {
    abort.None? ||
      (correct <= Pow2(abort.value - 1 - currentLevel) && incorrect <= Pow2(abort.value - 1 - currentLevel))
  }

  /**
   * Combining two single Leaves that pass the checks against the best depth
   * on entry keeps a tree: with nothing kept the best depth is unchanged, and
   * the pair would have been kept.
   */
  lemma LeafPairKept<T>(test: Test, a: T, b: T, correctTrees: seq<BinaryTree<T>>, incorrectTrees: seq<BinaryTree<T>>,
                        built: seq<BinaryTree<T>>, tests: seq<set<nat>>, solutionMap: map<seq<nat>, seq<T>>,
                        phase: nat, testsPerRound: nat, bestDepth: Option<nat>, best: Option<nat>)
    requires phase < testsPerRound
    requires correctTrees == [Leaf(a)] && incorrectTrees == [Leaf(b)]
    requires PairAccepted(test, Leaf(a), Leaf(b), tests, solutionMap, phase, testsPerRound, bestDepth)
    requires built == [] ==> best == bestDepth
    requires forall c, i ::
      (c in correctTrees && i in incorrectTrees &&
       PairAccepted(test, c, i, tests, solutionMap, phase, testsPerRound, best)) ==> HasPair(built, c, i)
    ensures built != []
  {
    assert Leaf(a) in correctTrees && Leaf(b) in incorrectTrees;
  }

  /** Both sides of a LeafSplit hold exactly one entry. */
  lemma LeafSplitSides<T>(entries: seq<Feasible<T>>, tests: seq<set<nat>>, solutionMap: map<seq<nat>, seq<T>>,
                          used: seq<Test>, phase: nat, testsPerRound: nat, best: Option<nat>, node: TestResult<T>)
    requires phase < testsPerRound
    requires ValidNode(entries, tests, used, node)
    ensures LeafSplit(entries, tests, solutionMap, used, phase, testsPerRound, best, node.test) ==>
      |node.correct| == 1 && |node.incorrect| == 1
  {
    SelectPartitions(entries, node.test);
  }

  /**
   * One split of the search: skips it when a side is too large to fit under
   * the depth bound in force, otherwise searches both sides.
   */
  method TrySplit<T(==)>(entries: seq<Feasible<T>>, tests: seq<set<nat>>, solutionMap: map<seq<nat>, seq<T>>,
                         currentLevel: nat, abortLevel: Option<nat>, testsPerRound: nat, optimalDepth: nat,
                         usedTests: seq<Test>, node: TestResult<T>, bestDepth: Option<nat>)
    returns (built: seq<BinaryTree<T>>, best: Option<nat>, done: bool)
    requires testsPerRound >= 1
    requires WellFormed(entries, |tests|)
    requires forall p :: p in solutionMap ==> |solutionMap[p]| > 0
    requires AbortBound(|entries|, currentLevel, abortLevel)
    requires ValidNode(entries, tests, usedTests, node)
    requires bestDepth.Some? ==> bestDepth.value >= 1
    ensures forall t :: t in built ==>
      && t.Branch? && Viable(entries, tests, usedTests, t.test)
      && Identifies(t, entries) && RoundValid(t, currentLevel % testsPerRound, testsPerRound, usedTests, |tests|, solutionMap)
    ensures best.Some? ==> best.value >= 1
    ensures built == [] ==> best == bestDepth
    ensures LeafSplit(entries, tests, solutionMap, usedTests, currentLevel % testsPerRound, testsPerRound, bestDepth, node.test) ==>
      built != []
    ensures done ==> currentLevel == 0 && built != [] && TotalDepth(built[|built| - 1]) == optimalDepth
    decreases |entries|, 1
  {
    SelectPartitions(entries, node.test);
    var abort := if currentLevel == 0 then bestDepth else abortLevel;
    AbortRoom(|entries|, currentLevel, abortLevel, bestDepth);
    LeafSplitSides(entries, tests, solutionMap, usedTests, currentLevel % testsPerRound, testsPerRound, bestDepth, node);
    if !SidesFit(|node.correct|, |node.incorrect|, currentLevel, abort) {
      return [], bestDepth, false;
    }
    built, best, done := SearchSides(entries, tests, solutionMap, currentLevel, abort, testsPerRound, optimalDepth,
                                     usedTests, node, bestDepth);
  }

  /**
   * Searches both sides of a split on the next level (or from scratch after
   * the last test of a round) and combines the pairs under the split's test.
   */
  method SearchSides<T(==)>(entries: seq<Feasible<T>>, tests: seq<set<nat>>, solutionMap: map<seq<nat>, seq<T>>,
                            currentLevel: nat, abort: Option<nat>, testsPerRound: nat, optimalDepth: nat,
                            usedTests: seq<Test>, node: TestResult<T>, bestDepth: Option<nat>)
    returns (built: seq<BinaryTree<T>>, best: Option<nat>, done: bool)
    requires testsPerRound >= 1
    requires WellFormed(entries, |tests|)
    requires forall p :: p in solutionMap ==> |solutionMap[p]| > 0
    requires ValidNode(entries, tests, usedTests, node)
    requires |node.correct| < |entries| && |node.incorrect| < |entries|
    requires AbortBound(|node.correct|, currentLevel + 1, abort) && AbortBound(|node.incorrect|, currentLevel + 1, abort)
    requires bestDepth.Some? ==> bestDepth.value >= 1
    ensures forall t :: t in built ==>
      && t.Branch? && Viable(entries, tests, usedTests, t.test)
      && Identifies(t, entries) && RoundValid(t, currentLevel % testsPerRound, testsPerRound, usedTests, |tests|, solutionMap)
    ensures best.Some? ==> best.value >= 1
    ensures built == [] ==> best == bestDepth
    ensures LeafSplit(entries, tests, solutionMap, usedTests, currentLevel % testsPerRound, testsPerRound, bestDepth, node.test) ==>
      built != []
    ensures done ==> currentLevel == 0 && built != [] && TotalDepth(built[|built| - 1]) == optimalDepth
    decreases |entries|, 0
  {
    var phase := currentLevel % testsPerRound;
    NextLevelPhase(currentLevel, testsPerRound);
    SelectWellFormed(entries, node.test, true, |tests|);
    SelectWellFormed(entries, node.test, false, |tests|);
    var nextSplits := if phase == testsPerRound - 1 then [] else usedTests + [node.test];
    var correctTrees := SubTrees(node.correct, tests, solutionMap, currentLevel, abort, testsPerRound, optimalDepth, nextSplits);
    var incorrectTrees := SubTrees(node.incorrect, tests, solutionMap, currentLevel, abort, testsPerRound, optimalDepth, nextSplits);
    built, best, done := CombinePairs(node.test, correctTrees, incorrectTrees, tests, solutionMap,
                                      phase, testsPerRound, usedTests, bestDepth,
                                      if currentLevel == 0 then Some(optimalDepth) else None);
    BranchesIdentify(built, node.test, correctTrees, incorrectTrees, entries);
    if LeafSplit(entries, tests, solutionMap, usedTests, phase, testsPerRound, bestDepth, node.test) && built == [] {
      assert false;
    }
  }

  /**
   * When no split of the sorted list is a LeafSplit, none of the batch is,
   * since the list holds a node for every viable split.
   */
  lemma NoLeafSplitLeft<T>(entries: seq<Feasible<T>>, tests: seq<set<nat>>, solutionMap: map<seq<nat>, seq<T>>,
                           used: seq<Test>, phase: nat, testsPerRound: nat,
                           candidates: seq<TestResult<T>>, nodes: seq<TestResult<T>>)
    requires phase < testsPerRound
    requires multiset(nodes) == multiset(candidates)
    requires forall test: Test :: Viable(entries, tests, used, test) ==> exists r :: r in candidates && r.test == test
    requires forall j :: 0 <= j < |nodes| ==> !LeafSplit(entries, tests, solutionMap, used, phase, testsPerRound, None, nodes[j].test)
    ensures forall test :: !LeafSplit(entries, tests, solutionMap, used, phase, testsPerRound, None, test)
  {
    forall test | Viable(entries, tests, used, test)
      ensures exists j :: 0 <= j < |nodes| && nodes[j].test == test
    {
      var r :| r in candidates && r.test == test;
      assert r in multiset(nodes);
      var j :| 0 <= j < |nodes| && nodes[j] == r;
    }
  }

  /**
   * The recursive search. A single candidate is a Leaf. Otherwise every
   * viable split is tried, most even first; the first tree found at the root
   * bounds the depth of the rest, and reaching the ideal total depth at the
   * root stops the search. Every tree returned decides the batch and keeps
   * the round discipline from this level on.
   */
  method ConstructTreesRec<T(==)>(entries: seq<Feasible<T>>, tests: seq<set<nat>>, solutionMap: map<seq<nat>, seq<T>>,
                                  currentLevel: nat, abortLevel: Option<nat>, testsPerRound: nat, optimalDepth: nat,
                                  usedTests: seq<Test>)
    returns (trees: seq<BinaryTree<T>>)
    requires testsPerRound >= 1
    requires WellFormed(entries, |tests|)
    requires forall p :: p in solutionMap ==> |solutionMap[p]| > 0
    requires AbortBound(|entries|, currentLevel, abortLevel)
    ensures |entries| == 1 ==> trees == [Leaf(entries[0].1)]
    ensures |entries| != 1 ==> forall t :: t in trees ==> t.Branch? && Viable(entries, tests, usedTests, t.test)
    ensures (exists test :: LeafSplit(entries, tests, solutionMap, usedTests, currentLevel % testsPerRound, testsPerRound, None, test)) ==>
      trees != []
    ensures forall t :: t in trees ==>
      Identifies(t, entries) && RoundValid(t, currentLevel % testsPerRound, testsPerRound, usedTests, |tests|, solutionMap)
    decreases |entries|, 3
  {
    if |entries| == 1 {
      assert Solutions(entries) == [entries[0].1];
      return [Leaf(entries[0].1)];
    }
    var candidates := CandidateSplits(entries, tests, usedTests);
    var nodes := SortDesc(candidates, (r: TestResult<T>) => EstimatedValue(r));
    forall node | node in nodes
      ensures ValidNode(entries, tests, usedTests, node)
    {
      assert node in multiset(nodes);
    }
    trees := TryNodes(entries, tests, solutionMap, currentLevel, abortLevel, testsPerRound, optimalDepth, usedTests, nodes);
    if trees == [] {
      NoLeafSplitLeft(entries, tests, solutionMap, usedTests, currentLevel % testsPerRound, testsPerRound, candidates, nodes);
    }
  }

  /**
   * Every split of the list in turn: the trees of each are appended, the
   * best depth found so far bounds the next, and reaching the ideal total
   * depth at the root stops the search. When no tree is found, no split of
   * the list was a LeafSplit.
   */
  method TryNodes<T(==)>(entries: seq<Feasible<T>>, tests: seq<set<nat>>, solutionMap: map<seq<nat>, seq<T>>,
                         currentLevel: nat, abortLevel: Option<nat>, testsPerRound: nat, optimalDepth: nat,
                         usedTests: seq<Test>, nodes: seq<TestResult<T>>)
    returns (trees: seq<BinaryTree<T>>)
    requires testsPerRound >= 1
    requires WellFormed(entries, |tests|)
    requires forall p :: p in solutionMap ==> |solutionMap[p]| > 0
    requires AbortBound(|entries|, currentLevel, abortLevel)
    requires forall node :: node in nodes ==> ValidNode(entries, tests, usedTests, node)
    ensures forall t :: t in trees ==>
      && t.Branch? && Viable(entries, tests, usedTests, t.test)
      && Identifies(t, entries) && RoundValid(t, currentLevel % testsPerRound, testsPerRound, usedTests, |tests|, solutionMap)
    ensures trees == [] ==> forall j :: 0 <= j < |nodes| ==>
      !LeafSplit(entries, tests, solutionMap, usedTests, currentLevel % testsPerRound, testsPerRound, None, nodes[j].test)
    decreases |entries|, 2
  {
    trees := [];
    var bestDepth: Option<nat> := None;
    for k := 0 to |nodes|
      invariant forall t :: t in trees ==>
        && t.Branch? && Viable(entries, tests, usedTests, t.test)
        && Identifies(t, entries) && RoundValid(t, currentLevel % testsPerRound, testsPerRound, usedTests, |tests|, solutionMap)
      invariant bestDepth.Some? ==> bestDepth.value >= 1
      invariant trees == [] ==> bestDepth.None?
      invariant trees == [] ==> forall j :: 0 <= j < k ==>
        !LeafSplit(entries, tests, solutionMap, usedTests, currentLevel % testsPerRound, testsPerRound, None, nodes[j].test)
    {
      var built, best, done := TrySplit(entries, tests, solutionMap, currentLevel, abortLevel, testsPerRound,
                                        optimalDepth, usedTests, nodes[k], bestDepth);
      trees := trees + built;
      bestDepth := best;
      if done {
        return;
      }
    }
  }

  /**
   * Two entries with different outcome vectors, one of them a key of the
   * map, always have a LeafSplit at the root: the test of a rule on which
   * they differ, passed by the entry whose vector is in the map.
   */
  lemma TwoEntryLeafSplit<T>(entries: seq<Feasible<T>>, tests: seq<set<nat>>, solutionMap: map<seq<nat>, seq<T>>,
                             testsPerRound: nat)
    requires testsPerRound >= 1
    requires |entries| == 2 && |entries[0].0| == |tests| && |entries[1].0| == |tests|
    requires forall j, v :: 0 <= j < |tests| ==> (v in tests[j] <==> exists e :: e in entries && e.0[j] == v)
    requires entries[0].0 != entries[1].0
    requires entries[0].0 in solutionMap || entries[1].0 in solutionMap
    ensures exists test :: LeafSplit(entries, tests, solutionMap, [], 0, testsPerRound, None, test)
  {
    var k := if entries[0].0 in solutionMap then 0 else 1;
    var p := entries[k].0;
    var j :| 0 <= j < |tests| && entries[0].0[j] != entries[1].0[j];
    var test := (j, p[j]);
    assert entries[..1][..0] == [];
    assert Passes(entries[k].0, test) && !Passes(entries[1 - k].0, test);
    assert Select(entries[..1], test, true) == if k == 0 then [entries[0]] else [];
    assert Select(entries[..1], test, false) == if k == 0 then [] else [entries[0]];
    assert Select(entries, test, true) == [entries[k]];
    assert Select(entries, test, false) == [entries[1 - k]];
    var branch: BinaryTree<T> := Branch(test, Leaf(entries[k].1), Leaf(entries[1 - k].1), None);
    assert GetTests(branch, testsPerRound - 1) == {test};
    forall i | 0 <= i < |tests| && !Commits({test}, i)
      ensures p[i] in tests[i]
    {
      assert entries[k] in entries;
    }
    assert RoundVector(p, tests, {test});
    assert LeafSplit(entries, tests, solutionMap, [], 0, testsPerRound, None, test);
  }

  /**
   * The driver: no tree for an empty batch; otherwise the observed outcome
   * values, the ideal size, the search from level 0 with no claimed tests and
   * no bound, and the best of the trees found, if any. The ghost `candidates`
   * are the trees the search found; the result is the last of them that is
   * no worse than any other.
   */
  method OptimalTree<T(==)>(entries: seq<Feasible<T>>, solutionMap: map<seq<nat>, seq<T>>, testsPerRound: nat)
    returns (r: Option<BinaryTree<T>>, ghost candidates: seq<BinaryTree<T>>, ghost index: nat)
    requires testsPerRound >= 1
    requires entries != [] ==> WellFormed(entries, |entries[0].0|)
    requires forall p :: p in solutionMap ==> |solutionMap[p]| > 0
    ensures entries == [] ==> r.None?
    ensures |entries| == 1 ==> r == Some(Leaf(entries[0].1))
    ensures |entries| == 2 && entries[0].0 != entries[1].0 && (entries[0].0 in solutionMap || entries[1].0 in solutionMap) ==>
      r.Some?
    ensures r.None? <==> candidates == []
    ensures forall t :: t in candidates ==>
      entries != [] && Identifies(t, entries) && RoundValid(t, 0, testsPerRound, [], |entries[0].0|, solutionMap)
    ensures r.Some? ==> index < |candidates| && r.value == candidates[index]
    ensures r.Some? ==> forall t :: t in candidates ==> NoWorse(r.value, t)
    ensures r.Some? ==> forall j :: index < j < |candidates| ==> !NoWorse(candidates[j], r.value)
    ensures r.Some? ==> TotalDepth(r.value) + 1 == |entries|
    decreases |entries|, 4
  {
    if entries == [] {
      return None, [], 0;
    }
    var n := |entries[0].0|;
    var tests := ObservedValues(entries, n);
    var totalSize := IdealTotalSize(|entries|);
    if |entries| == 2 && entries[0].0 != entries[1].0 && (entries[0].0 in solutionMap || entries[1].0 in solutionMap) {
      TwoEntryLeafSplit(entries, tests, solutionMap, testsPerRound);
      assert 0 % testsPerRound == 0;
    }
    var trees := ConstructTreesRec(entries, tests, solutionMap, 0, None, testsPerRound, totalSize, []);
    candidates := trees;
    if trees == [] {
      return None, candidates, 0;
    }
    var best, i := PopBest(trees);
    index := i;
    assert best in trees;
    IdentifiesTotalDepth(best, entries);
    return Some(best), candidates, index;
  }
}
