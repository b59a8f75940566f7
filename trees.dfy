/**
 * The decision tree the solver builds: a Branch names a test (a rule index
 * and the outcome value that counts as "passed") and owns the subtree for
 * the candidates that pass it and the subtree for those that fail it; a
 * Leaf names the solution that remains.
 */
module Trees {
  import opened Wrappers

  /** A test: the index of a rule and the outcome that makes it pass. */
  type Test = (nat, nat)

  /** A candidate solution together with its outcome vector. */
  type Feasible<T> = (seq<nat>, T)

  /**
   * A Branch's `code`, when present, is the code the player enters for every
   * test of the round that starts at this Branch.
   */
  datatype BinaryTree<T> =
    | Leaf(solution: T)
    | Branch(test: Test, correct: BinaryTree<T>, incorrect: BinaryTree<T>, code: Option<T>)

  function Max(a: nat, b: nat): nat { if a < b then b else a }

  function Pow2(n: nat): (r: nat)
    ensures r >= 1
  {
    if n == 0 then 1 else 2 * Pow2(n - 1)
  }

  lemma Pow2Monotone(a: nat, b: nat)
    requires a <= b
    ensures Pow2(a) <= Pow2(b)
  {
    if a < b { Pow2Monotone(a, b - 1); }
  }

  /** Longest number of tests on a path from the root to a leaf; only a Leaf has none. */
  function MaxDepth<T>(t: BinaryTree<T>): (r: nat)
    ensures r == 0 <==> t.Leaf?
  {
    match t
    case Leaf(_) => 0
    case Branch(_, c, i, _) => 1 + Max(MaxDepth(c), MaxDepth(i))
  }

  /**
   * The program's "total depth": one for each Branch node of the tree. A
   * path from the root meets distinct Branch nodes, so it is never below the
   * depth.
   */
  function TotalDepth<T>(t: BinaryTree<T>): (r: nat)
    ensures r >= MaxDepth(t)
  {
    match t
    case Leaf(_) => 0
    case Branch(_, c, i, _) => 1 + TotalDepth(c) + TotalDepth(i)
  }

  /** Number of nodes, leaves included: always odd, as every Branch has two children. */
  function Size<T>(t: BinaryTree<T>): (r: nat)
    ensures r % 2 == 1
  {
    match t
    case Leaf(_) => 1
    case Branch(_, c, i, _) => 1 + Size(c) + Size(i)
  }

  /** The solutions at the leaves, passed subtree first. */
  function Leaves<T>(t: BinaryTree<T>): seq<T> {
    match t
    case Leaf(s) => [s]
    case Branch(_, c, i, _) => Leaves(c) + Leaves(i)
  }

  /** The tests met from this node down to `subLevels` levels below it. */
  function GetTests<T>(t: BinaryTree<T>, subLevels: nat): set<Test> {
    match t
    case Leaf(_) => {}
    case Branch(test, c, i, _) =>
      if subLevels > 0 then {test} + GetTests(c, subLevels - 1) + GetTests(i, subLevels - 1)
      else {test}
  }

  /** Whether a solution with this outcome vector passes the test. */
  predicate Passes(outcome: seq<nat>, test: Test) {
    test.0 < |outcome| && outcome[test.0] == test.1
  }

  /** The leaf reached by answering every test as `outcome` dictates. */
  function Walk<T>(t: BinaryTree<T>, outcome: seq<nat>): T {
    match t
    case Leaf(s) => s
    case Branch(test, c, i, _) => if Passes(outcome, test) then Walk(c, outcome) else Walk(i, outcome)
  }

  /**
   * The node count is odd and determined by the Branch count: every Branch
   * has exactly two children.
   */
  lemma {:induction false} SizeIsTwiceTotalDepthPlusOne<T>(t: BinaryTree<T>)
    ensures Size(t) == 2 * TotalDepth(t) + 1
  {
    match t
    case Leaf(_) =>
    case Branch(_, c, i, _) =>
      SizeIsTwiceTotalDepthPlusOne(c);
      SizeIsTwiceTotalDepthPlusOne(i);
  }

  /** A tree has one more leaf than it has Branch nodes. */
  lemma {:induction false} LeavesCountBranches<T>(t: BinaryTree<T>)
    ensures |Leaves(t)| == TotalDepth(t) + 1
  {
    match t
    case Leaf(_) =>
    case Branch(_, c, i, _) =>
      LeavesCountBranches(c);
      LeavesCountBranches(i);
  }

  /**
   * Depth bounds: the longest path is no longer than the Branch count, and
   * `d` levels distinguish at most 2^d solutions.
   */
  lemma {:induction false} DepthBounds<T>(t: BinaryTree<T>)
    ensures MaxDepth(t) <= TotalDepth(t)
    ensures |Leaves(t)| <= Pow2(MaxDepth(t))
    ensures t.Branch? <==> MaxDepth(t) >= 1
  {
    match t
    case Leaf(_) =>
    case Branch(_, c, i, _) =>
      DepthBounds(c);
      DepthBounds(i);
      var m := Max(MaxDepth(c), MaxDepth(i));
      Pow2Monotone(MaxDepth(c), m);
      Pow2Monotone(MaxDepth(i), m);
  }

  /**
   * The window of tests: empty at a Leaf, always holding a Branch's own test,
   * exactly that test at window 0, and growing with the window.
   */
  lemma {:induction false} GetTestsWindow<T>(t: BinaryTree<T>, k: nat)
    ensures t.Leaf? ==> GetTests(t, k) == {}
    ensures t.Branch? ==> t.test in GetTests(t, k) && GetTests(t, 0) == {t.test}
    ensures GetTests(t, k) <= GetTests(t, k + 1)
  {
    match t
    case Leaf(_) =>
    case Branch(_, c, i, _) =>
      if k > 0 {
        GetTestsWindow(c, k - 1);
        GetTestsWindow(i, k - 1);
      }
  }

  /** Monotonicity of the window over any distance. */
  lemma GetTestsMonotone<T>(t: BinaryTree<T>, j: nat, k: nat)
    requires j <= k
    ensures GetTests(t, j) <= GetTests(t, k)
    decreases k - j
  {
    if j < k {
      GetTestsWindow(t, j);
      GetTestsMonotone(t, j + 1, k);
    }
  }

  /**
   * Collects the tests of the window the way the program does: its own test,
   * then each test of both children's windows inserted one at a time.
   */
  method CollectTests<T>(t: BinaryTree<T>, subLevels: nat) returns (tests: set<Test>)
    ensures tests == GetTests(t, subLevels)
  {
    if t.Leaf? {
      return {};
    }
    tests := {t.test};
    if subLevels > 0 {
      var fromCorrect := CollectTests(t.correct, subLevels - 1);
      var fromIncorrect := CollectTests(t.incorrect, subLevels - 1);
      var rest := fromCorrect;
      while rest != {}
        invariant rest <= fromCorrect
        invariant tests == {t.test} + (fromCorrect - rest)
        decreases rest
      {
        var x :| x in rest;
        tests := tests + {x};
        rest := rest - {x};
      }
      rest := fromIncorrect;
      while rest != {}
        invariant rest <= fromIncorrect
        invariant tests == {t.test} + fromCorrect + (fromIncorrect - rest)
        decreases rest
      {
        var x :| x in rest;
        tests := tests + {x};
        rest := rest - {x};
      }
    }
  }
}
