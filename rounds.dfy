/**
 * Rounds: the tests of one round are all performed with one code, chosen
 * when the round starts. A tree is playable when, at every round start, one
 * code produces every outcome that any path through the round may test.
 */
module Rounds {
  import opened Wrappers
  import opened Trees
  import opened Splitter
  import opened Permutations

  /** Two test sets ask for different outcomes of the same rule. */
  predicate Conflicting(a: set<Test>, b: set<Test>) {
    exists x, y :: x in a && y in b && x.0 == y.0 && x.1 != y.1
  }

  /** A test set asks for at most one outcome per rule. */
  predicate Consistent(s: set<Test>) {
    !Conflicting(s, s)
  }

  /** The set commits rule j to some outcome. */
  predicate Commits(s: set<Test>, j: nat) {
    exists x :: x in s && x.0 == j
  }

  /** The outcome vector p gives every committed outcome. */
  predicate Matches(p: seq<nat>, s: set<Test>) {
    forall x :: x in s ==> x.0 < |p| && p[x.0] == x.1
  }

  /**
   * An outcome vector the resolver may pick: the committed outcomes at the
   * committed rules, and at every other rule one of the observed values.
   */
  predicate RoundVector(p: seq<nat>, tests: seq<set<nat>>, committed: set<Test>) {
    && |p| == |tests|
    && Matches(p, committed)
    && forall j :: 0 <= j < |tests| && !Commits(committed, j) ==> p[j] in tests[j]
  }

  /** x is the first code listed under an outcome vector that gives every committed outcome. */
  ghost predicate IsRoundCode<T>(x: T, committed: set<Test>, n: nat, solutionMap: map<seq<nat>, seq<T>>) {
    exists p :: p in solutionMap && |p| == n && Matches(p, committed) && |solutionMap[p]| > 0 && solutionMap[p][0] == x
  }

  /** The position in the round of the level below. */
  function NextPhase(phase: nat, testsPerRound: nat): nat {
    if phase + 1 == testsPerRound then 0 else phase + 1
  }

  /** The tests claimed in the round for the level below: none once a new round starts. */
  function NextUsed(used: seq<Test>, test: Test, phase: nat, testsPerRound: nat): seq<Test> {
    if phase + 1 == testsPerRound then [] else used + [test]
  }

  lemma UsesIndexAppend(used: seq<Test>, test: Test, j: nat)
    ensures UsesIndex(used + [test], j) <==> UsesIndex(used, j) || test.0 == j
  {
    if UsesIndex(used + [test], j) {
      var k :| 0 <= k < |used| + 1 && (used + [test])[k].0 == j;
      if k < |used| { assert used[k].0 == j; }
    }
    if UsesIndex(used, j) {
      var k :| 0 <= k < |used| && used[k].0 == j;
      assert (used + [test])[k].0 == j;
    }
    if test.0 == j {
      assert (used + [test])[|used|].0 == j;
    }
  }

  /**
   * The round discipline the search keeps, for a tree whose root sits at
   * position `phase` of its round, with `used` the tests already claimed
   * earlier in that round and n the length of the outcome vectors:
   *  - every Branch tests a rule below n not yet claimed in its round;
   *  - its two children ask for no rule with different outcomes within the
   *    window the search compares (testsPerRound - phase - 1 levels below them);
   *  - a Branch that starts a round carries a code listed under an outcome
   *    vector that gives every outcome the round may test, and no other
   *    Branch carries a code.
   */
  ghost predicate RoundValid<T>(t: BinaryTree<T>, phase: nat, testsPerRound: nat, used: seq<Test>, n: nat,
                                solutionMap: map<seq<nat>, seq<T>>)
    requires phase < testsPerRound
  {
    match t
    case Leaf(_) => true
    case Branch(test, c, i, code) =>
      && test.0 < n
      && !UsesIndex(used, test.0)
      && !Conflicting(GetTests(c, testsPerRound - phase - 1), GetTests(i, testsPerRound - phase - 1))
      && (if phase == 0 then code.Some? && IsRoundCode(code.value, GetTests(t, testsPerRound - 1), n, solutionMap)
          else code.None?)
      && RoundValid(c, NextPhase(phase, testsPerRound), testsPerRound, NextUsed(used, test, phase, testsPerRound), n, solutionMap)
      && RoundValid(i, NextPhase(phase, testsPerRound), testsPerRound, NextUsed(used, test, phase, testsPerRound), n, solutionMap)
  }

  /**
   * The tests the rest of the round may ask for, from a round-valid node, ask
   * for one outcome per rule, only for rules below n, and never for a rule
   * claimed earlier in the round.
   */
  lemma {:induction false} RoundWindow<T>(t: BinaryTree<T>, phase: nat, testsPerRound: nat, used: seq<Test>, n: nat,
                                          solutionMap: map<seq<nat>, seq<T>>)
    requires phase < testsPerRound
    requires RoundValid(t, phase, testsPerRound, used, n, solutionMap)
    ensures Consistent(GetTests(t, testsPerRound - 1 - phase))
    ensures forall x :: x in GetTests(t, testsPerRound - 1 - phase) ==> x.0 < n && !UsesIndex(used, x.0)
    decreases t, 1
  {
    if t.Branch? {
      BranchWindow(t.test, t.correct, t.incorrect, t.code, phase, testsPerRound, used, n, solutionMap);
    }
  }

  /** The same, for a Branch being assembled from two round-valid children. */
  lemma {:induction false} BranchWindow<T>(test: Test, c: BinaryTree<T>, i: BinaryTree<T>, code: Option<T>,
                                           phase: nat, testsPerRound: nat, used: seq<Test>, n: nat,
                                           solutionMap: map<seq<nat>, seq<T>>)
    requires phase < testsPerRound
    requires test.0 < n && !UsesIndex(used, test.0)
    requires !Conflicting(GetTests(c, testsPerRound - phase - 1), GetTests(i, testsPerRound - phase - 1))
    requires RoundValid(c, NextPhase(phase, testsPerRound), testsPerRound, NextUsed(used, test, phase, testsPerRound), n, solutionMap)
    requires RoundValid(i, NextPhase(phase, testsPerRound), testsPerRound, NextUsed(used, test, phase, testsPerRound), n, solutionMap)
    ensures Consistent(GetTests(Branch(test, c, i, code), testsPerRound - 1 - phase))
    ensures forall x :: x in GetTests(Branch(test, c, i, code), testsPerRound - 1 - phase) ==> x.0 < n && !UsesIndex(used, x.0)
    decreases Branch(test, c, i, code), 0
  {
    var w := testsPerRound - 1 - phase;
    if w > 0 {
      var used' := used + [test];
      RoundWindow(c, phase + 1, testsPerRound, used', n, solutionMap);
      RoundWindow(i, phase + 1, testsPerRound, used', n, solutionMap);
      GetTestsMonotone(c, w - 1, w);
      GetTestsMonotone(i, w - 1, w);
      var wc, wi := GetTests(c, w - 1), GetTests(i, w - 1);
      forall x: Test | x in wc + wi ensures x.0 != test.0 && !UsesIndex(used, x.0) {
        UsesIndexAppend(used, test, x.0);
      }
      assert GetTests(Branch(test, c, i, code), w) == {test} + wc + wi;
      assert !Conflicting(wc, wi);
      ConsistentJoin(test, wc, wi);
    }
  }

  /** A test joined to two consistent, mutually compatible sets that never ask its rule. */
  lemma ConsistentJoin(test: Test, a: set<Test>, b: set<Test>)
    requires Consistent(a) && Consistent(b) && !Conflicting(a, b)
    requires forall x :: x in a + b ==> x.0 != test.0
    ensures Consistent({test} + a + b)
  {
    forall x, y | x in {test} + a + b && y in {test} + a + b && x.0 == y.0
      ensures x.1 == y.1
    {
      if x in a && y in b {
        assert !Conflicting(a, b);
      } else if x in b && y in a {
        assert !Conflicting(a, b);
      }
    }
  }

  /** Whether two test sets conflict, pair by pair as the program compares them. */
  method HasConflict(a: set<Test>, b: set<Test>) returns (conflict: bool)
    ensures conflict <==> Conflicting(a, b)
  {
    var restA := a;
    while restA != {}
      invariant restA <= a
      invariant forall x: Test, y: Test :: x in a - restA && y in b ==> !(x.0 == y.0 && x.1 != y.1)
      decreases restA
    {
      var x :| x in restA;
      var restB := b;
      while restB != {}
        invariant restB <= b
        invariant forall y: Test :: y in b - restB ==> !(x.0 == y.0 && x.1 != y.1)
        decreases restB
      {
        var y :| y in restB;
        if x.0 == y.0 && x.1 != y.1 {
          return true;
        }
        restB := restB - {y};
      }
      restA := restA - {x};
    }
    return false;
  }

  /**
   * The round-code resolver: narrows each committed rule to its committed
   * outcome, enumerates every outcome vector of the remaining choices, and
   * returns the first code listed under the first such vector that the
   * solution map knows; None when there is none.
   */
  method FindRoundCode<T>(tests: seq<set<nat>>, committed: set<Test>, solutionMap: map<seq<nat>, seq<T>>)
    returns (code: Option<T>)
    requires Consistent(committed)
    requires forall x :: x in committed ==> x.0 < |tests|
    requires forall p :: p in solutionMap ==> |solutionMap[p]| > 0
    ensures code.Some? ==> exists p :: p in solutionMap && RoundVector(p, tests, committed) && solutionMap[p][0] == code.value
    ensures code.None? ==> forall p :: p in solutionMap ==> !RoundVector(p, tests, committed)
  {
    var results := tests;
    var rest := committed;
    while rest != {}
      invariant rest <= committed && |results| == |tests|
      invariant forall x :: x in committed - rest ==> results[x.0] == {x.1}
      invariant forall j :: 0 <= j < |tests| && !Commits(committed - rest, j) ==> results[j] == tests[j]
      decreases rest
    {
      var x :| x in rest;
      results := results[x.0 := {x.1}];
      rest := rest - {x};
      forall y | y in committed - rest && y.0 == x.0 ensures y.1 == x.1 {
        assert !Conflicting(committed, committed);
      }
    }
    assert committed - rest == committed;
    var permutations := GetPermutations(results);
    forall p ensures InProduct(p, results) <==> RoundVector(p, tests, committed) {
      if RoundVector(p, tests, committed) {
        forall k | 0 <= k < |p| ensures p[k] in results[k] {
          if Commits(committed, k) {
            var x :| x in committed && x.0 == k;
          }
        }
      }
      if InProduct(p, results) {
        forall x | x in committed ensures x.0 < |p| && p[x.0] == x.1 {
          assert p[x.0] in results[x.0];
        }
      }
    }
    var k := 0;
    while k < |permutations|
      invariant k <= |permutations|
      invariant forall j :: 0 <= j < k ==> permutations[j] !in solutionMap
    {
      var p := permutations[k];
      if p in solutionMap {
        return Some(solutionMap[p][0]);
      }
      k := k + 1;
    }
    return None;
  }
}
