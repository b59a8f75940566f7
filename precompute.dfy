/**
 * The command-line program's preparation and search: every code of the
 * game, the outcome vector each one gives under the selected rules, the
 * codes grouped by outcome vector, the vectors that single out one code,
 * and the decision tree built over those.
 */
module Precompute {
  import opened Wrappers
  import opened Rules
  import opened Trees
  import opened Splitter
  import opened Rounds
  import opened Search
  import Legacy

  /** Three fields with five values each. */
  const CodeCount: nat := 125

  /** The i-th code of the enumeration: blue varies fastest, purple slowest. */
  function CodeOf(i: nat): (c: Code)
    requires i < CodeCount
    ensures ValidCode(c)
    ensures IndexOf(c) == i
  {
    EnumerationDigits(i);
    Code(i % 5 + 1, (i / 5) % 5 + 1, i / 25 + 1)
  }

  /** The three base-5 digits of an index below 125 give the index back. */
  lemma EnumerationDigits(i: nat)
    requires i < CodeCount
    ensures i / 25 < 5
    ensures i % 5 + 5 * ((i / 5) % 5) + 25 * (i / 25) == i
  {
    var q := i / 5;
    assert i == 5 * q + i % 5;
    assert q == 5 * (q / 5) + q % 5;
    assert q / 5 == i / 25;
  }

  /** The position of a code in the enumeration. */
  function IndexOf(c: Code): nat
    requires ValidCode(c)
  {
    (c.blue - 1) + 5 * (c.yellow - 1) + 25 * (c.purple - 1)
  }

  /** The enumeration lists every code of the game, each exactly once. */
  lemma EnumerationComplete(c: Code)
    requires ValidCode(c)
    ensures IndexOf(c) < CodeCount && CodeOf(IndexOf(c)) == c
  {
    var i := IndexOf(c);
    assert i / 5 == (c.yellow - 1) + 5 * (c.purple - 1);
    assert i / 25 == c.purple - 1;
  }

  /**
   * The outcomes of the selected rules for a code, in rule order; a rule
   * that gives no outcome is skipped, so the vector is then too short.
   */
  function Outcomes(c: Code, rules: seq<Code -> Option<nat>>): (r: seq<nat>)
    ensures |r| <= |rules|
    ensures |r| == |rules| <==> forall j :: 0 <= j < |rules| ==> rules[j](c).Some?
    ensures |r| == |rules| ==> forall j :: 0 <= j < |rules| ==> rules[j](c) == Some(r[j])
  {
    if rules == [] then []
    else
      var rest := Outcomes(c, rules[1..]);
      assert forall j :: 1 <= j < |rules| ==> rules[1..][j - 1] == rules[j];
      match rules[0](c)
      case Some(v) => [v] + rest
      case None => rest
  }

  /** A code is kept when every selected rule gives it an outcome. */
  predicate Kept(c: Code, rules: seq<Code -> Option<nat>>) {
    |Outcomes(c, rules)| == |rules|
  }

  /** Every code of the game, in enumeration order. */
  function AllCodes(): (codes: seq<Code>)
    ensures |codes| == CodeCount
    ensures forall i :: 0 <= i < CodeCount ==> codes[i] == CodeOf(i)
  {
    seq(CodeCount, i requires 0 <= i < CodeCount => CodeOf(i))
  }

  /** The enumeration holds only codes of the game, and all of them. */
  lemma AllCodesExactly(c: Code)
    ensures c in AllCodes() <==> ValidCode(c)
  {
    if ValidCode(c) {
      EnumerationComplete(c);
      assert AllCodes()[IndexOf(c)] == c;
    }
  }

  /** The kept codes of `codes` whose outcome vector is p, in order. */
  function Matching(p: seq<nat>, rules: seq<Code -> Option<nat>>, codes: seq<Code>): (r: seq<Code>)
    ensures forall c :: c in r ==> c in codes && Kept(c, rules) && Outcomes(c, rules) == p && |p| == |rules|
  {
    if codes == [] then []
    else
      var c := codes[|codes| - 1];
      var rest := Matching(p, rules, codes[..|codes| - 1]);
      if Kept(c, rules) && Outcomes(c, rules) == p then rest + [c] else rest
  }

  /** Every kept code is listed under its own outcome vector. */
  lemma {:induction false} MatchingComplete(rules: seq<Code -> Option<nat>>, codes: seq<Code>, c: Code)
    requires c in codes && Kept(c, rules)
    ensures c in Matching(Outcomes(c, rules), rules, codes)
  {
    var init := codes[..|codes| - 1];
    if c != codes[|codes| - 1] {
      assert codes == init + [codes[|codes| - 1]];
      MatchingComplete(rules, init, c);
    }
  }

  /** Matching over one more code: that code is appended when it is kept and gives p. */
  lemma MatchingSnoc(p: seq<nat>, rules: seq<Code -> Option<nat>>, codes: seq<Code>, i: nat)
    requires i < |codes|
    ensures Matching(p, rules, codes[..i + 1]) ==
      if Kept(codes[i], rules) && Outcomes(codes[i], rules) == p then Matching(p, rules, codes[..i]) + [codes[i]]
      else Matching(p, rules, codes[..i])
  {
    assert codes[..i + 1][..i] == codes[..i];
  }

  /**
   * Groups the kept codes by outcome vector, appending each code under its
   * own vector in enumeration order.
   */
  method GroupSolutions(codes: seq<Code>, rules: seq<Code -> Option<nat>>) returns (solutions: map<seq<nat>, seq<Code>>)
    ensures forall p :: p in solutions <==> Matching(p, rules, codes) != []
    ensures forall p :: p in solutions ==> solutions[p] == Matching(p, rules, codes)
    ensures forall p :: p in solutions ==> |p| == |rules| && |solutions[p]| > 0
  {
    solutions := map[];
    for i := 0 to |codes|
      invariant forall p :: p in solutions <==> Matching(p, rules, codes[..i]) != []
      invariant forall p :: p in solutions ==> solutions[p] == Matching(p, rules, codes[..i])
    {
      var code := codes[i];
      forall p ensures Matching(p, rules, codes[..i + 1]) ==
        if Kept(code, rules) && Outcomes(code, rules) == p then Matching(p, rules, codes[..i]) + [code]
        else Matching(p, rules, codes[..i])
      {
        MatchingSnoc(p, rules, codes, i);
      }
      var results := Outcomes(code, rules);
      if |results| < |rules| {
        continue;
      }
      if results in solutions {
        solutions := solutions[results := solutions[results] + [code]];
      } else {
        solutions := solutions[results := [code]];
      }
    }
    assert codes[..|codes|] == codes;
    forall p | p in solutions ensures |p| == |rules| {
      assert Matching(p, rules, codes)[0] in Matching(p, rules, codes);
    }
  }

  /** The outcome vectors that single out one code, each with that code, in unspecified order. */
  method UniqueSolutions(solutions: map<seq<nat>, seq<Code>>) returns (unique: seq<Feasible<Code>>)
    ensures forall e :: e in unique <==> e.0 in solutions && |solutions[e.0]| == 1 && e.1 == solutions[e.0][0]
    ensures forall j, k :: 0 <= j < k < |unique| ==> unique[j].0 != unique[k].0
  {
    unique := [];
    var rest := solutions.Keys;
    while rest != {}
      invariant rest <= solutions.Keys
      invariant forall e :: e in unique <==>
        e.0 in solutions.Keys - rest && |solutions[e.0]| == 1 && e.1 == solutions[e.0][0]
      invariant forall j, k :: 0 <= j < k < |unique| ==> unique[j].0 != unique[k].0
      decreases rest
    {
      var key :| key in rest;
      rest := rest - {key};
      if |solutions[key]| == 1 {
        unique := unique + [(key, solutions[key][0])];
      }
    }
  }

  /** A unique outcome vector names its code: no other code gives the same outcomes. */
  lemma UniqueDeterminesCode(rules: seq<Code -> Option<nat>>, p: seq<nat>, c: Code, other: Code)
    requires Matching(p, rules, AllCodes()) == [c]
    requires ValidCode(other) && Kept(other, rules) && Outcomes(other, rules) == p
    ensures other == c
  {
    AllCodesExactly(other);
    MatchingComplete(rules, AllCodes(), other);
  }

  /**
   * At every round start the tree names a code, and that code gives, under
   * each rule the round may test, exactly the outcome the path expects.
   */
  ghost predicate CodesReproduce(t: BinaryTree<Code>, phase: nat, testsPerRound: nat, rules: seq<Code -> Option<nat>>)
    requires phase < testsPerRound
  {
    match t
    case Leaf(_) => true
    case Branch(_, c, i, code) =>
      && (phase == 0 ==> code.Some? && forall x :: x in GetTests(t, testsPerRound - 1) ==>
            x.0 < |rules| && rules[x.0](code.value) == Some(x.1))
      && CodesReproduce(c, NextPhase(phase, testsPerRound), testsPerRound, rules)
      && CodesReproduce(i, NextPhase(phase, testsPerRound), testsPerRound, rules)
  }

  /** A code chosen from the grouped map reproduces every outcome its outcome vector commits to. */
  lemma RoundCodeReproduces(x: Code, committed: set<Test>, rules: seq<Code -> Option<nat>>,
                            solutions: map<seq<nat>, seq<Code>>, codes: seq<Code>)
    requires forall p :: p in solutions ==> solutions[p] == Matching(p, rules, codes)
    requires IsRoundCode(x, committed, |rules|, solutions)
    ensures forall t :: t in committed ==> t.0 < |rules| && rules[t.0](x) == Some(t.1)
  {
    var p :| p in solutions && |p| == |rules| && Matches(p, committed) && |solutions[p]| > 0 && solutions[p][0] == x;
    assert x in Matching(p, rules, codes);
  }

  /** The round discipline of the search, with the grouped map, makes every round playable. */
  lemma {:induction false} RoundValidReproduces(t: BinaryTree<Code>, phase: nat, testsPerRound: nat, used: seq<Test>,
                                                rules: seq<Code -> Option<nat>>, solutions: map<seq<nat>, seq<Code>>,
                                                codes: seq<Code>)
    requires phase < testsPerRound
    requires forall p :: p in solutions ==> solutions[p] == Matching(p, rules, codes)
    requires RoundValid(t, phase, testsPerRound, used, |rules|, solutions)
    ensures CodesReproduce(t, phase, testsPerRound, rules)
  {
    match t
    case Leaf(_) =>
    case Branch(test, c, i, code) =>
      if phase == 0 {
        RoundCodeReproduces(code.value, GetTests(t, testsPerRound - 1), rules, solutions, codes);
      }
      var next, nextUsed := NextPhase(phase, testsPerRound), NextUsed(used, test, phase, testsPerRound);
      RoundValidReproduces(c, next, testsPerRound, nextUsed, rules, solutions, codes);
      RoundValidReproduces(i, next, testsPerRound, nextUsed, rules, solutions, codes);
  }

  /**
   * A tree that decides the unique outcome vectors finds every code that its
   * outcome vector singles out.
   */
  lemma UniqueCodesFound(t: BinaryTree<Code>, unique: seq<Feasible<Code>>, solutions: map<seq<nat>, seq<Code>>,
                         rules: seq<Code -> Option<nat>>, codes: seq<Code>)
    requires Identifies(t, unique)
    requires forall e :: e in unique <==> e.0 in solutions && |solutions[e.0]| == 1 && e.1 == solutions[e.0][0]
    requires forall p :: p in solutions <==> Matching(p, rules, codes) != []
    requires forall p :: p in solutions ==> solutions[p] == Matching(p, rules, codes)
    ensures forall c :: Matching(Outcomes(c, rules), rules, codes) == [c] ==> Walk(t, Outcomes(c, rules)) == c
  {
    forall c | Matching(Outcomes(c, rules), rules, codes) == [c]
      ensures Walk(t, Outcomes(c, rules)) == c
    {
      var key := Outcomes(c, rules);
      assert key in solutions && solutions[key] == [c];
      assert (key, c) in unique;
    }
  }

  /** The selected rule numbers name entries of the rule table. */
  predicate ValidSelection(selection: seq<nat>) {
    forall j :: 0 <= j < |selection| ==> selection[j] < |RULES|
  }

  /** The selected rules, in selection order. */
  function Selected(selection: seq<nat>): (rules: seq<Code -> Option<nat>>)
    requires ValidSelection(selection)
    ensures |rules| == |selection|
    ensures forall j :: 0 <= j < |selection| ==> rules[j] == RULES[selection[j]]
  {
    seq(|selection|, j requires 0 <= j < |selection| => RULES[selection[j]])
  }

  /**
   * The program's pipeline: at least four rules, then the tree over every
   * code of the game. The ghost `candidates` are the trees of the search;
   * the tree is the first of them that is no worse than any other.
   */
  method Solve(selection: seq<nat>)
    returns (tree: Option<BinaryTree<Code>>, ghost candidates: seq<BinaryTree<Code>>, ghost index: nat)
    requires ValidSelection(selection)
    ensures |selection| < 4 ==> tree.None?
    ensures tree.None? <==> candidates == []
    ensures tree.Some? ==> index < |candidates| && tree.value == candidates[index]
    ensures tree.Some? ==> forall t :: t in candidates ==> Legacy.NoWorseBySize(tree.value, t)
    ensures tree.Some? ==> forall j :: 0 <= j < index ==> !Legacy.NoWorseBySize(candidates[j], tree.value)
    ensures tree.Some? ==> CodesReproduce(tree.value, 0, Legacy.TestsPerRound, Selected(selection))
    ensures tree.Some? ==> forall c ::
      Matching(Outcomes(c, Selected(selection)), Selected(selection), AllCodes()) == [c] ==>
        Walk(tree.value, Outcomes(c, Selected(selection))) == c
  {
    if |selection| < 4 {
      return None, [], 0;
    }
    tree, candidates, index := BuildTree(AllCodes(), Selected(selection));
  }

  /**
   * The codes grouped by outcome vector, and the outcome vectors that single
   * out one code.
   */
  method Prepare(codes: seq<Code>, rules: seq<Code -> Option<nat>>)
    returns (solutions: map<seq<nat>, seq<Code>>, unique: seq<Feasible<Code>>)
    ensures forall p :: p in solutions <==> Matching(p, rules, codes) != []
    ensures forall p :: p in solutions ==> solutions[p] == Matching(p, rules, codes) && |solutions[p]| > 0
    ensures forall e :: e in unique <==> e.0 in solutions && |solutions[e.0]| == 1 && e.1 == solutions[e.0][0]
    ensures WellFormed(unique, |rules|)
  {
    solutions := GroupSolutions(codes, rules);
    unique := UniqueSolutions(solutions);
  }

  /**
   * The observed values of the unique outcome vectors, then the search from
   * level 0 with no depth bound: every tree decides the unique vectors and
   * keeps three-test rounds from a fresh round.
   */
  method SearchTrees(unique: seq<Feasible<Code>>, solutions: map<seq<nat>, seq<Code>>, n: nat)
    returns (trees: seq<BinaryTree<Code>>)
    requires WellFormed(unique, n)
    requires forall p :: p in solutions ==> |solutions[p]| > 0
    ensures forall t :: t in trees ==> Identifies(t, unique) && RoundValid(t, 0, Legacy.TestsPerRound, [], n, solutions)
  {
    var possibleResults := ObservedValues(unique, n);
    trees := Legacy.ConstructTrees(unique, possibleResults, solutions, 0, None, []);
  }

  /**
   * The grouped codes; the unique outcome vectors; their observed values;
   * the search from level 0; the first best tree. None when no outcome
   * vector is unique or the search finds no tree. Every tree of the search
   * (the ghost `candidates`) reproduces every round with its code and finds
   * every code with a unique outcome vector; the tree returned is the first
   * of them that is no worse than any other by depth, then node count.
   */
  method BuildTree(codes: seq<Code>, rules: seq<Code -> Option<nat>>)
    returns (tree: Option<BinaryTree<Code>>, ghost candidates: seq<BinaryTree<Code>>, ghost index: nat)
    ensures tree.None? <==> candidates == []
    ensures forall t :: t in candidates ==> CodesReproduce(t, 0, Legacy.TestsPerRound, rules)
    ensures forall t :: t in candidates ==> forall c :: Matching(Outcomes(c, rules), rules, codes) == [c] ==>
      Walk(t, Outcomes(c, rules)) == c
    ensures tree.Some? ==> index < |candidates| && tree.value == candidates[index]
    ensures tree.Some? ==> forall t :: t in candidates ==> Legacy.NoWorseBySize(tree.value, t)
    ensures tree.Some? ==> forall j :: 0 <= j < index ==> !Legacy.NoWorseBySize(candidates[j], tree.value)
    ensures tree.Some? ==> CodesReproduce(tree.value, 0, Legacy.TestsPerRound, rules)
    ensures tree.Some? ==> forall c :: Matching(Outcomes(c, rules), rules, codes) == [c] ==>
      Walk(tree.value, Outcomes(c, rules)) == c
  {
    var solutions, unique := Prepare(codes, rules);
    if |unique| == 0 {
      return None, [], 0;
    }
    var trees := SearchTrees(unique, solutions, |rules|);
    candidates := trees;
    forall t | t in trees
      ensures CodesReproduce(t, 0, Legacy.TestsPerRound, rules)
      ensures forall c :: Matching(Outcomes(c, rules), rules, codes) == [c] ==> Walk(t, Outcomes(c, rules)) == c
    {
      RoundValidReproduces(t, 0, Legacy.TestsPerRound, [], rules, solutions, codes);
      UniqueCodesFound(t, unique, solutions, rules, codes);
    }
    var i;
    tree, i := Legacy.FirstBest(trees);
    index := i;
    if tree.Some? {
      assert tree.value in trees;
    }
  }
}
