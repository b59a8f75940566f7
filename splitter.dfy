/**
 * Splitting a batch of candidates by one test, and listing the splits the
 * search may try next, best first.
 */
module Splitter {
  import opened Trees

  /** Every outcome vector in the batch has length n. */
  predicate WellFormed<T(==)>(entries: seq<Feasible<T>>, n: nat) {
    forall e :: e in entries ==> |e.0| == n
  }

  /** The candidates of the batch whose outcome passes (or fails) the test, in batch order. */
  function Select<T(==)>(entries: seq<Feasible<T>>, test: Test, passed: bool): seq<Feasible<T>> {
    if entries == [] then []
    else
      var rest := Select(entries[..|entries| - 1], test, passed);
      var e := entries[|entries| - 1];
      if Passes(e.0, test) == passed then rest + [e] else rest
  }

  /** The solutions of a batch, in batch order. */
  function Solutions<T(==)>(entries: seq<Feasible<T>>): (r: seq<T>)
    ensures |r| == |entries|
  {
    if entries == [] then [] else Solutions(entries[..|entries| - 1]) + [entries[|entries| - 1].1]
  }

  /** A candidate is on the passed side exactly when its outcome passes the test. */
  lemma {:induction false} SelectMembers<T>(entries: seq<Feasible<T>>, test: Test, passed: bool, x: Feasible<T>)
    ensures x in Select(entries, test, passed) <==> x in entries && Passes(x.0, test) == passed
  {
    if entries != [] {
      var init := entries[..|entries| - 1];
      SelectMembers(init, test, passed, x);
      assert entries == init + [entries[|entries| - 1]];
    }
  }

  /** Selecting from a concatenation concatenates the selections: relative order is kept. */
  lemma {:induction false} SelectAppend<T>(a: seq<Feasible<T>>, b: seq<Feasible<T>>, test: Test, passed: bool)
    ensures Select(a + b, test, passed) == Select(a, test, passed) + Select(b, test, passed)
    decreases |b|
  {
    if b == [] {
      assert a + b == a;
    } else {
      var init := b[..|b| - 1];
      SelectAppend(a, init, test, passed);
      assert (a + b)[..|a + b| - 1] == a + init;
    }
  }

  /**
   * The two sides partition the batch: together they hold every candidate
   * exactly as often as the batch does, so their lengths add up.
   */
  lemma {:induction false} SelectPartitions<T>(entries: seq<Feasible<T>>, test: Test)
    ensures multiset(Select(entries, test, true)) + multiset(Select(entries, test, false)) == multiset(entries)
    ensures |Select(entries, test, true)| + |Select(entries, test, false)| == |entries|
  {
    if entries != [] {
      var init := entries[..|entries| - 1];
      var e := entries[|entries| - 1];
      SelectPartitions(init, test);
      assert entries == init + [e];
      assert multiset(entries) == multiset(init) + multiset{e};
      if Passes(e.0, test) {
        assert Select(entries, test, true) == Select(init, test, true) + [e];
      } else {
        assert Select(entries, test, false) == Select(init, test, false) + [e];
      }
    }
  }

  /** The solutions of the two sides are, together, the solutions of the batch. */
  lemma {:induction false} SelectSolutions<T>(entries: seq<Feasible<T>>, test: Test)
    ensures multiset(Solutions(Select(entries, test, true))) + multiset(Solutions(Select(entries, test, false)))
      == multiset(Solutions(entries))
  {
    if entries != [] {
      var init := entries[..|entries| - 1];
      var e := entries[|entries| - 1];
      SelectSolutions(init, test);
      var ct, ci := Select(init, test, true), Select(init, test, false);
      var st, si, s0 := Solutions(ct), Solutions(ci), Solutions(init);
      assert multiset(st) + multiset(si) == multiset(s0);
      assert Solutions(entries) == s0 + [e.1];
      if Passes(e.0, test) {
        assert Select(entries, test, true) == ct + [e];
        assert Select(entries, test, false) == ci;
        SolutionsSnoc(ct, e);
        assert multiset(st + [e.1]) == multiset(st) + multiset{e.1};
      } else {
        assert Select(entries, test, false) == ci + [e];
        assert Select(entries, test, true) == ct;
        SolutionsSnoc(ci, e);
        assert multiset(si + [e.1]) == multiset(si) + multiset{e.1};
      }
    }
  }

  lemma SolutionsSnoc<T>(s: seq<Feasible<T>>, e: Feasible<T>)
    ensures Solutions(s + [e]) == Solutions(s) + [e.1]
  {
    assert (s + [e])[..|s|] == s;
  }

  /** Selection keeps well-formedness. */
  lemma {:induction false} SelectWellFormed<T>(entries: seq<Feasible<T>>, test: Test, passed: bool, n: nat)
    requires WellFormed(entries, n)
    ensures WellFormed(Select(entries, test, passed), n)
  {
    forall x | x in Select(entries, test, passed) ensures |x.0| == n {
      SelectMembers(entries, test, passed, x);
    }
  }

  /** The result of performing one test on a batch. */
  datatype TestResult<T> = TestResult(test: Test, correct: seq<Feasible<T>>, incorrect: seq<Feasible<T>>)

  /** Pushes each candidate onto the passed or the failed side, in batch order. */
  method FromTest<T(==)>(entries: seq<Feasible<T>>, test: Test) returns (r: TestResult<T>)
    requires forall e :: e in entries ==> test.0 < |e.0|
    ensures r.test == test
    ensures r.correct == Select(entries, test, true)
    ensures r.incorrect == Select(entries, test, false)
  {
    var correct: seq<Feasible<T>> := [];
    var incorrect: seq<Feasible<T>> := [];
    for k := 0 to |entries|
      invariant correct == Select(entries[..k], test, true)
      invariant incorrect == Select(entries[..k], test, false)
    {
      var e := entries[k];
      assert entries[..k + 1][..k] == entries[..k];
      if e.0[test.0] == test.1 {
        correct := correct + [e];
      } else {
        incorrect := incorrect + [e];
      }
    }
    assert entries[..|entries|] == entries;
    r := TestResult(test, correct, incorrect);
  }

  function Min(a: nat, b: nat): nat { if a < b then a else b }

  /**
   * The heuristic value of a split: the size of its smaller side, which is
   * what the split is guaranteed to rule out.
   */
  function EstimatedValue<T(==)>(r: TestResult<T>): (v: nat)
    ensures v <= |r.correct| && v <= |r.incorrect|
    ensures v == |r.correct| || v == |r.incorrect|
  {
    Min(|r.correct|, |r.incorrect|)
  }

  /** Whether some earlier test of the current round already used rule index i. */
  predicate UsesIndex(used: seq<Test>, i: nat) {
    exists k :: 0 <= k < |used| && used[k].0 == i
  }

  /** A split the search may try: an unused rule, an observed value, two non-empty sides. */
  predicate Viable<T(==)>(entries: seq<Feasible<T>>, tests: seq<set<nat>>, used: seq<Test>, test: Test) {
    && test.0 < |tests|
    && test.1 in tests[test.0]
    && !UsesIndex(used, test.0)
    && Select(entries, test, true) != []
    && Select(entries, test, false) != []
  }

  /** A candidate node: a viable split together with its two sides. */
  predicate ValidNode<T(==)>(entries: seq<Feasible<T>>, tests: seq<set<nat>>, used: seq<Test>, r: TestResult<T>) {
    && Viable(entries, tests, used, r.test)
    && r.correct == Select(entries, r.test, true)
    && r.incorrect == Select(entries, r.test, false)
  }

  /**
   * Every (rule, observed value) pair not already used in this round whose
   * split leaves both sides non-empty, and nothing else.
   */
  method CandidateSplits<T(==)>(entries: seq<Feasible<T>>, tests: seq<set<nat>>, used: seq<Test>)
    returns (nodes: seq<TestResult<T>>)
    requires WellFormed(entries, |tests|)
    ensures forall r :: r in nodes ==> ValidNode(entries, tests, used, r)
    ensures forall test: Test :: Viable(entries, tests, used, test) ==> exists r :: r in nodes && r.test == test
  {
    nodes := [];
    for i := 0 to |tests|
      invariant forall r :: r in nodes ==> ValidNode(entries, tests, used, r)
      invariant forall test: Test :: test.0 < i && Viable(entries, tests, used, test) ==>
        exists r :: r in nodes && r.test == test
    {
      var values := tests[i];
      while values != {}
        invariant values <= tests[i]
        invariant forall r :: r in nodes ==> ValidNode(entries, tests, used, r)
        invariant forall test: Test ::
          (test.0 < i || (test.0 == i && test.1 !in values)) && Viable(entries, tests, used, test) ==>
            exists r :: r in nodes && r.test == test
        decreases values
      {
        var v :| v in values;
        values := values - {v};
        if UsesIndex(used, i) {
          continue;
        }
        var res := FromTest(entries, (i, v));
        if res.correct == [] || res.incorrect == [] {
          continue;
        }
        nodes := nodes + [res];
      }
    }
  }

  /** Non-increasing by key: the most promising split first. */
  predicate SortedDesc<X>(s: seq<X>, key: X -> nat) {
    forall j, k :: 0 <= j < k < |s| ==> key(s[j]) >= key(s[k])
  }

  /** Inserts x after every element whose key is at least x's, as a stable sort does. */
  function InsertDesc<X>(s: seq<X>, x: X, key: X -> nat): (r: seq<X>)
    requires SortedDesc(s, key)
    ensures SortedDesc(r, key)
    ensures multiset(r) == multiset(s) + multiset{x}
    ensures forall y :: y in r ==> y == x || y in s
  {
    if s == [] then [x]
    else if key(x) > key(s[0]) then [x] + s
    else
      SortedTail(s, key);
      var rest := InsertDesc(s[1..], x, key);
      assert s == [s[0]] + s[1..];
      SortedCons(s[0], rest, key);
      [s[0]] + rest
  }

  /** The tail of a sorted list is sorted and keyed no higher than its head. */
  lemma SortedTail<X>(s: seq<X>, key: X -> nat)
    requires SortedDesc(s, key) && s != []
    ensures SortedDesc(s[1..], key)
    ensures forall y :: y in s[1..] ==> key(s[0]) >= key(y)
  {
    forall y | y in s[1..] ensures key(s[0]) >= key(y) {
      var k :| 0 <= k < |s[1..]| && s[1..][k] == y;
      assert s[k + 1] == y;
    }
  }

  /** A head keyed no lower than a sorted tail gives a sorted list. */
  lemma SortedCons<X>(h: X, rest: seq<X>, key: X -> nat)
    requires SortedDesc(rest, key)
    requires forall y :: y in rest ==> key(h) >= key(y)
    ensures SortedDesc([h] + rest, key)
  {
    forall j, k | 0 <= j < k < |[h] + rest| ensures key(([h] + rest)[j]) >= key(([h] + rest)[k]) {
      if j == 0 {
        assert ([h] + rest)[k] == rest[k - 1];
        assert rest[k - 1] in rest;
      } else {
        assert ([h] + rest)[j] == rest[j - 1] && ([h] + rest)[k] == rest[k - 1];
      }
    }
  }

  /** A stable sort by non-increasing key. */
  function SortDesc<X>(s: seq<X>, key: X -> nat): (r: seq<X>)
    ensures SortedDesc(r, key)
    ensures multiset(r) == multiset(s)
  {
    if s == [] then []
    else
      var init := s[..|s| - 1];
      assert s == init + [s[|s| - 1]];
      InsertDesc(SortDesc(init, key), s[|s| - 1], key)
  }
}
