/**
 * Enumerating every outcome vector that picks one value from each position's
 * set of allowed values (a Cartesian product).
 */
module Permutations {

  /** p picks, at every position k, one of the values allowed at k. */
  predicate InProduct(p: seq<nat>, input: seq<set<nat>>) {
    |p| == |input| && forall k :: 0 <= k < |p| ==> p[k] in input[k]
  }

  /** The product of the sizes of the sets. */
  function ProductSize(input: seq<set<nat>>): nat {
    if input == [] then 1 else ProductSize(input[..|input| - 1]) * |input[|input| - 1]|
  }

  predicate Distinct<X(==)>(s: seq<X>) {
    forall j, k :: 0 <= j < k < |s| ==> s[j] != s[k]
  }

  /** Membership in a product of i + 1 sets, split into the first i picks and the last one. */
  lemma InProductSnoc(x: seq<nat>, input: seq<set<nat>>, i: nat)
    requires i < |input|
    ensures InProduct(x, input[..i + 1]) <==>
      |x| == i + 1 && InProduct(x[..i], input[..i]) && x[i] in input[i]
  {
    if |x| == i + 1 && InProduct(x[..i], input[..i]) && x[i] in input[i] {
      forall k | 0 <= k < |x| ensures x[k] in input[..i + 1][k] {
        if k < i { assert x[..i][k] == x[k]; }
      }
    }
    if InProduct(x, input[..i + 1]) {
      forall k | 0 <= k < i ensures x[..i][k] in input[..i][k] {
        assert x[k] in input[..i + 1][k];
      }
    }
  }

  /**
   * The inner loop: pushes r extended by each allowed value, in the set's
   * (unspecified) iteration order.
   */
  method PushExtensions(acc: seq<seq<nat>>, r: seq<nat>, values: set<nat>) returns (out: seq<seq<nat>>)
    requires Distinct(acc)
    requires forall x :: x in acc ==> |x| != |r| + 1 || x[..|r|] != r
    ensures forall x :: x in out <==> x in acc || (|x| == |r| + 1 && x[..|r|] == r && x[|r|] in values)
    ensures Distinct(out)
    ensures |out| == |acc| + |values|
  {
    out := acc;
    var rest := values;
    ghost var seen: set<nat> := {};
    while rest != {}
      invariant seen + rest == values && seen !! rest
      invariant forall x :: x in out <==> x in acc || (|x| == |r| + 1 && x[..|r|] == r && x[|r|] in seen)
      invariant Distinct(out)
      invariant |out| == |acc| + |seen|
      decreases rest
    {
      var v :| v in rest;
      var x' := r + [v];
      Extension(r, v);
      DistinctSnoc(out, x');
      rest := rest - {v};
      seen := seen + {v};
      out := out + [x'];
    }
  }

  /** r + [v] is the only vector that extends r by v. */
  lemma Extension(r: seq<nat>, v: nat)
    ensures (r + [v])[..|r|] == r && (r + [v])[|r|] == v
    ensures forall x :: |x| == |r| + 1 && x[..|r|] == r && x[|r|] == v ==> x == r + [v]
  {
    forall x | |x| == |r| + 1 && x[..|r|] == r && x[|r|] == v ensures x == r + [v] {
      assert x == x[..|r|] + [x[|r|]];
    }
  }

  /** Appending a new element keeps a list free of duplicates. */
  lemma DistinctSnoc<X>(s: seq<X>, x: X)
    requires Distinct(s) && x !in s
    ensures Distinct(s + [x])
  {
    forall j, k | 0 <= j < k < |s + [x]| ensures (s + [x])[j] != (s + [x])[k] {
      assert (s + [x])[j] == s[j];
      if k == |s| { assert s[j] in s; }
    }
  }

  /**
   * One step of the outer loop: pops every partial vector and pushes its
   * extensions by the values allowed at the next position.
   */
  method ExtendAll(results: seq<seq<nat>>, values: set<nat>, i: nat) returns (out: seq<seq<nat>>)
    requires forall x :: x in results ==> |x| == i
    requires Distinct(results)
    ensures forall x :: x in out <==> |x| == i + 1 && x[..i] in results && x[i] in values
    ensures Distinct(out)
    ensures |out| == |results| * |values|
  {
    var pending := results;
    out := [];
    while pending != []
      invariant |pending| <= |results| && pending == results[..|pending|]
      invariant forall x :: x in out <==> |x| == i + 1 && x[..i] in results[|pending|..] && x[i] in values
      invariant Distinct(out)
      invariant |out| == (|results| - |pending|) * |values|
    {
      var r := pending[|pending| - 1];
      pending := pending[..|pending| - 1];
      assert results[|pending|..] == [r] + results[|pending| + 1..];
      assert r !in results[|pending| + 1..] by {
        forall j | |pending| + 1 <= j < |results| ensures results[j] != r {
          assert results[|pending|] == r;
        }
      }
      assert |r| == i;
      out := PushExtensions(out, r, values);
      MulStep(|results| - |pending| - 1, |values|);
    }
  }

  lemma MulStep(a: nat, b: nat)
    ensures a * b + b == (a + 1) * b
  {
  }

  /**
   * Builds the product position by position, starting from the one empty
   * vector.
   */
  method GetPermutations(input: seq<set<nat>>) returns (results: seq<seq<nat>>)
    ensures forall p :: p in results <==> InProduct(p, input)
    ensures Distinct(results)
    ensures |results| == ProductSize(input)
  {
    results := [[]];
    assert input[..0] == [];
    assert forall p :: InProduct(p, input[..0]) <==> p == [];
    for i := 0 to |input|
      invariant forall p :: p in results <==> InProduct(p, input[..i])
      invariant Distinct(results)
      invariant |results| == ProductSize(input[..i])
    {
      var newResults := ExtendAll(results, input[i], i);
      assert input[..i + 1][..i] == input[..i];
      forall x ensures x in newResults <==> InProduct(x, input[..i + 1]) {
        InProductSnoc(x, input, i);
      }
      results := newResults;
    }
    assert input[..|input|] == input;
  }
}
