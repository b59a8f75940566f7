/**
 * The verifier rules of the board game: each rule maps a three-digit code
 * (blue, yellow, purple) to a small outcome value, or to None when the rule
 * has no answer for that code.
 */
module Rules {
  import opened Wrappers

  /** A code as the player enters it on the punch cards. */
  datatype Code = Code(blue: nat, yellow: nat, purple: nat)

  /** Codes the game allows: every digit in 1..5. */
  predicate ValidCode(c: Code) {
    1 <= c.blue <= 5 && 1 <= c.yellow <= 5 && 1 <= c.purple <= 5
  }

  /** The digits of a code, blue first. */
  function Fields(c: Code): (s: seq<nat>)
    ensures |s| == 3 && s[0] == c.blue && s[1] == c.yellow && s[2] == c.purple
  {
    [c.blue, c.yellow, c.purple]
  }

  /** Number of odd values in a sequence. */
  function OddCount(s: seq<nat>): nat {
    if s == [] then 0 else (if s[0] % 2 == 1 then 1 else 0) + OddCount(s[1..])
  }

  /** Number of even values in a sequence. */
  function EvenCount(s: seq<nat>): nat {
    if s == [] then 0 else (if s[0] % 2 == 0 then 1 else 0) + EvenCount(s[1..])
  }

  /** Field k of the code is strictly below both other fields. */
  predicate StrictlyLeast(c: Code, k: nat)
    requires k < 3
  {
    var f := Fields(c);
    f[k] < f[(k + 1) % 3] && f[k] < f[(k + 2) % 3]
  }

  /** Field k of the code is strictly above both other fields. */
  predicate StrictlyGreatest(c: Code, k: nat)
    requires k < 3
  {
    var f := Fields(c);
    f[k] > f[(k + 1) % 3] && f[k] > f[(k + 2) % 3]
  }

  /** The counts of odd and even digits of a code, written out. */
  lemma ParityCounts(c: Code)
    ensures OddCount(Fields(c)) == c.blue % 2 + c.yellow % 2 + c.purple % 2
    ensures EvenCount(Fields(c)) == 3 - OddCount(Fields(c))
  {
    var f := Fields(c);
    assert f[1..] == [c.yellow, c.purple];
    assert f[1..][1..] == [c.purple];
    assert f[1..][1..][1..] == [];
    assert OddCount(f[1..][1..]) == c.purple % 2 + OddCount(f[1..][1..][1..]);
    assert OddCount(f[1..]) == c.yellow % 2 + OddCount(f[1..][1..]);
    assert EvenCount(f[1..][1..]) == 1 - c.purple % 2 + EvenCount(f[1..][1..][1..]);
    assert EvenCount(f[1..]) == 1 - c.yellow % 2 + EvenCount(f[1..][1..]);
  }

  /** The three-way comparison outcome: 0 below, 1 equal, 2 above. */
  predicate Compares(r: Option<nat>, x: nat, y: nat) {
    && r.Some?
    && (r.value == 0 <==> x < y)
    && (r.value == 1 <==> x == y)
    && (r.value == 2 <==> x > y)
  }

  // Ruleset 1 (and 4, 19): compare a value with a target.

  function CompareValues(value: nat, target: nat): (r: Option<nat>)
    ensures Compares(r, value, target)
  {
    if value < target then Some(0)
    else if value == target then Some(1)
    else Some(2)
  }

  function Rule1(c: Code): (r: Option<nat>) ensures Compares(r, c.blue, 1) { CompareValues(c.blue, 1) }
  function Rule2(c: Code): (r: Option<nat>) ensures Compares(r, c.blue, 3) { CompareValues(c.blue, 3) }
  function Rule3(c: Code): (r: Option<nat>) ensures Compares(r, c.yellow, 3) { CompareValues(c.yellow, 3) }
  function Rule4(c: Code): (r: Option<nat>) ensures Compares(r, c.yellow, 4) { CompareValues(c.yellow, 4) }

  // Ruleset 2: the parity of a single digit.

  function SingleParity(value: nat): (r: Option<nat>)
    ensures r.Some? && r.value < 2
    ensures r.value == 0 <==> value % 2 == 0
  {
    if value % 2 == 0 then Some(0) else Some(1)
  }

  function Rule5(c: Code): (r: Option<nat>)
    ensures r.Some? && r.value < 2 && (r.value == 1 <==> c.blue % 2 == 1)
  {
    SingleParity(c.blue)
  }

  function Rule6(c: Code): (r: Option<nat>)
    ensures r.Some? && r.value < 2 && (r.value == 1 <==> c.yellow % 2 == 1)
  {
    SingleParity(c.yellow)
  }

  function Rule7(c: Code): (r: Option<nat>)
    ensures r.Some? && r.value < 2 && (r.value == 1 <==> c.purple % 2 == 1)
  {
    SingleParity(c.purple)
  }

  // Ruleset 3: how often a digit occurs in the code.

  function CountDigit(c: Code, digit: nat): (r: Option<nat>)
    ensures r == Some(multiset(Fields(c))[digit])
    ensures r.value <= 3
  {
    Some((if c.blue == digit then 1 else 0)
      + (if c.yellow == digit then 1 else 0)
      + (if c.purple == digit then 1 else 0))
  }

  function Rule8(c: Code): (r: Option<nat>) ensures r == Some(multiset(Fields(c))[1]) { CountDigit(c, 1) }
  function Rule9(c: Code): (r: Option<nat>) ensures r == Some(multiset(Fields(c))[3]) { CountDigit(c, 3) }
  function Rule10(c: Code): (r: Option<nat>) ensures r == Some(multiset(Fields(c))[4]) { CountDigit(c, 4) }

  // Ruleset 4: compare two digits of the code.

  function Rule11(c: Code): (r: Option<nat>) ensures Compares(r, c.blue, c.yellow) { CompareValues(c.blue, c.yellow) }
  function Rule12(c: Code): (r: Option<nat>) ensures Compares(r, c.blue, c.purple) { CompareValues(c.blue, c.purple) }
  function Rule13(c: Code): (r: Option<nat>) ensures Compares(r, c.yellow, c.purple) { CompareValues(c.yellow, c.purple) }

  /** Which digit is the unique smallest one; None when the minimum is shared. */
  function Rule14(c: Code): (r: Option<nat>)
    ensures forall k :: 0 <= k < 3 ==> (r == Some(k) <==> StrictlyLeast(c, k))
    ensures r.None? <==> forall k :: 0 <= k < 3 ==> !StrictlyLeast(c, k)
  {
    if c.blue < c.yellow && c.blue < c.purple then Some(0)
    else if c.yellow < c.blue && c.yellow < c.purple then Some(1)
    else if c.purple < c.yellow && c.purple < c.blue then Some(2)
    else None
  }

  /** Which digit is the unique largest one; None when the maximum is shared. */
  function Rule15(c: Code): (r: Option<nat>)
    ensures forall k :: 0 <= k < 3 ==> (r == Some(k) <==> StrictlyGreatest(c, k))
    ensures r.None? <==> forall k :: 0 <= k < 3 ==> !StrictlyGreatest(c, k)
  {
    if c.blue > c.yellow && c.blue > c.purple then Some(0)
    else if c.yellow > c.blue && c.yellow > c.purple then Some(1)
    else if c.purple > c.yellow && c.purple > c.blue then Some(2)
    else None
  }

  /** Whether odd digits are in the majority. */
  function Rule16(c: Code): (r: Option<nat>)
    ensures r.Some? && r.value < 2
    ensures r.value == 1 <==> OddCount(Fields(c)) >= 2
  {
    ParityCounts(c);
    var odd := c.blue % 2 + c.yellow % 2 + c.purple % 2;
    if odd >= 2 then Some(1) else Some(0)
  }

  /** How many digits are even. */
  function Rule17(c: Code): (r: Option<nat>)
    ensures r == Some(EvenCount(Fields(c)))
    ensures r.value <= 3
  {
    ParityCounts(c);
    var odd := c.blue % 2 + c.yellow % 2 + c.purple % 2;
    Some(3 - odd)
  }

  /** The parity of the digit sum, which is the parity of the number of odd digits. */
  function Rule18(c: Code): (r: Option<nat>)
    ensures r == Some(OddCount(Fields(c)) % 2)
  {
    ParityCounts(c);
    if (c.blue + c.yellow + c.purple) % 2 == 0 then Some(0) else Some(1)
  }

  function Rule19(c: Code): (r: Option<nat>)
    ensures Compares(r, c.blue + c.yellow, 6)
  {
    CompareValues(c.blue + c.yellow, 6)
  }

  /** Number of equal pairs among the three digits. */
  function NoPairs(c: Code): (n: nat)
    ensures n != 2
    ensures n == 0 <==> |{c.blue, c.yellow, c.purple}| == 3
    ensures n == 1 <==> |{c.blue, c.yellow, c.purple}| == 2
    ensures n == 3 <==> |{c.blue, c.yellow, c.purple}| == 1
  {
    (if c.blue == c.yellow then 1 else 0)
      + (if c.blue == c.purple then 1 else 0)
      + (if c.yellow == c.purple then 1 else 0)
  }

  /** Whether digits repeat: 2 all distinct, 1 exactly one pair, 0 all equal. */
  function Rule20(c: Code): (r: Option<nat>)
    ensures r == Some(|{c.blue, c.yellow, c.purple}| - 1)
  {
    match NoPairs(c)
    case 0 => Some(2)
    case 1 => Some(1)
    case _ => Some(0)
  }

  /** Whether exactly one pair of digits is equal. */
  function Rule21(c: Code): (r: Option<nat>)
    ensures r.Some? && r.value < 2
    ensures r.value == 1 <==> |{c.blue, c.yellow, c.purple}| == 2
  {
    Some(Rule20(c).value % 2)
  }

  /** The rule table, indexed from 0: entry k is rule k + 1. */
  const RULES: seq<Code -> Option<nat>> := [
    Rule1, Rule2, Rule3, Rule4, Rule5, Rule6, Rule7, Rule8, Rule9,
    Rule10, Rule11, Rule12, Rule13, Rule14, Rule15, Rule16, Rule17,
    Rule18, Rule19, Rule20, Rule21]

  /**
   * Every rule but 14 and 15 answers for every code; every answer is at most 3.
   */
  lemma RulesOutcomes(k: nat, c: Code)
    requires k < |RULES|
    ensures |RULES| == 21
    ensures k != 13 && k != 14 ==> RULES[k](c).Some?
    ensures RULES[k](c).Some? ==> RULES[k](c).value <= 3
  {
    if k == 0 { assert RULES[k] == Rule1; }
    else if k == 1 { assert RULES[k] == Rule2; }
    else if k == 2 { assert RULES[k] == Rule3; }
    else if k == 3 { assert RULES[k] == Rule4; }
    else if k == 4 { assert RULES[k] == Rule5; }
    else if k == 5 { assert RULES[k] == Rule6; }
    else if k == 6 { assert RULES[k] == Rule7; }
    else if k == 7 { assert RULES[k] == Rule8; }
    else if k == 8 { assert RULES[k] == Rule9; }
    else if k == 9 { assert RULES[k] == Rule10; }
    else if k == 10 { assert RULES[k] == Rule11; }
    else if k == 11 { assert RULES[k] == Rule12; }
    else if k == 12 { assert RULES[k] == Rule13; }
    else if k == 13 { assert RULES[k] == Rule14; }
    else if k == 14 { assert RULES[k] == Rule15; }
    else if k == 15 { assert RULES[k] == Rule16; }
    else if k == 16 { assert RULES[k] == Rule17; }
    else if k == 17 { assert RULES[k] == Rule18; }
    else if k == 18 { assert RULES[k] == Rule19; }
    else if k == 19 { assert RULES[k] == Rule20; }
    else { assert RULES[k] == Rule21; }
  }
}
