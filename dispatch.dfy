/**
  How a node picks the rule to run. A rule *succeeds* on two operands when its
  parameter types accept them, its guard holds, and it does not abandon the
  call: a `rewriteOn = ArithmeticException` rule whose body throws that
  exception is treated as not matching and the search goes on. The node's
  answer is the first succeeding rule in order; with none, the `@Generic` rule.
  A specialized node first searches only the rules it has installed, and
  installs the rule the full search selects when none of them succeeds.
 */
module Dispatch {
  import opened Wrappers
  import opened PythonValues
  import opened ArithmeticRules

  predicate Applies(rule: Rule, left: Value, right: Value) {
    Accepts(rule.left, left) && Accepts(rule.right, right) && GuardHolds(rule.guard, left, right)
  }

  /** The body threw an `ArithmeticException` the rule is declared to rewrite on. */
  predicate AbandonsCall(rule: Rule, o: Outcome) {
    rule.rewriteOnArithmetic && o.Threw? && o.exception.ArithmeticException?
  }

  predicate Succeeds(rule: Rule, left: Value, right: Value) {
    Applies(rule, left, right) && !AbandonsCall(rule, Compute(rule.body, left, right))
  }

  predicate IndicesIn(rules: seq<Rule>, ks: seq<nat>) {
    forall i :: 0 <= i < |ks| ==> ks[i] < |rules|
  }

  predicate StrictlyIncreasing(ks: seq<nat>) {
    forall i, j :: 0 <= i < j < |ks| ==> ks[i] < ks[j]
  }

  /** The first rule, among the indices `ks` in the order given, that succeeds. */
  function FirstIn(rules: seq<Rule>, ks: seq<nat>, left: Value, right: Value): (found: Option<nat>)
    requires IndicesIn(rules, ks)
    ensures found.Some? ==> found.value in ks && Succeeds(rules[found.value], left, right)
    ensures found.None? <==> forall i :: 0 <= i < |ks| ==> !Succeeds(rules[ks[i]], left, right)
  {
    if ks == [] then None
    else if Succeeds(rules[ks[0]], left, right) then Some(ks[0])
    else FirstIn(rules, ks[1..], left, right)
  }

  /** The first rule, at index `from` or later, that succeeds. */
  function FirstFrom(rules: seq<Rule>, from: nat, left: Value, right: Value): (found: Option<nat>)
    decreases |rules| - from
    ensures found.Some? ==> from <= found.value < |rules| && Succeeds(rules[found.value], left, right)
    ensures found.None? <==> forall k :: from <= k < |rules| ==> !Succeeds(rules[k], left, right)
  {
    if from >= |rules| then None
    else if Succeeds(rules[from], left, right) then Some(from)
    else FirstFrom(rules, from + 1, left, right)
  }

  /** The rule the full table selects: the first succeeding one in order. */
  function Selected(rs: RuleSet, left: Value, right: Value): (found: Option<nat>)
    ensures found.Some? ==> found.value < |rs.rules| && Succeeds(rs.rules[found.value], left, right)
    ensures found.None? <==> forall k :: 0 <= k < |rs.rules| ==> !Succeeds(rs.rules[k], left, right)
  {
    FirstFrom(rs.rules, 0, left, right)
  }

  /** `@Generic`: a `TypeError`. A node without one has no rule left to run. */
  function Generic(rs: RuleSet, left: Value, right: Value): (o: Outcome)
    ensures o.Threw?
    ensures o.exception.TypeError? <==> rs.hasGeneric
  {
    if rs.hasGeneric then Threw(TypeError(rs.op, left, right))
    else Threw(NoSpecialization(rs.op, left, right))
  }

  /**
    The node's answer, independent of what it has installed so far. Rule
    bodies throw only `ArithmeticException`, so any other exception means that
    no rule took the call.
   */
  function Evaluate(rs: RuleSet, left: Value, right: Value): (o: Outcome)
    ensures o.Threw? && !o.exception.ArithmeticException? <==> Selected(rs, left, right).None?
    ensures o.Threw? && o.exception.TypeError? <==> rs.hasGeneric && Selected(rs, left, right).None?
  {
    match Selected(rs, left, right)
    case Some(k) => Compute(rs.rules[k].body, left, right)
    case None => Generic(rs, left, right)
  }

  /**
    The answer of a node that has installed the rules `ks`. Whatever is
    installed, it falls through to `@Generic` exactly when no rule of the
    table takes the call.
   */
  function ChainAnswer(rs: RuleSet, ks: seq<nat>, left: Value, right: Value): (o: Outcome)
    requires IndicesIn(rs.rules, ks)
    ensures o.Threw? && !o.exception.ArithmeticException? <==> Selected(rs, left, right).None?
    ensures o.Threw? && o.exception.TypeError? <==> rs.hasGeneric && Selected(rs, left, right).None?
  {
    match FirstIn(rs.rules, ks, left, right)
    case Some(k) => Compute(rs.rules[k].body, left, right)
    case None => Evaluate(rs, left, right)
  }

  /** `ks` with `k` put in its place by ascending index. */
  function InsertSorted(ks: seq<nat>, k: nat): (r: seq<nat>)
    requires StrictlyIncreasing(ks) && k !in ks
    ensures StrictlyIncreasing(r)
    ensures |r| == |ks| + 1
    ensures forall x :: x in r <==> x in ks || x == k
  {
    if ks == [] || k < ks[0] then [k] + ks
    else
      assert ks[0] < k by { assert ks[0] in ks; }
      assert forall j :: 0 <= j < |ks[1..]| ==> ks[0] < ks[1..][j] by {
        forall j | 0 <= j < |ks[1..]| ensures ks[0] < ks[1..][j] { assert ks[1..][j] == ks[j + 1]; }
      }
      var rest := InsertSorted(ks[1..], k);
      forall i | 0 <= i < |rest|
        ensures ks[0] < rest[i]
      {
        assert rest[i] in rest;
        if rest[i] != k {
          var j :| 0 <= j < |ks[1..]| && ks[1..][j] == rest[i];
        }
      }
      [ks[0]] + rest
  }

  /**
    The installed rules after a call: the selected rule joins them, in its
    place, when none of them succeeded. They stay sorted and duplicate-free,
    gain at most one rule and lose none.
   */
  function Rewritten(rs: RuleSet, ks: seq<nat>, left: Value, right: Value): (ks': seq<nat>)
    requires IndicesIn(rs.rules, ks) && StrictlyIncreasing(ks)
    ensures IndicesIn(rs.rules, ks') && StrictlyIncreasing(ks')
    ensures forall x :: x in ks ==> x in ks'
    ensures |ks| <= |ks'| <= |ks| + 1
    ensures FirstIn(rs.rules, ks, left, right).Some? || Selected(rs, left, right).None? ==> ks' == ks
    ensures FirstIn(rs.rules, ks, left, right).None? && Selected(rs, left, right).Some? ==>
      ks' == InsertSorted(ks, Selected(rs, left, right).value)
  {
    if FirstIn(rs.rules, ks, left, right).None? && Selected(rs, left, right).Some? then
      var k := Selected(rs, left, right).value;
      assert k !in ks;
      var ks' := InsertSorted(ks, k);
      assert forall i :: 0 <= i < |ks'| ==> ks'[i] < |rs.rules| by {
        forall i | 0 <= i < |ks'| ensures ks'[i] < |rs.rules| {
          assert ks'[i] in ks';
          if ks'[i] != k {
            var j :| 0 <= j < |ks| && ks[j] == ks'[i];
          }
        }
      }
      ks'
    else ks
  }
}
