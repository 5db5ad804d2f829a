/**
  A binary arithmetic node as it rewrites itself at run time. A fresh node has
  no specialization installed; each call first tries the installed ones in
  ascending order and, when none of them succeeds, searches the operator's
  whole table and installs the rule it selects. How the generated code stores
  the installed rules (a chain of nodes) and whether it ever collapses them
  into the generic case are not part of this model: the installed rules are a
  sorted list of indices into the table, without a bound on its length.
 */
module SpecializationNode {
  import opened Wrappers
  import opened PythonValues
  import opened ArithmeticRules
  import opened Dispatch
  import opened DispatchProperties

  class ArithmeticNode {
    const ruleSet: RuleSet
    var installed: seq<nat>

    ghost predicate Valid()
      reads this
    {
      IndicesIn(ruleSet.rules, installed) && StrictlyIncreasing(installed)
    }

    constructor (op: Operator)
      ensures Valid()
      ensures ruleSet == RulesOf(op) && installed == []
    {
      ruleSet := RulesOf(op);
      installed := [];
    }

    /**
      Runs the rule at index `k` on the operands. `None` stands for "this rule
      does not take the call": its kinds or guard do not match, or it threw an
      `ArithmeticException` it is declared to rewrite on.
     */
    method TryRule(k: nat, left: Value, right: Value) returns (answer: Option<Outcome>)
      requires k < |ruleSet.rules|
      ensures answer.Some? <==> Succeeds(ruleSet.rules[k], left, right)
      ensures answer.Some? ==> answer.value == Compute(ruleSet.rules[k].body, left, right)
    {
      var rule := ruleSet.rules[k];
      if !Applies(rule, left, right) {
        return None;
      }
      var o := Compute(rule.body, left, right);
      if rule.rewriteOnArithmetic && o.Threw? && o.exception.ArithmeticException? {
        return None;
      }
      return Some(o);
    }

    /** Tries the installed rules in ascending order, as the specialized node does first. */
    method SearchInstalled(left: Value, right: Value) returns (found: Option<nat>, answer: Outcome)
      requires Valid()
      ensures found == FirstIn(ruleSet.rules, installed, left, right)
      ensures found.Some? ==> answer == Compute(ruleSet.rules[found.value].body, left, right)
    {
      var i := 0;
      while i < |installed|
        invariant 0 <= i <= |installed|
        invariant forall j :: 0 <= j < i ==> !Succeeds(ruleSet.rules[installed[j]], left, right)
      {
        var tried := TryRule(installed[i], left, right);
        if tried.Some? {
          FirstInAt(ruleSet.rules, installed, i, left, right);
          return Some(installed[i]), tried.value;
        }
        i := i + 1;
      }
      return None, Generic(ruleSet, left, right);
    }

    /** Tries every rule of the table in order, as the node does when nothing installed takes the call. */
    method SearchTable(left: Value, right: Value) returns (found: Option<nat>, answer: Outcome)
      ensures found == Selected(ruleSet, left, right)
      ensures found.Some? ==> answer == Compute(ruleSet.rules[found.value].body, left, right)
      ensures found.None? ==> answer == Generic(ruleSet, left, right)
    {
      var k := 0;
      while k < |ruleSet.rules|
        invariant 0 <= k <= |ruleSet.rules|
        invariant forall j :: 0 <= j < k ==> !Succeeds(ruleSet.rules[j], left, right)
      {
        var tried := TryRule(k, left, right);
        if tried.Some? {
          SelectedIsFirstSuccess(ruleSet, left, right, k);
          return Some(k), tried.value;
        }
        k := k + 1;
      }
      SelectedNoneIffNoneSucceeds(ruleSet, left, right);
      return None, Generic(ruleSet, left, right);
    }

    /**
      One call of the node: the installed rules first, then the whole table,
      installing the rule it selects; with no rule left, `@Generic`.
     */
    method Execute(left: Value, right: Value) returns (result: Outcome)
      requires Valid()
      modifies this
      ensures Valid()
      ensures result == ChainAnswer(ruleSet, old(installed), left, right)
      ensures installed == Rewritten(ruleSet, old(installed), left, right)
    {
      var ks := installed;
      var hit, answer := SearchInstalled(left, right);
      if hit.Some? {
        return answer;
      }
      var selected, fallback := SearchTable(left, right);
      if selected.Some? {
        installed := InsertSorted(ks, selected.value);
        assert installed == Rewritten(ruleSet, ks, left, right);
      }
      return fallback;
    }
  }
}
