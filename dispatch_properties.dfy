/**
  What the order of a table buys: the selected rule is exactly the first one
  that succeeds, a node's installed rules stay sorted and only grow, and once
  the selected rule is installed the node answers as the full table does.
 */
module DispatchProperties {
  import opened Wrappers
  import opened PythonValues
  import opened ArithmeticRules
  import opened Dispatch

  /** Searching from `from` upward finds `k` exactly when `k` is the first rule there that succeeds. */
  lemma {:induction false} FirstFromIsFirst(rules: seq<Rule>, from: nat, left: Value, right: Value, k: nat)
    decreases |rules| - from
    ensures FirstFrom(rules, from, left, right) == Some(k) <==>
      from <= k < |rules| && Succeeds(rules[k], left, right) &&
      forall j :: from <= j < k ==> !Succeeds(rules[j], left, right)
  {
    if from < |rules| {
      if Succeeds(rules[from], left, right) {
        if k != from && from <= k {
          assert from <= from < k;
        }
      } else {
        FirstFromIsFirst(rules, from + 1, left, right, k);
      }
    }
  }

  /** A search over `ks` stops at the first position whose rule succeeds. */
  lemma {:induction false} FirstInAt(rules: seq<Rule>, ks: seq<nat>, i: nat, left: Value, right: Value)
    requires IndicesIn(rules, ks) && i < |ks|
    requires Succeeds(rules[ks[i]], left, right)
    requires forall j :: 0 <= j < i ==> !Succeeds(rules[ks[j]], left, right)
    ensures FirstIn(rules, ks, left, right) == Some(ks[i])
  {
    if i > 0 {
      assert !Succeeds(rules[ks[0]], left, right);
      assert forall j :: 0 <= j < i - 1 ==> ks[1..][j] == ks[j + 1];
      FirstInAt(rules, ks[1..], i - 1, left, right);
    }
  }

  /** The selected rule succeeds and no rule of lower order does; and that determines it. */
  lemma SelectedIsFirstSuccess(rs: RuleSet, left: Value, right: Value, k: nat)
    ensures Selected(rs, left, right) == Some(k) <==>
      k < |rs.rules| && Succeeds(rs.rules[k], left, right) &&
      forall j :: 0 <= j < k ==> !Succeeds(rs.rules[j], left, right)
  {
    FirstFromIsFirst(rs.rules, 0, left, right, k);
  }

  /** The full search comes back empty exactly when no rule of the table succeeds. */
  lemma SelectedNoneIffNoneSucceeds(rs: RuleSet, left: Value, right: Value)
    ensures Selected(rs, left, right).None? <==>
      forall k :: 0 <= k < |rs.rules| ==> !Succeeds(rs.rules[k], left, right)
  {
  }

  /** Evaluation is the first succeeding rule's body, or `@Generic` when none succeeds. */
  lemma EvaluateIsFirstSuccessOrGeneric(rs: RuleSet, left: Value, right: Value)
    ensures (forall k :: 0 <= k < |rs.rules| ==> !Succeeds(rs.rules[k], left, right)) ==>
      Evaluate(rs, left, right) == Generic(rs, left, right)
    ensures forall k :: (0 <= k < |rs.rules| && Succeeds(rs.rules[k], left, right) &&
      (forall j :: 0 <= j < k ==> !Succeeds(rs.rules[j], left, right))) ==>
      Evaluate(rs, left, right) == Compute(rs.rules[k].body, left, right)
  {
    SelectedNoneIffNoneSucceeds(rs, left, right);
    forall k | 0 <= k < |rs.rules| && Succeeds(rs.rules[k], left, right) &&
      (forall j :: 0 <= j < k ==> !Succeeds(rs.rules[j], left, right))
      ensures Evaluate(rs, left, right) == Compute(rs.rules[k].body, left, right)
    {
      SelectedIsFirstSuccess(rs, left, right, k);
    }
  }

  /** When rule `k` is the first to succeed, the node's answer is its body's result. */
  lemma EvaluatesByRule(rs: RuleSet, left: Value, right: Value, k: nat)
    requires k < |rs.rules| && Succeeds(rs.rules[k], left, right)
    requires forall j :: 0 <= j < k ==> !Succeeds(rs.rules[j], left, right)
    ensures Selected(rs, left, right) == Some(k)
    ensures Evaluate(rs, left, right) == Compute(rs.rules[k].body, left, right)
  {
    SelectedIsFirstSuccess(rs, left, right, k);
  }

  /** The same, for a body whose result is already known to be `o`. */
  lemma EvaluatesTo(rs: RuleSet, left: Value, right: Value, k: nat, o: Outcome)
    requires k < |rs.rules| && Succeeds(rs.rules[k], left, right)
    requires forall j :: 0 <= j < k ==> !Succeeds(rs.rules[j], left, right)
    requires Compute(rs.rules[k].body, left, right) == o
    ensures Evaluate(rs, left, right) == o
  {
    EvaluatesByRule(rs, left, right, k);
  }

  /** When no rule succeeds, the node's answer is the `@Generic` one. */
  lemma EvaluatesGeneric(rs: RuleSet, left: Value, right: Value)
    requires forall k :: 0 <= k < |rs.rules| ==> !Succeeds(rs.rules[k], left, right)
    ensures Selected(rs, left, right) == None
    ensures Evaluate(rs, left, right) == Generic(rs, left, right)
  {
    SelectedNoneIffNoneSucceeds(rs, left, right);
  }

  /**
    Installed rules are searched in ascending order, so when the rule the full
    table selects is installed, no installed rule before it succeeds and the
    node gives the full table's answer.
   */
  lemma {:induction false} ChainAgreesWhenSelectedInstalled(rs: RuleSet, ks: seq<nat>, left: Value, right: Value)
    requires IndicesIn(rs.rules, ks) && StrictlyIncreasing(ks)
    requires Selected(rs, left, right).Some? && Selected(rs, left, right).value in ks
    ensures FirstIn(rs.rules, ks, left, right) == Selected(rs, left, right)
    ensures ChainAnswer(rs, ks, left, right) == Evaluate(rs, left, right)
  {
    var k := Selected(rs, left, right).value;
    SelectedIsFirstSuccess(rs, left, right, k);
    if ks[0] != k {
      assert ks[0] < k by {
        var i :| 0 <= i < |ks| && ks[i] == k;
        assert i > 0;
      }
      assert !Succeeds(rs.rules[ks[0]], left, right);
      assert k in ks[1..] by {
        var i :| 0 <= i < |ks| && ks[i] == k;
        assert ks[1..][i - 1] == k;
      }
      ChainAgreesWhenSelectedInstalled(rs, ks[1..], left, right);
    }
  }

  /** A fresh node, with nothing installed, answers as the full table does. */
  lemma FreshNodeAgrees(rs: RuleSet, left: Value, right: Value)
    ensures ChainAnswer(rs, [], left, right) == Evaluate(rs, left, right)
    ensures Rewritten(rs, [], left, right) ==
      if Selected(rs, left, right).Some? then [Selected(rs, left, right).value] else []
  {
  }

  /**
    Whatever a node has installed, its answer is the body of a rule that
    succeeds on the operands, or `@Generic` when no rule of the table does.
   */
  lemma ChainAnswerFromSucceedingRule(rs: RuleSet, ks: seq<nat>, left: Value, right: Value)
    requires IndicesIn(rs.rules, ks)
    ensures
      || (ChainAnswer(rs, ks, left, right) == Generic(rs, left, right) &&
          forall k :: 0 <= k < |rs.rules| ==> !Succeeds(rs.rules[k], left, right))
      || exists k :: 0 <= k < |rs.rules| && Succeeds(rs.rules[k], left, right) &&
          ChainAnswer(rs, ks, left, right) == Compute(rs.rules[k].body, left, right)
  {
    SelectedNoneIffNoneSucceeds(rs, left, right);
    match FirstIn(rs.rules, ks, left, right)
    case Some(k) =>
    case None =>
      match Selected(rs, left, right)
      case Some(k) => SelectedIsFirstSuccess(rs, left, right, k);
      case None =>
  }

  /**
    After one call the node has settled for those operands: the same call
    installs nothing more, gives the same answer, and that answer is the full
    table's whenever the call had to install.
   */
  lemma RewrittenSettles(rs: RuleSet, ks: seq<nat>, left: Value, right: Value)
    requires IndicesIn(rs.rules, ks) && StrictlyIncreasing(ks)
    ensures var ks' := Rewritten(rs, ks, left, right);
      && Rewritten(rs, ks', left, right) == ks'
      && ChainAnswer(rs, ks', left, right) == ChainAnswer(rs, ks, left, right)
      && (FirstIn(rs.rules, ks, left, right).None? ==> ChainAnswer(rs, ks', left, right) == Evaluate(rs, left, right))
  {
    var ks' := Rewritten(rs, ks, left, right);
    if ks' != ks {
      ChainAgreesWhenSelectedInstalled(rs, ks', left, right);
    }
  }
}
