/**
  Short runs of a node through several calls: what it answers and which
  rules it has installed afterwards.
 */
module NodeScenarios {
  import opened Wrappers
  import opened JavaInt
  import opened PythonValues
  import opened ArithmeticRules
  import opened Dispatch
  import opened DispatchProperties
  import opened ArithmeticProperties
  import opened SpecializationNode

  /**
    An Add node meets a sum that fits in an `int` and installs the `int`
    rule; meets one that overflows, which makes it install the
    `int x BigInteger` rule as well; and still answers a sum that fits with an
    `int`, from the rule it tries first.
   */
  method AddSpecializesThenWidens(a: int32, b: int32, c: int32, d: int32, e: int32, f: int32)
    returns (first: Outcome, widened: Outcome, again: Outcome, installed: seq<nat>)
    requires InInt32(a + b) && !InInt32(c + d) && InInt32(e + f)
    ensures first == Returned(Int(a + b))
    ensures widened == Returned(BigInt(c + d))
    ensures again == Returned(Int(e + f))
    ensures installed == [0, 1]
  {
    var node := new ArithmeticNode(Add);
    FirstAddCall(a, b);
    first := node.Execute(Int(a), Int(b));
    OverflowingAddCall(c, d);
    widened := node.Execute(Int(c), Int(d));
    LaterAddCall(e, f);
    again := node.Execute(Int(e), Int(f));
    installed := node.installed;
  }

  lemma FirstAddCall(a: int32, b: int32)
    requires InInt32(a + b)
    ensures ChainAnswer(AddRules(), [], Int(a), Int(b)) == Returned(Int(a + b))
    ensures Rewritten(AddRules(), [], Int(a), Int(b)) == [0]
  {
    AddInts(a, b);
    EvaluatesByRule(AddRules(), Int(a), Int(b), 0);
  }

  lemma OverflowingAddCall(c: int32, d: int32)
    requires !InInt32(c + d)
    ensures IndicesIn(AddRules().rules, [0]) && StrictlyIncreasing([0])
    ensures ChainAnswer(AddRules(), [0], Int(c), Int(d)) == Returned(BigInt(c + d))
    ensures Rewritten(AddRules(), [0], Int(c), Int(d)) == [0, 1]
  {
    AddOverflowSelects(c, d);
    assert FirstIn(AddRules().rules, [0], Int(c), Int(d)) == None;
    assert InsertSorted([0], 1) == [0, 1];
  }

  /** An overflowing `int + int` abandons `doInteger` and selects `doIntegerBigInteger`. */
  lemma AddOverflowSelects(a: int32, b: int32)
    requires !InInt32(a + b)
    ensures !Succeeds(AddRules().rules[0], Int(a), Int(b))
    ensures Selected(AddRules(), Int(a), Int(b)) == Some(1)
    ensures Evaluate(AddRules(), Int(a), Int(b)) == Returned(BigInt(a + b))
  {
    var rs := AddRules();
    assert Compute(rs.rules[0].body, Int(a), Int(b)).Threw?;
    assert Compute(rs.rules[1].body, Int(a), Int(b)) == Returned(BigInt(a + b));
    EvaluatesByRule(rs, Int(a), Int(b), 1);
  }

  lemma LaterAddCall(e: int32, f: int32)
    requires InInt32(e + f)
    ensures IndicesIn(AddRules().rules, [0, 1]) && StrictlyIncreasing([0, 1])
    ensures ChainAnswer(AddRules(), [0, 1], Int(e), Int(f)) == Returned(Int(e + f))
    ensures Rewritten(AddRules(), [0, 1], Int(e), Int(f)) == [0, 1]
  {
    assert Succeeds(AddRules().rules[0], Int(e), Int(f));
  }

  /**
    A fresh Add node whose first call overflows installs only the
    `int x BigInteger` rule. From then on it answers a sum that fits in an
    `int` with a `BigInteger` of the same number, where the full table would
    give an `int`: the node and the table agree on the number, not on its
    representation.
   */
  method OverflowFirstKeepsBigInteger(c: int32, d: int32, e: int32, f: int32)
    returns (widened: Outcome, later: Outcome, installed: seq<nat>)
    requires !InInt32(c + d) && InInt32(e + f)
    ensures widened == Returned(BigInt(c + d))
    ensures later == Returned(BigInt(e + f))
    ensures Evaluate(AddRules(), Int(e), Int(f)) == Returned(Int(e + f))
    ensures installed == [1]
  {
    var node := new ArithmeticNode(Add);
    FreshOverflowingAddCall(c, d);
    widened := node.Execute(Int(c), Int(d));
    WidenedAddCall(e, f);
    later := node.Execute(Int(e), Int(f));
    installed := node.installed;
  }

  lemma FreshOverflowingAddCall(c: int32, d: int32)
    requires !InInt32(c + d)
    ensures ChainAnswer(AddRules(), [], Int(c), Int(d)) == Returned(BigInt(c + d))
    ensures Rewritten(AddRules(), [], Int(c), Int(d)) == [1]
  {
    AddOverflowSelects(c, d);
    assert InsertSorted([], 1) == [1];
  }

  lemma WidenedAddCall(e: int32, f: int32)
    requires InInt32(e + f)
    ensures IndicesIn(AddRules().rules, [1]) && StrictlyIncreasing([1])
    ensures ChainAnswer(AddRules(), [1], Int(e), Int(f)) == Returned(BigInt(e + f))
    ensures Rewritten(AddRules(), [1], Int(e), Int(f)) == [1]
    ensures Evaluate(AddRules(), Int(e), Int(f)) == Returned(Int(e + f))
  {
    assert Succeeds(AddRules().rules[1], Int(e), Int(f));
    AddInts(e, f);
  }

  /**
    A Div node meets a non-zero divisor and installs the `int` rule; then a
    zero divisor, which that rule refuses, so it installs the `BigInteger`
    rule as well.
   */
  method DivideThenDivideByZero(a: int32, b: int32, c: int32) returns (first: Outcome, second: Outcome, installed: seq<nat>)
    requires b != 0
    ensures first == Delegated("(double) left / right", Int(a), Int(b))
    ensures second == Delegated("FastMathUtil.slowPathDivide(left, right).doubleValue()", Int(c), Int(0))
    ensures installed == [0, 1]
  {
    var node := new ArithmeticNode(Div);
    FirstDivCall(a, b);
    first := node.Execute(Int(a), Int(b));
    ZeroDivisorCall(c);
    second := node.Execute(Int(c), Int(0));
    installed := node.installed;
  }

  lemma FirstDivCall(a: int32, b: int32)
    requires b != 0
    ensures ChainAnswer(DivRules(), [], Int(a), Int(b)) == Delegated("(double) left / right", Int(a), Int(b))
    ensures Rewritten(DivRules(), [], Int(a), Int(b)) == [0]
  {
    DivInts(a, b);
  }

  lemma ZeroDivisorCall(c: int32)
    ensures IndicesIn(DivRules().rules, [0]) && StrictlyIncreasing([0])
    ensures ChainAnswer(DivRules(), [0], Int(c), Int(0)) ==
      Delegated("FastMathUtil.slowPathDivide(left, right).doubleValue()", Int(c), Int(0))
    ensures Rewritten(DivRules(), [0], Int(c), Int(0)) == [0, 1]
  {
    DivIntByZero(c);
  }
}
