/**
  What the rule tables compute on integers, strings and lists: addition,
  subtraction and multiplication never wrap around, whatever rules a node has
  installed; the order of every table is a strict priority; integer division
  by zero makes the true-division node move on; the two integer modulo rules
  and the string repetition loop behave as their bodies say; and every
  `@Generic` rule throws a `TypeError`.
 */
module ArithmeticProperties {
  import opened Wrappers
  import opened JavaInt
  import opened PythonValues
  import opened StringRepetition
  import opened ArithmeticRules
  import opened Dispatch
  import opened DispatchProperties

  /** `o` returns a Python integer equal to `x`, as an `int` or as a `BigInteger`. */
  predicate ReturnsInteger(o: Outcome, x: int) {
    o.Returned? && IsInteger(o.value) && IntegerValue(o.value) == x
  }

  /** Every Add rule that takes two integers returns their exact sum. */
  lemma AddRulesExact(left: Value, right: Value)
    requires IsInteger(left) && IsInteger(right)
    ensures forall k :: 0 <= k < |AddRules().rules| && Succeeds(AddRules().rules[k], left, right) ==>
      ReturnsInteger(Compute(AddRules().rules[k].body, left, right), IntegerValue(left) + IntegerValue(right))
    ensures Succeeds(AddRules().rules[3], left, right)
  {
  }

  /**
    Python `+` on integers never wraps around: whatever rules the node has
    installed, the sum of two integers is exact, as an `int` or a `BigInteger`.
   */
  lemma AddNeverWraps(ks: seq<nat>, left: Value, right: Value)
    requires IndicesIn(AddRules().rules, ks)
    requires IsInteger(left) && IsInteger(right)
    ensures ReturnsInteger(ChainAnswer(AddRules(), ks, left, right), IntegerValue(left) + IntegerValue(right))
  {
    AddRulesExact(left, right);
    ChainAnswerFromSucceedingRule(AddRules(), ks, left, right);
  }

  /**
    On two `int`s a fresh node gives an `int` when the sum fits in 32 bits;
    otherwise `addExact` overflows, the rule is abandoned and the
    `int x BigInteger` rule gives the sum as a `BigInteger`.
   */
  lemma AddInts(a: int32, b: int32)
    ensures Evaluate(AddRules(), Int(a), Int(b)) ==
      if InInt32(a + b) then Returned(Int(a + b)) else Returned(BigInt(a + b))
  {
    var rs := AddRules();
    if InInt32(a + b) {
      assert Compute(rs.rules[0].body, Int(a), Int(b)) == Returned(Int(a + b));
      EvaluatesByRule(rs, Int(a), Int(b), 0);
    } else {
      assert Compute(rs.rules[0].body, Int(a), Int(b)).Threw?;
      assert Compute(rs.rules[1].body, Int(a), Int(b)) == Returned(BigInt(a + b));
      EvaluatesByRule(rs, Int(a), Int(b), 1);
    }
  }

  /** `2147483647 + 1` is `2147483648`, not `-2147483648`. */
  lemma AddOverflowExample()
    ensures Evaluate(AddRules(), Int(0x7fff_ffff), Int(1)) == Returned(BigInt(0x8000_0000))
  {
    AddInts(0x7fff_ffff, 1);
  }

  /** Every Sub rule that takes two integers returns their exact difference. */
  lemma SubRulesExact(left: Value, right: Value)
    requires IsInteger(left) && IsInteger(right)
    ensures forall k :: 0 <= k < |SubRules().rules| && Succeeds(SubRules().rules[k], left, right) ==>
      ReturnsInteger(Compute(SubRules().rules[k].body, left, right), IntegerValue(left) - IntegerValue(right))
    ensures Succeeds(SubRules().rules[1], left, right)
  {
  }

  /** Python `-` on integers never wraps around, whatever the node has installed. */
  lemma SubNeverWraps(ks: seq<nat>, left: Value, right: Value)
    requires IndicesIn(SubRules().rules, ks)
    requires IsInteger(left) && IsInteger(right)
    ensures ReturnsInteger(ChainAnswer(SubRules(), ks, left, right), IntegerValue(left) - IntegerValue(right))
  {
    SubRulesExact(left, right);
    ChainAnswerFromSucceedingRule(SubRules(), ks, left, right);
  }

  /** On two `int`s a fresh node gives an `int` when the difference fits, and a `BigInteger` otherwise. */
  lemma SubInts(a: int32, b: int32)
    ensures Evaluate(SubRules(), Int(a), Int(b)) ==
      if InInt32(a - b) then Returned(Int(a - b)) else Returned(BigInt(a - b))
  {
    var rs := SubRules();
    if InInt32(a - b) {
      EvaluatesByRule(rs, Int(a), Int(b), 0);
    } else {
      assert !Succeeds(rs.rules[0], Int(a), Int(b));
      EvaluatesByRule(rs, Int(a), Int(b), 1);
    }
  }

  /** Every Mul rule that takes two integers returns their exact product. */
  lemma MulRulesExact(left: Value, right: Value)
    requires IsInteger(left) && IsInteger(right)
    ensures forall k :: 0 <= k < |MulRules().rules| && Succeeds(MulRules().rules[k], left, right) ==>
      ReturnsInteger(Compute(MulRules().rules[k].body, left, right), IntegerValue(left) * IntegerValue(right))
    ensures Succeeds(MulRules().rules[3], left, right)
  {
  }

  /** Python `*` on integers never wraps around, whatever the node has installed. */
  lemma MulNeverWraps(ks: seq<nat>, left: Value, right: Value)
    requires IndicesIn(MulRules().rules, ks)
    requires IsInteger(left) && IsInteger(right)
    ensures ReturnsInteger(ChainAnswer(MulRules(), ks, left, right), IntegerValue(left) * IntegerValue(right))
  {
    MulRulesExact(left, right);
    ChainAnswerFromSucceedingRule(MulRules(), ks, left, right);
  }

  /** On two `int`s a fresh node gives an `int` when the product fits, and a `BigInteger` otherwise. */
  lemma MulInts(a: int32, b: int32)
    ensures Evaluate(MulRules(), Int(a), Int(b)) ==
      if InInt32(a * b) then Returned(Int(a * b)) else Returned(BigInt(a * b))
  {
    var rs := MulRules();
    if InInt32(a * b) {
      EvaluatesByRule(rs, Int(a), Int(b), 0);
    } else {
      assert !Succeeds(rs.rules[0], Int(a), Int(b));
      EvaluatesByRule(rs, Int(a), Int(b), 1);
    }
  }

  /** Consecutive rules of a table have ascending orders. */
  predicate AdjacentOrdered(rules: seq<Rule>) {
    forall i :: 0 <= i < |rules| - 1 ==> rules[i].order < rules[i + 1].order
  }

  lemma {:induction false} OrderClimbs(rules: seq<Rule>, i: nat, j: nat)
    requires AdjacentOrdered(rules) && i < j < |rules|
    decreases j - i
    ensures rules[i].order < rules[j].order
  {
    if i + 1 < j {
      OrderClimbs(rules, i + 1, j);
    }
  }

  /** Ascending neighbours make the whole table strictly ordered. */
  lemma AdjacentMakesStrict(rules: seq<Rule>)
    requires AdjacentOrdered(rules)
    ensures StrictlyOrdered(rules)
  {
    forall i, j | 0 <= i < j < |rules|
      ensures rules[i].order < rules[j].order
    {
      OrderClimbs(rules, i, j);
    }
  }

  /**
    Every table lists its rules by strictly ascending order, so the table
    position is the priority the annotations give.
   */
  lemma TablesStrictlyOrdered(op: Operator)
    ensures StrictlyOrdered(RulesOf(op).rules)
  {
    TablesAscend();
    AdjacentMakesStrict(RulesOf(op).rules);
  }

  lemma TablesAscend()
    ensures AdjacentOrdered(AddRules().rules) && AdjacentOrdered(SubRules().rules)
    ensures AdjacentOrdered(MulRules().rules) && AdjacentOrdered(DivRules().rules)
    ensures AdjacentOrdered(FloorDivRules().rules) && AdjacentOrdered(ModuloRules().rules)
  {
    AddAscends();
    SubAscends();
    MulAscends();
    DivAscends();
    FloorDivAscends();
    ModuloAscends();
  }

  lemma AddAscends()
    ensures AdjacentOrdered(AddRules().rules)
  {
  }

  lemma MulAscends()
    ensures AdjacentOrdered(MulRules().rules)
  {
  }

  lemma SubAscends()
    ensures AdjacentOrdered(SubRules().rules)
  {
  }

  lemma DivAscends()
    ensures AdjacentOrdered(DivRules().rules)
  {
  }

  lemma FloorDivAscends()
    ensures AdjacentOrdered(FloorDivRules().rules)
  {
  }

  lemma ModuloAscends()
    ensures AdjacentOrdered(ModuloRules().rules)
  {
  }

  /** No rule body throws a `TypeError`: only `@Generic` does. */
  lemma BodiesNeverThrowTypeError(body: Body, left: Value, right: Value)
    ensures !Compute(body, left, right).Threw? || !Compute(body, left, right).exception.TypeError?
  {
  }

  /** A node's answer is a `TypeError` only when no rule of its table succeeds on the operands. */
  lemma TypeErrorOnlyFromGeneric(rs: RuleSet, ks: seq<nat>, left: Value, right: Value)
    requires IndicesIn(rs.rules, ks)
    ensures var o := ChainAnswer(rs, ks, left, right);
      o.Threw? && o.exception.TypeError? ==>
        rs.hasGeneric && forall k :: 0 <= k < |rs.rules| ==> !Succeeds(rs.rules[k], left, right)
  {
    var o := ChainAnswer(rs, ks, left, right);
    match FirstIn(rs.rules, ks, left, right)
    case Some(k) =>
      assert o == Compute(rs.rules[k].body, left, right);
      BodiesNeverThrowTypeError(rs.rules[k].body, left, right);
    case None =>
      match Selected(rs, left, right)
      case Some(k) =>
        assert o == Compute(rs.rules[k].body, left, right);
        BodiesNeverThrowTypeError(rs.rules[k].body, left, right);
      case None =>
        assert o == Generic(rs, left, right);
        SelectedNoneIffNoneSucceeds(rs, left, right);
  }

  /**
    In the Add table `doPythonObject`, with order 200, has the highest order
    and is the last rule: a node throws `TypeError` only after it has been
    tried and did not apply.
   */
  lemma AddPythonObjectLast(ks: seq<nat>, left: Value, right: Value)
    requires IndicesIn(AddRules().rules, ks)
    ensures var rules := AddRules().rules;
      && rules[|rules| - 1].name == "doPythonObject" && rules[|rules| - 1].order == 200
      && (forall k :: 0 <= k < |rules| - 1 ==> rules[k].order < 200)
    ensures var o := ChainAnswer(AddRules(), ks, left, right);
      o.Threw? && o.exception.TypeError? ==> !Succeeds(AddRules().rules[19], left, right)
  {
    TablesStrictlyOrdered(Add);
    TypeErrorOnlyFromGeneric(AddRules(), ks, left, right);
  }

  /**
    The true-division `int` rule never returns when the divisor is zero: it
    throws `ArithmeticException("divide by zero")`, the rule is abandoned,
    and the `BigInteger` rule takes the call.
   */
  lemma DivIntByZero(a: int32)
    ensures Compute(DivRules().rules[0].body, Int(a), Int(0)) == Threw(ArithmeticException("divide by zero"))
    ensures !Succeeds(DivRules().rules[0], Int(a), Int(0))
    ensures Selected(DivRules(), Int(a), Int(0)) == Some(1)
    ensures Evaluate(DivRules(), Int(a), Int(0)) ==
      Delegated("FastMathUtil.slowPathDivide(left, right).doubleValue()", Int(a), Int(0))
  {
    EvaluatesByRule(DivRules(), Int(a), Int(0), 1);
  }

  /** With a non-zero divisor the `int` rule takes the call and divides as `double`s. */
  lemma DivInts(a: int32, b: int32)
    requires b != 0
    ensures Selected(DivRules(), Int(a), Int(b)) == Some(0)
    ensures Evaluate(DivRules(), Int(a), Int(b)) == Delegated("(double) left / right", Int(a), Int(b))
  {
    EvaluatesByRule(DivRules(), Int(a), Int(b), 0);
  }

  /**
    Floor division of two `int`s is Java's `/`: rounded toward zero, wrapped
    to 32 bits, and `/ by zero` for a zero divisor.
   */
  lemma FloorDivInts(a: int32, b: int32)
    ensures Evaluate(FloorDivRules(), Int(a), Int(b)) ==
      if b == 0 then DivideByZero else Returned(Int(Wrap32(JavaDiv(a, b))))
  {
    EvaluatesByRule(FloorDivRules(), Int(a), Int(b), 0);
  }

  /**
    Modulo of two `int`s: a non-negative left operand takes `left % right`;
    every other pair goes to the unguarded `(left + right) % right` rule.
   */
  lemma ModuloInts(a: int32, b: int32)
    ensures Evaluate(ModuloRules(), Int(a), Int(b)) ==
      if b == 0 then DivideByZero
      else if a >= 0 then Returned(Int(JavaRem(a, b)))
      else Returned(Int(JavaRem(Wrap32(a + b), b)))
  {
    if a >= 0 {
      EvaluatesByRule(ModuloRules(), Int(a), Int(b), 0);
    } else {
      EvaluatesByRule(ModuloRules(), Int(a), Int(b), 1);
    }
  }

  /** `-1 % 3` is `2`. */
  lemma ModuloExample()
    ensures Evaluate(ModuloRules(), Int(-1), Int(3)) == Returned(Int(2))
  {
    ModuloInts(-1, 3);
  }

  /**
    For a positive divisor and a left operand no smaller than its negation the
    result lies in `[0, right)`; for a negative left operand it is `left + right`.
   */
  lemma ModuloRange(a: int32, b: int32)
    requires 0 < b && -b <= a
    ensures var o := Evaluate(ModuloRules(), Int(a), Int(b));
      && o.Returned? && o.value.Int?
      && 0 <= o.value.i < b
      && (a < 0 ==> o.value.i == a + b)
  {
    ModuloInts(a, b);
    if a < 0 {
      RemOfSmaller(a + b, b);
    }
  }

  /** A non-negative `x` below `b` is its own remainder. */
  lemma RemOfSmaller(x: int, b: int)
    requires 0 <= x < b
    ensures JavaRem(x, b) == x
  {
    DivModUnique(x, b, 0, x);
  }

  /**
    `int * String` and `String * int` give the same string: the operand
    followed by one more copy for each turn of the loop.
   */
  lemma MulIntString(n: int32, s: string)
    ensures Evaluate(MulRules(), Int(n), Str(s)) == Returned(Str(RepeatAsWritten(s, n)))
    ensures Evaluate(MulRules(), Str(s), Int(n)) == Returned(Str(RepeatAsWritten(s, n)))
  {
    MulIntTimesString(n, s);
    MulStringTimesInt(n, s);
  }

  lemma MulIntTimesString(n: int32, s: string)
    ensures Evaluate(MulRules(), Int(n), Str(s)) == Returned(Str(RepeatAsWritten(s, n)))
  {
    IntTimesStringRule(n, s);
    EvaluatesTo(MulRules(), Int(n), Str(s), 14, Returned(Str(RepeatAsWritten(s, n))));
  }

  /** `doIntString` is the first Mul rule to take an `int` and a string. */
  lemma IntTimesStringRule(n: int32, s: string)
    ensures Succeeds(MulRules().rules[14], Int(n), Str(s))
    ensures forall j :: 0 <= j < 14 ==> !Succeeds(MulRules().rules[j], Int(n), Str(s))
    ensures Compute(MulRules().rules[14].body, Int(n), Str(s)) == Returned(Str(RepeatAsWritten(s, n)))
  {
  }

  lemma MulStringTimesInt(n: int32, s: string)
    ensures Evaluate(MulRules(), Str(s), Int(n)) == Returned(Str(RepeatAsWritten(s, n)))
  {
    StringTimesIntRule(n, s);
    EvaluatesTo(MulRules(), Str(s), Int(n), 15, Returned(Str(RepeatAsWritten(s, n))));
  }

  /** `doStringInt` is the first Mul rule to take a string and an `int`. */
  lemma StringTimesIntRule(n: int32, s: string)
    ensures Succeeds(MulRules().rules[15], Str(s), Int(n))
    ensures forall j :: 0 <= j < 15 ==> !Succeeds(MulRules().rules[j], Str(s), Int(n))
    ensures Compute(MulRules().rules[15].body, Str(s), Int(n)) == Returned(Str(RepeatAsWritten(s, n)))
  {
  }

  /**
    String repetition: `n` copies for `n >= 1`; the string unchanged for
    `n <= 1` (down to, but not including, the smallest `int`); length
    `|s| * max(n, 1)`.
   */
  lemma MulStringCopies(n: int32, s: string)
    ensures n >= 1 ==> Evaluate(MulRules(), Int(n), Str(s)) == Returned(Str(Repeat(s, n)))
    ensures MinInt32 < n <= 1 ==> Evaluate(MulRules(), Int(n), Str(s)) == Returned(Str(s))
    ensures n != MinInt32 ==>
      |Evaluate(MulRules(), Int(n), Str(s)).value.s| == |s| * (if n >= 1 then n else 1)
  {
    MulIntString(n, s);
    RepeatAsWrittenCopies(s, n);
    assert Repeat(s, 1) == s;
  }

  /** Two strings are concatenated. */
  lemma AddStrings(s: string, t: string)
    ensures Evaluate(AddRules(), Str(s), Str(t)) == Returned(Str(s + t))
  {
    EvaluatesByRule(AddRules(), Str(s), Str(t), 12);
  }

  /** Two lists with `int` storage give a list with `int` storage holding the left items, then the right ones. */
  lemma AddIntLists(a: seq<int32>, b: seq<int32>)
    ensures Evaluate(AddRules(), List(IntStorage(a)), List(IntStorage(b))) == Returned(List(IntStorage(a + b)))
  {
    EvaluatesByRule(AddRules(), List(IntStorage(a)), List(IntStorage(b)), 13);
  }

  /** The same for two lists with object storage. */
  lemma AddObjectLists(a: seq<Value>, b: seq<Value>)
    ensures Evaluate(AddRules(), List(ObjectStorage(a)), List(ObjectStorage(b))) ==
      Returned(List(ObjectStorage(a + b)))
  {
    EvaluatesByRule(AddRules(), List(ObjectStorage(a)), List(ObjectStorage(b)), 14);
  }

  /** `None + int` is the `int`. */
  lemma AddNoneInt(n: int32)
    ensures Evaluate(AddRules(), NoneValue, Int(n)) == Returned(Int(n))
  {
    EvaluatesByRule(AddRules(), NoneValue, Int(n), 18);
  }

  /** A string and an integer: no Add rule takes them, and `@Generic` throws a `TypeError`. */
  lemma AddGenericTypeError(s: string, n: int32)
    ensures Evaluate(AddRules(), Str(s), Int(n)) == Threw(TypeError(Add, Str(s), Int(n)))
  {
    NoRuleTakes(AddRules(), Str(s), Int(n));
  }

  /** `None` and a string: `@Generic` of Mul throws a `TypeError`. */
  lemma MulGenericTypeError(s: string)
    ensures Evaluate(MulRules(), NoneValue, Str(s)) == Threw(TypeError(Mul, NoneValue, Str(s)))
  {
    NoRuleTakes(MulRules(), NoneValue, Str(s));
  }

  /** A string and an integer: `@Generic` of Div throws a `TypeError`. */
  lemma DivGenericTypeError(s: string, n: int32)
    ensures Evaluate(DivRules(), Str(s), Int(n)) == Threw(TypeError(Div, Str(s), Int(n)))
  {
    NoRuleTakes(DivRules(), Str(s), Int(n));
  }

  /** A string and an integer: `@Generic` of FloorDiv throws a `TypeError`. */
  lemma FloorDivGenericTypeError(s: string, n: int32)
    ensures Evaluate(FloorDivRules(), Str(s), Int(n)) == Threw(TypeError(FloorDiv, Str(s), Int(n)))
  {
    NoRuleTakes(FloorDivRules(), Str(s), Int(n));
  }

  /** `None` and an integer: `@Generic` of Modulo throws a `TypeError`. */
  lemma ModuloGenericTypeError(n: int32)
    ensures Evaluate(ModuloRules(), NoneValue, Int(n)) == Threw(TypeError(Modulo, NoneValue, Int(n)))
  {
    NoRuleTakes(ModuloRules(), NoneValue, Int(n));
  }

  /** Sub declares no `@Generic`: two strings leave the node without a rule to run. */
  lemma SubWithoutGeneric(s: string, t: string)
    ensures Evaluate(SubRules(), Str(s), Str(t)) == Threw(NoSpecialization(Sub, Str(s), Str(t)))
  {
    NoRuleTakes(SubRules(), Str(s), Str(t));
  }

  /** No rule of `rs` applies to operands of these kinds, so `@Generic` answers. */
  lemma NoRuleTakes(rs: RuleSet, left: Value, right: Value)
    requires forall k :: 0 <= k < |rs.rules| ==> !Applies(rs.rules[k], left, right)
    ensures Evaluate(rs, left, right) == Generic(rs, left, right)
  {
    EvaluatesGeneric(rs, left, right);
  }

}
