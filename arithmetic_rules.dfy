/**
  The specialization tables of the binary arithmetic nodes. Each operator is an
  ordered table of rules; a rule names the declared Java types of its two
  parameters, an optional guard, whether an `ArithmeticException` it throws
  makes the node move on (`rewriteOn = ArithmeticException.class`), and what
  its body computes. The table order is the `order` of the annotations.
 */
module ArithmeticRules {
  import opened JavaInt
  import opened PythonValues
  import opened StringRepetition

  datatype Operator = Add | Sub | Mul | Div | FloorDiv | Modulo

  /** The declared type of a specialization parameter: one kind, or Java `Object`. */
  datatype Param = Exactly(kind: Kind) | AnyObject

  datatype Guard =
    | Unguarded
    | AreBothIntStorage
    | AreBothObjectStorage
    | IsEitherOperandPythonObject
    | IsLeftPositive

  /** What a rule body computes. `Call` bodies hand the operands to code outside this model. */
  datatype Body =
    | AddExact | SubtractExact | MultiplyExact
    | BigAdd | BigSubtract | BigMultiply | BigMod
    | IntTrueDivide | IntDivide | IntRemainder | IntRemainderShifted
    | StringConcat | IntStorageConcat | ObjectStorageConcat
    | NoneInt | RepeatRight | RepeatLeft
    | Call(target: string)

  /**
    One `@Specialization`. `explicitOrder` is false for the specializations that
    carry no `order`; those keep their declaration position among the others.
   */
  datatype Rule = Rule(
    name: string,
    order: int,
    explicitOrder: bool,
    left: Param,
    right: Param,
    guard: Guard,
    rewriteOnArithmetic: bool,
    body: Body)

  /** The rules of one operator node, and whether it declares a `@Generic` rule. */
  datatype RuleSet = RuleSet(op: Operator, rules: seq<Rule>, hasGeneric: bool)

  datatype Exception =
    | ArithmeticException(message: string)
    | TypeError(op: Operator, left: Value, right: Value)
    | NoSpecialization(op: Operator, left: Value, right: Value)

  /** A rule's result: a value, a thrown exception, or the result of a call into code this model does not contain. */
  datatype Outcome =
    | Returned(value: Value)
    | Threw(exception: Exception)
    | Delegated(call: string, left: Value, right: Value)

  /** A parameter of type `BigInteger` also takes an `int`, widened by the type system's implicit cast. */
  predicate Accepts(p: Param, v: Value): (b: bool)
    ensures p.AnyObject? ==> b
    ensures p.Exactly? && p.kind != BigIntKind ==> (b <==> KindOf(v) == p.kind)
    ensures p.Exactly? && p.kind == BigIntKind ==> (b <==> IsInteger(v))
  {
    match p
    case AnyObject => true
    case Exactly(k) => KindOf(v) == k || (k == BigIntKind && v.Int?)
  }

  predicate IsPythonObject(v: Value) {
    v.Opaque? && v.kind == PythonObject
  }

  /** The guards of the table. The two storage guards never hold together. */
  predicate GuardHolds(g: Guard, left: Value, right: Value): (b: bool)
    ensures g.Unguarded? ==> b
    ensures g.IsLeftPositive? && left.Int? ==> (b <==> left.i >= 0)
    ensures b && (g.AreBothIntStorage? || g.AreBothObjectStorage?) ==>
      left.List? && right.List? &&
      left.storage.IntStorage? == g.AreBothIntStorage? && right.storage.IntStorage? == g.AreBothIntStorage?
  {
    match g
    case Unguarded => true
    case AreBothIntStorage =>
      left.List? && right.List? && left.storage.IntStorage? && right.storage.IntStorage?
    case AreBothObjectStorage =>
      left.List? && right.List? && left.storage.ObjectStorage? && right.storage.ObjectStorage?
    case IsEitherOperandPythonObject => IsPythonObject(left) || IsPythonObject(right)
    case IsLeftPositive => Int32Of(left) >= 0
  }

  /** The operand as a Java `int` parameter receives it. */
  function Int32Of(v: Value): int32 {
    if v.Int? then v.i else 0
  }

  /** The operand as a `BigInteger` parameter receives it, after widening an `int`. */
  function BigOf(v: Value): int {
    if v.Int? then v.i else if v.BigInt? then v.n else 0
  }

  function StrOf(v: Value): string {
    if v.Str? then v.s else []
  }

  function IntsOf(v: Value): seq<int32> {
    if v.List? && v.storage.IntStorage? then v.storage.ints else []
  }

  function ItemsOf(v: Value): seq<Value> {
    if v.List? && v.storage.ObjectStorage? then v.storage.items else []
  }

  /** `ExactMath.addExact` and its siblings: the exact `int` result, or an `ArithmeticException`. */
  function ExactInt(x: int): (o: Outcome)
    ensures o.Returned? <==> InInt32(x)
    ensures o.Returned? ==> o.value == Int(x)
    ensures !InInt32(x) ==> o.Threw? && o.exception.ArithmeticException?
  {
    if InInt32(x) then Returned(Int(x)) else Threw(ArithmeticException("integer overflow"))
  }

  /** Java `int` division or remainder by zero. */
  const DivideByZero: Outcome := Threw(ArithmeticException("/ by zero"))

  /**
    The body of a rule applied to its two operands. It is only used where the
    rule's parameters accept the operands, so the accessors above read the
    representation the parameter types promise.
   */
  function Compute(body: Body, left: Value, right: Value): (o: Outcome)
    ensures o.Threw? ==> o.exception.ArithmeticException?
    ensures o.Threw? ==>
      || body.AddExact? || body.SubtractExact? || body.MultiplyExact? || body.BigMod?
      || body.IntTrueDivide? || body.IntDivide? || body.IntRemainder? || body.IntRemainderShifted?
    ensures o.Delegated? <==> body.Call? || (body.IntTrueDivide? && Int32Of(right) != 0)
  {
    var a, b := Int32Of(left), Int32Of(right);
    var x, y := BigOf(left), BigOf(right);
    match body
    case AddExact => ExactInt(a + b)
    case SubtractExact => ExactInt(a - b)
    case MultiplyExact => ExactInt(a * b)
    case BigAdd => Returned(BigInt(x + y))
    case BigSubtract => Returned(BigInt(x - y))
    case BigMultiply => Returned(BigInt(x * y))
    case BigMod =>
      // BigInteger.mod rejects a modulus that is not positive; otherwise its result is in [0, y)
      if y <= 0 then Threw(ArithmeticException("BigInteger: modulus not positive"))
      else Returned(BigInt(x % y))
    case IntTrueDivide =>
      if b == 0 then Threw(ArithmeticException("divide by zero"))
      else Delegated("(double) left / right", left, right)
    case IntDivide =>
      if b == 0 then DivideByZero else Returned(Int(Wrap32(JavaDiv(a, b))))
    case IntRemainder =>
      if b == 0 then DivideByZero
      else JavaRemInInt32(a, b); Returned(Int(JavaRem(a, b)))
    case IntRemainderShifted =>
      if b == 0 then DivideByZero
      else JavaRemInInt32(Wrap32(a + b), b); Returned(Int(JavaRem(Wrap32(a + b), b)))
    case StringConcat => Returned(Str(StrOf(left) + StrOf(right)))
    case IntStorageConcat => Returned(List(IntStorage(IntsOf(left) + IntsOf(right))))
    case ObjectStorageConcat => Returned(List(ObjectStorage(ItemsOf(left) + ItemsOf(right))))
    case NoneInt => Returned(right)
    case RepeatRight => Returned(Str(RepeatAsWritten(StrOf(right), a)))
    case RepeatLeft => Returned(Str(RepeatAsWritten(StrOf(left), b)))
    case Call(target) => Delegated(target, left, right)
  }

  const IntP := Exactly(IntKind)
  const BigP := Exactly(BigIntKind)
  const StringP := Exactly(StringKind)
  const ListP := Exactly(ListKind)
  const NoneP := Exactly(NoneKind)
  const DoubleP := Exactly(OpaqueOf(Double))
  const ComplexP := Exactly(OpaqueOf(Complex))
  const TupleP := Exactly(OpaqueOf(Tuple))
  const ArrayP := Exactly(OpaqueOf(PArray))
  const SetP := Exactly(OpaqueOf(BaseSet))

  /** An unguarded specialization with an explicit `order` and no `rewriteOn`. */
  function Plain(name: string, order: int, left: Param, right: Param, body: Body): Rule {
    Rule(name, order, true, left, right, Unguarded, false, body)
  }

  /** The `int x int` fast path, abandoned when its body throws `ArithmeticException`. */
  function RewriteOnArithmetic(order: int, body: Body): Rule {
    Rule("doInteger", order, true, IntP, IntP, Unguarded, true, body)
  }

  /** `doPythonObject`: the operator's special method, for an operand that is a user-defined object. */
  function SpecialMethod(order: int, methodName: string): Rule {
    Rule("doPythonObject", order, true, AnyObject, AnyObject, IsEitherOperandPythonObject, false,
         Call("doSpecialMethodCall " + methodName))
  }

  function AddRules(): (rs: RuleSet)
    ensures rs.op == Add && |rs.rules| == 20 && rs.hasGeneric
    ensures forall k :: 0 <= k < |rs.rules| ==> (rs.rules[k].rewriteOnArithmetic <==> k == 0)
    ensures forall k :: 0 <= k < |rs.rules| ==> rs.rules[k].explicitOrder
  {
    RuleSet(Add, [
      RewriteOnArithmetic(5, AddExact),
      Plain("doIntegerBigInteger", 6, IntP, BigP, BigAdd),
      Plain("doBigIntegerInteger", 7, BigP, IntP, BigAdd),
      Plain("doBigInteger", 10, BigP, BigP, BigAdd),
      Plain("doDoubleInt", 15, DoubleP, IntP, Call("double + int")),
      Plain("doDoubleInt", 16, IntP, DoubleP, Call("int + double")),
      Plain("doDouble", 20, DoubleP, DoubleP, Call("double + double")),
      Plain("doComplexInt", 30, ComplexP, IntP, Call("complex + int")),
      Plain("doDoubleComplex", 35, DoubleP, ComplexP, Call("double + complex")),
      Plain("doComplexDouble", 40, ComplexP, DoubleP, Call("complex + double")),
      Plain("doComplex", 45, BigP, ComplexP, Call("PComplex.add")),
      Plain("doComplex", 50, ComplexP, ComplexP, Call("PComplex.add")),
      Plain("doString", 60, StringP, StringP, StringConcat),
      Rule("doPListInt", 70, true, ListP, ListP, AreBothIntStorage, false, IntStorageConcat),
      Rule("doPListObject", 71, true, ListP, ListP, AreBothObjectStorage, false, ObjectStorageConcat),
      Plain("doPList", 73, ListP, ListP, Call("PList.__add__")),
      Plain("doPTuple", 80, TupleP, TupleP, Call("PTuple.__add__")),
      Plain("doPArray", 90, ArrayP, ArrayP, Call("PArray.__add__")),
      Plain("doNoneInt", 100, NoneP, IntP, NoneInt),
      SpecialMethod(200, "__add__")
    ], true)
  }

  function SubRules(): (rs: RuleSet)
    ensures rs.op == Sub && |rs.rules| == 10 && !rs.hasGeneric
    ensures forall k :: 0 <= k < |rs.rules| ==> (rs.rules[k].rewriteOnArithmetic <==> k == 0)
    ensures forall k :: 0 <= k < |rs.rules| ==> rs.rules[k].explicitOrder
  {
    RuleSet(Sub, [
      RewriteOnArithmetic(0, SubtractExact),
      Plain("doBigInteger", 1, BigP, BigP, BigSubtract),
      Plain("doDouble", 10, DoubleP, DoubleP, Call("double - double")),
      Plain("doBigIntegerDouble", 11, BigP, DoubleP, Call("BigInteger - double")),
      Plain("doBigIntegerDouble", 12, DoubleP, BigP, Call("double - BigInteger")),
      Plain("doDoubleComplex", 13, DoubleP, ComplexP, Call("double - complex")),
      Plain("doComplexDoulbe", 14, ComplexP, DoubleP, Call("complex - double")),
      Plain("doComplex", 15, ComplexP, ComplexP, Call("PComplex.sub")),
      Plain("doPBaseSet", 16, SetP, SetP, Call("PBaseSet.difference")),
      SpecialMethod(20, "__sub__")
    ], false)
  }

  function MulRules(): (rs: RuleSet)
    ensures rs.op == Mul && |rs.rules| == 17 && rs.hasGeneric
    ensures forall k :: 0 <= k < |rs.rules| ==> (rs.rules[k].rewriteOnArithmetic <==> k == 0)
    ensures forall k :: 0 <= k < |rs.rules| ==> rs.rules[k].explicitOrder
  {
    RuleSet(Mul, [
      RewriteOnArithmetic(0, MultiplyExact),
      Plain("doIntegerBigInteger", 1, IntP, BigP, BigMultiply),
      Plain("doIntegerBigInteger", 2, BigP, IntP, BigMultiply),
      Plain("doBigInteger", 3, BigP, BigP, BigMultiply),
      Plain("doDouble", 4, DoubleP, DoubleP, Call("double * double")),
      Plain("doDoubleComplex", 5, DoubleP, ComplexP, Call("double * complex")),
      Plain("doComplexDouble", 6, ComplexP, DoubleP, Call("complex * double")),
      Plain("doComplex", 7, ComplexP, ComplexP, Call("PComplex.mul")),
      Plain("doIntPList", 8, IntP, ListP, Call("PList.__mul__")),
      Plain("doPListInt", 9, ListP, IntP, Call("PList.__mul__")),
      Plain("doIntPTuple", 10, IntP, TupleP, Call("PTuple.__mul__")),
      Plain("doPTupleInt", 11, TupleP, IntP, Call("PTuple.__mul__")),
      Plain("doIntPArray", 12, IntP, ArrayP, Call("PArray.__mul__")),
      Plain("doPArrayInt", 13, ArrayP, IntP, Call("PArray.__mul__")),
      Plain("doIntString", 14, IntP, StringP, RepeatRight),
      Plain("doStringInt", 15, StringP, IntP, RepeatLeft),
      SpecialMethod(20, "__mul__")
    ], true)
  }

  function DivRules(): (rs: RuleSet)
    ensures rs.op == Div && |rs.rules| == 9 && rs.hasGeneric
    ensures forall k :: 0 <= k < |rs.rules| ==> (rs.rules[k].rewriteOnArithmetic <==> k == 0)
    ensures forall k :: 0 <= k < |rs.rules| ==> rs.rules[k].explicitOrder
  {
    RuleSet(Div, [
      RewriteOnArithmetic(0, IntTrueDivide),
      Plain("doBigInteger", 5, BigP, BigP, Call("FastMathUtil.slowPathDivide(left, right).doubleValue()")),
      Plain("doDouble", 10, DoubleP, DoubleP, Call("double / double")),
      Plain("doBigIntegerDouble", 11, BigP, DoubleP, Call("BigInteger / double")),
      Plain("doBigIntegerDouble", 12, DoubleP, BigP, Call("double / BigInteger")),
      Plain("doDoubleComplex", 13, DoubleP, ComplexP, Call("double / complex")),
      Plain("doComplexDouble", 14, ComplexP, DoubleP, Call("complex / double")),
      Plain("doComplex", 15, ComplexP, ComplexP, Call("PComplex.div")),
      SpecialMethod(20, "__truediv__")
    ], true)
  }

  function FloorDivRules(): (rs: RuleSet)
    ensures rs.op == FloorDiv && |rs.rules| == 4 && rs.hasGeneric
    ensures forall k :: 0 <= k < |rs.rules| ==> (rs.rules[k].rewriteOnArithmetic <==> false)
    ensures forall k :: 0 <= k < |rs.rules| ==> (rs.rules[k].explicitOrder <==> k == 3)
  {
    RuleSet(FloorDiv, [
      Rule("doInteger", 0, false, IntP, IntP, Unguarded, false, IntDivide),
      Rule("doBigInteger", 1, false, BigP, BigP, Unguarded, false, Call("FastMathUtil.slowPathDivide")),
      Rule("doDouble", 2, false, DoubleP, DoubleP, Unguarded, false, Call("Math.floor(double / double)")),
      SpecialMethod(20, "__floordiv__")
    ], true)
  }

  function ModuloRules(): (rs: RuleSet)
    ensures rs.op == Modulo && |rs.rules| == 6 && rs.hasGeneric
    ensures forall k :: 0 <= k < |rs.rules| ==> (rs.rules[k].rewriteOnArithmetic <==> false)
    ensures forall k :: 0 <= k < |rs.rules| ==> (rs.rules[k].explicitOrder <==> k != 2 && k != 3)
  {
    RuleSet(Modulo, [
      Rule("doInteger", 0, true, IntP, IntP, IsLeftPositive, false, IntRemainder),
      Rule("doIntegerNegative", 1, true, IntP, IntP, Unguarded, false, IntRemainderShifted),
      Rule("doBigInteger", 2, false, BigP, BigP, Unguarded, false, BigMod),
      Rule("doDouble", 3, false, DoubleP, DoubleP, Unguarded, false, Call("double % double")),
      Rule("doString", 10, true, StringP, AnyObject, Unguarded, false, Call("PyString.__mod__")),
      SpecialMethod(20, "__mod__")
    ], true)
  }

  function RulesOf(op: Operator): (rs: RuleSet)
    ensures rs.op == op
  {
    match op
    case Add => AddRules()
    case Sub => SubRules()
    case Mul => MulRules()
    case Div => DivRules()
    case FloorDiv => FloorDivRules()
    case Modulo => ModuloRules()
  }

  /** The orders of a table strictly increase, so `order` is a total priority over its rules. */
  predicate StrictlyOrdered(rules: seq<Rule>) {
    forall i, j :: 0 <= i < j < |rules| ==> rules[i].order < rules[j].order
  }
}
