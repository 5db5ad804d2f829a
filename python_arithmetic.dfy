/**
  Python's own integer `//`, `%` and string repetition, which the `int` rules
  of FloorDiv, Modulo and Mul are meant to implement, set beside what those
  rules compute. Floor division rounds toward negative infinity and the
  remainder takes the sign of the divisor (section 6.7 of the Python
  Language Reference); a string times a non-positive count is empty.
 */
module PythonArithmetic {
  import opened JavaInt
  import opened PythonValues
  import opened StringRepetition
  import opened ArithmeticRules
  import opened Dispatch
  import opened ArithmeticProperties

  /** Python `a // b`. Dafny's `/` already rounds down for a positive divisor. */
  function FloorDivide(a: int, b: int): int
    requires b != 0
  {
    if b > 0 then a / b else (-a) / (-b)
  }

  /** Python `a % b`. */
  function FloorModulo(a: int, b: int): (r: int)
    requires b != 0
    ensures b > 0 ==> 0 <= r < b
    ensures b < 0 ==> b < r <= 0
  {
    if b > 0 then a % b else -((-a) % (-b))
  }

  /** The two fit together: `(a // b) * b + a % b == a`. */
  lemma FloorDivModIdentity(a: int, b: int)
    requires b != 0
    ensures FloorDivide(a, b) * b + FloorModulo(a, b) == a
  {
    if b < 0 {
      var q, r := (-a) / (-b), (-a) % (-b);
      assert q * (-b) + r == -a;
      assert FloorDivide(a, b) * b == -(q * (-b));
    }
  }

  /** So `a // b` is the largest `q` with `q * b <= a` when `b > 0`, and the smallest `q` with `q * b >= a` when `b < 0`. */
  lemma FloorDivideRoundsDown(a: int, b: int)
    requires b != 0
    ensures b > 0 ==> FloorDivide(a, b) * b <= a < FloorDivide(a, b) * b + b
    ensures b < 0 ==> FloorDivide(a, b) * b + b < a <= FloorDivide(a, b) * b
  {
    FloorDivModIdentity(a, b);
  }

  /** Python integers are unbounded: the quotient as an `int` when it fits, else as a `BigInteger`. */
  function AsInteger(x: int): (v: Value)
    ensures IsInteger(v) && IntegerValue(v) == x
  {
    if InInt32(x) then Int(x) else BigInt(x)
  }

  /** What `int // int` is meant to give: the floor quotient, without wrap-around. */
  function IntendedFloorDiv(a: int32, b: int32): (o: Outcome)
    ensures b == 0 ==> o == DivideByZero
    ensures b != 0 ==> ReturnsInteger(o, FloorDivide(a, b))
  {
    if b == 0 then DivideByZero else Returned(AsInteger(FloorDivide(a, b)))
  }

  /** What `int % int` is meant to give. */
  function IntendedModulo(a: int32, b: int32): (o: Outcome)
    ensures b == 0 ==> o == DivideByZero
    ensures b != 0 ==> o.Returned? && o.value.Int? && o.value.i == FloorModulo(a, b)
  {
    if b == 0 then DivideByZero else Returned(Int(FloorModulo(a, b)))
  }

  /** What `n * s` is meant to give: `n` copies of `s`, none for `n <= 0`. */
  function IntendedRepeat(s: string, n: int): (r: string)
    ensures |r| == if n <= 0 then 0 else |s| * n
  {
    RepeatLength(s, if n <= 0 then 0 else n);
    if n <= 0 then [] else Repeat(s, n)
  }

  /** Character `q * |s| + j` of the intended repetition is `s[j]`, for each copy `q`. */
  lemma IntendedRepeatContents(s: string, n: int, q: nat, j: nat)
    requires q < n && j < |s|
    ensures |s| * q + j < |IntendedRepeat(s, n)| && IntendedRepeat(s, n)[|s| * q + j] == s[j]
  {
    RepeatAt(s, n, q, j);
  }

  /** Floor division of non-negative `int`s is right: truncation and flooring coincide there. */
  lemma FloorDivAgreesOnNonNegatives(a: int32, b: int32)
    requires 0 <= a && 0 < b
    ensures Evaluate(FloorDivRules(), Int(a), Int(b)) == IntendedFloorDiv(a, b)
  {
    FloorDivInts(a, b);
    assert JavaDiv(a, b) == a / b;
    QuotientNoLarger(a, b);
  }

  /** Modulo is right for a positive divisor and a left operand down to `-right`. */
  lemma ModuloAgreesNearZero(a: int32, b: int32)
    requires 0 < b && -b <= a
    ensures Evaluate(ModuloRules(), Int(a), Int(b)) == IntendedModulo(a, b)
  {
    ModuloInts(a, b);
    if a >= 0 {
      assert JavaRem(a, b) == a % b;
    } else {
      ModuloRange(a, b);
      FloorModuloNearZero(a, b);
    }
  }

  lemma FloorModuloNearZero(a: int, b: int)
    requires 0 < b && -b <= a < 0
    ensures FloorModulo(a, b) == a + b
  {
    DivModUnique(a, b, -1, a + b);
  }

  /**
    Java's quotient is Python's exactly when the operands have the same sign
    or the division is exact; otherwise it is one more than the floor.
   */
  lemma TruncationIsFloor(a: int, b: int)
    requires b != 0
    ensures JavaDiv(a, b) == FloorDivide(a, b) <==> (a < 0) == (b < 0) || JavaRem(a, b) == 0
  {
    DivRemIdentity(a, b);
    if b > 0 {
      TruncationIsFloorPositive(a, b);
    } else {
      TruncationIsFloorNegative(a, b);
    }
  }

  lemma TruncationIsFloorPositive(a: int, b: int)
    requires b > 0 && JavaDiv(a, b) * b + JavaRem(a, b) == a
    ensures JavaDiv(a, b) == a / b <==> a >= 0 || JavaRem(a, b) == 0
  {
    var q, r := JavaDiv(a, b), JavaRem(a, b);
    if a >= 0 || r == 0 {
      DivModUnique(a, b, q, r);
    } else {
      DivModUnique(a, b, q - 1, r + b);
    }
  }

  lemma TruncationIsFloorNegative(a: int, b: int)
    requires b < 0 && JavaDiv(a, b) * b + JavaRem(a, b) == a
    ensures JavaDiv(a, b) == (-a) / (-b) <==> a <= 0 || JavaRem(a, b) == 0
  {
    var q, r := JavaDiv(a, b), JavaRem(a, b);
    var a', b' := -a, -b;
    assert q * b' + (-r) == a';
    if a <= 0 || r == 0 {
      DivModUnique(a', b', q, -r);
    } else {
      DivModUnique(a', b', q - 1, b' - r);
    }
  }

  /** Java's quotient of two `int`s is again an `int`, except for `Integer.MIN_VALUE / -1`. */
  lemma JavaDivInInt32(a: int32, b: int32)
    requires b != 0 && !(a == MinInt32 && b == -1)
    ensures InInt32(JavaDiv(a, b))
  {
    QuotientNoLarger(Abs(a), Abs(b));
  }

  /**
    Floor division of two `int`s is right exactly when the operands have the
    same sign or the division is exact (leaving out `Integer.MIN_VALUE // -1`,
    which FloorDivOverflows shows to be wrong).
   */
  lemma FloorDivAgreesIff(a: int32, b: int32)
    requires b != 0 && !(a == MinInt32 && b == -1)
    ensures Evaluate(FloorDivRules(), Int(a), Int(b)) == IntendedFloorDiv(a, b) <==>
      (a < 0) == (b < 0) || JavaRem(a, b) == 0
  {
    FloorDivInts(a, b);
    JavaDivInInt32(a, b);
    TruncationIsFloor(a, b);
  }

  /**
    Below `-b`, the shifted remainder `(a + b) % b` is Java's `a % b` itself,
    which is Python's only when it is zero.
   */
  lemma ShiftedRemainder(a: int, b: int)
    requires 0 < b && a < -b
    ensures JavaRem(a + b, b) == JavaRem(a, b)
    ensures JavaRem(a, b) == FloorModulo(a, b) <==> JavaRem(a, b) == 0
  {
    DivModUnique(-a - b, b, (-a) / b - 1, (-a) % b);
    if JavaRem(a, b) == 0 {
      DivModUnique(a, b, -((-a) / b), 0);
    }
  }

  /**
    For a positive divisor, modulo of two `int`s is right exactly when the
    left operand is at least `-right` or the division is exact.
   */
  lemma ModuloAgreesIffPositiveDivisor(a: int32, b: int32)
    requires 0 < b
    ensures Evaluate(ModuloRules(), Int(a), Int(b)) == IntendedModulo(a, b) <==>
      -b <= a || JavaRem(a, b) == 0
  {
    if -b <= a {
      ModuloAgreesNearZero(a, b);
    } else {
      ModuloInts(a, b);
      assert Wrap32(a + b) == a + b;
      ShiftedRemainder(a, b);
    }
  }

  /** Below zero, `(a + b) % b` shifts by one whole divisor when both are negative. */
  lemma ShiftedRemainderNegative(a: int, b: int)
    requires a < 0 && b < 0
    ensures JavaRem(a + b, b) == FloorModulo(a, b)
  {
    DivModUnique(-a - b, -b, (-a) / (-b) + 1, (-a) % (-b));
  }

  /**
    For a negative divisor, modulo is right for every negative left operand
    whose sum with the divisor fits in an `int`, and for a non-negative left
    operand exactly when the division is exact.
   */
  lemma ModuloAgreesNegativeDivisor(a: int32, b: int32)
    requires b < 0 && (0 <= a || InInt32(a + b))
    ensures Evaluate(ModuloRules(), Int(a), Int(b)) == IntendedModulo(a, b) <==>
      a < 0 || JavaRem(a, b) == 0
  {
    ModuloInts(a, b);
    if a < 0 {
      assert Wrap32(a + b) == a + b;
      ShiftedRemainderNegative(a, b);
    } else {
      RemainderOverNegative(a, b);
    }
  }

  /** A non-negative `a` over a negative `b`: Java's remainder is Python's only when it is zero. */
  lemma RemainderOverNegative(a: int, b: int)
    requires 0 <= a && b < 0
    ensures JavaRem(a, b) == FloorModulo(a, b) <==> JavaRem(a, b) == 0
  {
    var c := -b;
    assert JavaRem(a, b) == a % c;
    assert FloorModulo(a, b) == -((-a) % c);
    if a % c == 0 {
      assert a == c * (a / c);
      DivModUnique(-a, c, -(a / c), 0);
    }
  }

  /** String repetition is right for a positive count. */
  lemma RepeatAgreesOnPositiveCounts(n: int32, s: string)
    requires n >= 1
    ensures Evaluate(MulRules(), Int(n), Str(s)) == Returned(Str(IntendedRepeat(s, n)))
  {
    MulStringCopies(n, s);
  }

  lemma QuotientNoLarger(a: nat, b: nat)
    requires b > 0
    ensures a / b <= a
  {
    var q := a / b;
    assert q * b + a % b == a;
    MulMonotone(q, 1, b);
  }

  /** `-7 // 2` gives `-3`; Python gives `-4`. */
  lemma FloorDivTruncates()
    ensures Evaluate(FloorDivRules(), Int(-7), Int(2)) == Returned(Int(-3))
    ensures IntendedFloorDiv(-7, 2) == Returned(Int(-4))
  {
    FloorDivInts(-7, 2);
  }

  /** `-2147483648 // -1` wraps around to `-2147483648`; Python gives `2147483648`. */
  lemma FloorDivOverflows()
    ensures Evaluate(FloorDivRules(), Int(MinInt32), Int(-1)) == Returned(Int(MinInt32))
    ensures IntendedFloorDiv(MinInt32, -1) == Returned(BigInt(0x8000_0000))
  {
    FloorDivInts(MinInt32, -1);
  }

  /** `-7 % 3` gives `-1`; Python gives `2`. */
  lemma ModuloNegativeLeft()
    ensures Evaluate(ModuloRules(), Int(-7), Int(3)) == Returned(Int(-1))
    ensures IntendedModulo(-7, 3) == Returned(Int(2))
  {
    ModuloInts(-7, 3);
    assert Wrap32(-7 + 3) == -4;
  }

  /** `7 % -3` gives `1`; Python gives `-2`. */
  lemma ModuloNegativeRight()
    ensures Evaluate(ModuloRules(), Int(7), Int(-3)) == Returned(Int(1))
    ensures IntendedModulo(7, -3) == Returned(Int(-2))
  {
    ModuloInts(7, -3);
  }

  /**
    `-2147483646 % -3` gives `1`: `left + right` wraps around to
    `2147483647`. Python gives `0`, since 3 divides 2147483646.
   */
  lemma ModuloShiftWraps()
    ensures Evaluate(ModuloRules(), Int(-2147483646), Int(-3)) == Returned(Int(1))
    ensures IntendedModulo(-2147483646, -3) == Returned(Int(0))
  {
    ModuloInts(-2147483646, -3);
    assert Wrap32(-2147483646 + -3) == 2147483647;
    DivModUnique(2147483647, 3, 715827882, 1);
    assert JavaRem(2147483647, -3) == 1;
    DivModUnique(2147483646, 3, 715827882, 0);
  }

  /** `0 * s` gives `s`, `"ab"` for `"ab"`; Python gives `""`. */
  lemma RepeatZeroKeepsString(s: string)
    ensures Evaluate(MulRules(), Int(0), Str(s)) == Returned(Str(s))
    ensures IntendedRepeat(s, 0) == []
  {
    MulStringCopies(0, s);
  }

  /**
    `-2147483648 * s` runs the loop 2147483647 times, since `left - 1` wraps
    around. With unbounded strings that is 2147483648 copies of `s`; for a
    non-empty `s` that is longer than any Java string, so the loop ends in an
    `OutOfMemoryError` instead. Python gives `""`.
   */
  lemma RepeatSmallestIntWraps(s: string)
    ensures LoopTurns(MinInt32) == MaxInt32
    ensures Evaluate(MulRules(), Int(MinInt32), Str(s)) == Returned(Str(Repeat(s, 0x8000_0000)))
    ensures |Repeat(s, 0x8000_0000)| == |s| * 0x8000_0000
    ensures s != [] ==> |Repeat(s, 0x8000_0000)| > MaxInt32
    ensures IntendedRepeat(s, MinInt32) == []
  {
    MulIntString(MinInt32, s);
    RepeatAsWrittenCopies(s, MinInt32);
    RepeatLength(s, 0x8000_0000);
    if s != [] {
      TooLongForJava(|s|, |Repeat(s, 0x8000_0000)|);
    }
  }

  /** `n >= 1` copies of 2^31 characters exceed `Integer.MAX_VALUE`. */
  lemma TooLongForJava(n: nat, len: nat)
    requires n >= 1 && len == n * 0x8000_0000
    ensures len > MaxInt32
  {
    MulMonotone(0x8000_0000, 1, n);
  }
}
