/**
  Java's 32-bit `int` and the integer operators the arithmetic rules use:
  two's complement wrap-around (sections 4.2.2 and 15.18.2 of the Java
  Language Specification), division rounding toward zero (section 15.17.2)
  and the remainder that takes the sign of the dividend (section 15.17.3).
  Dafny's own `/` and `%` are Euclidean, so both Java operators are written out.
 */
module JavaInt {

  predicate InInt32(x: int) {
    -0x8000_0000 <= x <= 0x7fff_ffff
  }

  type int32 = x: int | -0x8000_0000 <= x <= 0x7fff_ffff

  const MinInt32: int32 := -0x8000_0000
  const MaxInt32: int32 := 0x7fff_ffff

  function Abs(x: int): nat {
    if x < 0 then -x else x
  }

  /** The value a Java `int` expression takes when the exact result is `x`. */
  function Wrap32(x: int): (r: int32)
    ensures InInt32(x) ==> r == x
    ensures (x - r) % 0x1_0000_0000 == 0
  {
    (x + 0x8000_0000) % 0x1_0000_0000 - 0x8000_0000
  }

  /** Java `a / b` on exact integers: the quotient rounded toward zero. */
  function JavaDiv(a: int, b: int): (q: int)
    requires b != 0
    ensures q != 0 ==> (q < 0 <==> (a < 0) != (b < 0))
  {
    var m := Abs(a) / Abs(b);
    if (a < 0) == (b < 0) then m else -m
  }

  /** Java `a % b`: the magnitude is below |b| and the sign is that of `a`. */
  function JavaRem(a: int, b: int): (r: int)
    requires b != 0
    ensures Abs(r) < Abs(b) && Abs(r) <= Abs(a)
    ensures r != 0 ==> (r < 0 <==> a < 0)
  {
    NatModBounds(Abs(a), Abs(b));
    if a < 0 then -(Abs(a) % Abs(b)) else Abs(a) % Abs(b)
  }

  lemma NatModBounds(x: nat, y: nat)
    requires y > 0
    ensures x % y < y && x % y <= x && x / y >= 0
  {
    if x >= y {
      assert x / y >= 1;
      assert y * (x / y) >= y;
    }
  }

  /** Section 15.17.3 of the Java Language Specification: `(a / b) * b + (a % b) == a` for every non-zero `b`. */
  lemma DivRemIdentity(a: int, b: int)
    requires b != 0
    ensures JavaDiv(a, b) * b + JavaRem(a, b) == a
  {
    var m, k := Abs(a) / Abs(b), Abs(a) % Abs(b);
    assert m * Abs(b) + k == Abs(a);
    var q := JavaDiv(a, b);
    if (a < 0) == (b < 0) {
      assert q == m;
      if b < 0 {
        assert q * b == -(m * Abs(b)) by { assert b + Abs(b) == 0; }
      }
    } else {
      assert q == -m;
      if b < 0 {
        assert q * b == m * Abs(b) by { assert b + Abs(b) == 0; }
      } else {
        assert q * b == -(m * Abs(b));
      }
    }
  }

  lemma MulMonotone(n: nat, a: nat, b: nat)
    requires a <= b
    ensures n * a <= n * b
  {
  }

  /** Euclidean division by a positive `b` has one quotient and one remainder. */
  lemma DivModUnique(a: int, b: int, q: int, r: int)
    requires 0 < b && a == b * q + r && 0 <= r < b
    ensures a / b == q && a % b == r
  {
    var q', r' := a / b, a % b;
    assert b * q' + r' == a;
    if q' < q {
      MulMonotone(b, 1, q - q');
    } else if q < q' {
      MulMonotone(b, 1, q' - q);
    }
  }

  /** The remainder of two `int`s is again an `int`. */
  lemma JavaRemInInt32(a: int32, b: int32)
    requires b != 0
    ensures InInt32(JavaRem(a, b))
  {
    var r := JavaRem(a, b);
    assert Abs(r) < Abs(b) && Abs(r) <= Abs(a);
    assert -0x8000_0000 <= a <= 0x7fff_ffff && -0x8000_0000 <= b <= 0x7fff_ffff;
  }
}
