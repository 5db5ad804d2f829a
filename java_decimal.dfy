/**
  Java's decimal rendering of an `int`, as string concatenation with an
  `int` produces it (`Integer.toString`): an optional minus sign followed by
  the digits, with no leading zeros. Distinct numbers render differently.
 */
module JavaDecimal {
  import opened JavaInt

  function DigitChar(d: nat): char
    requires d < 10
  {
    "0123456789"[d]
  }

  function DigitValue(c: char): nat {
    if '0' <= c <= '9' then (c - '0') as nat else 0
  }

  /** The decimal digits of `n`. */
  function Digits(n: nat): (s: string)
    ensures |s| >= 1
    ensures forall i :: 0 <= i < |s| ==> '0' <= s[i] <= '9'
  {
    if n < 10 then [DigitChar(n)] else Digits(n / 10) + [DigitChar(n % 10)]
  }

  /** The number a string of digits denotes. */
  function ParseDigits(s: string): nat {
    if s == [] then 0 else ParseDigits(s[..|s| - 1]) * 10 + DigitValue(s[|s| - 1])
  }

  lemma {:induction false} ParseDigitsOfDigits(n: nat)
    ensures ParseDigits(Digits(n)) == n
  {
    if n >= 10 {
      var s := Digits(n);
      assert s[..|s| - 1] == Digits(n / 10);
      ParseDigitsOfDigits(n / 10);
    }
  }

  /** `"" + x` for an `int` `x`. */
  function JavaIntToString(x: int32): (s: string)
    ensures |s| >= 1
    ensures s[0] == '-' <==> x < 0
  {
    if x < 0 then "-" + Digits(-(x as int)) else Digits(x)
  }

  /** The rendering reads back as the number. */
  function ParseJavaInt(s: string): int {
    if |s| >= 1 && s[0] == '-' then 0 - ParseDigits(s[1..]) else ParseDigits(s)
  }

  lemma JavaIntRoundTrip(x: int32)
    ensures ParseJavaInt(JavaIntToString(x)) == x
  {
    var s := JavaIntToString(x);
    if x < 0 {
      var n: nat := -(x as int);
      assert s == "-" + Digits(n);
      assert s[1..] == Digits(n);
      ParseDigitsOfDigits(n);
      assert ParseJavaInt(s) == 0 - ParseDigits(Digits(n));
    } else {
      ParseDigitsOfDigits(x);
      assert s[0] != '-';
    }
  }

  /** Distinct `int`s render as distinct strings. */
  lemma JavaIntToStringInjective(x: int32, y: int32)
    ensures JavaIntToString(x) == JavaIntToString(y) ==> x == y
  {
    JavaIntRoundTrip(x);
    JavaIntRoundTrip(y);
  }
}
