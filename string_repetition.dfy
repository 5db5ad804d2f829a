/**
  `MulNode.doIntString` and `MulNode.doStringInt` build `n * s` by starting
  from `s` and appending `s` once per turn of a counting loop whose bound is
  the Java `int` expression `n - 1`.
 */
module StringRepetition {
  import opened JavaInt

  /** `k` copies of `s`, one after the other. */
  function Repeat(s: string, k: nat): string {
    if k == 0 then [] else Repeat(s, k - 1) + s
  }

  lemma {:induction false} RepeatLength(s: string, k: nat)
    ensures |Repeat(s, k)| == |s| * k
  {
    if k > 0 {
      RepeatLength(s, k - 1);
    }
  }

  /** Copy `q` of `s` inside `k` copies sits at offset `|s| * q`, unchanged. */
  lemma {:induction false} RepeatAt(s: string, k: nat, q: nat, j: nat)
    requires q < k && j < |s|
    ensures |s| * q + j < |Repeat(s, k)|
    ensures Repeat(s, k)[|s| * q + j] == s[j]
  {
    var n := |s|;
    RepeatLength(s, k);
    RepeatLength(s, k - 1);
    assert n * k == n * (k - 1) + n;
    MulMonotone(n, q, k - 1);
    if q < k - 1 {
      assert n * (q + 1) == n * q + n;
      MulMonotone(n, q + 1, k - 1);
      RepeatAt(s, k - 1, q, j);
    }
  }

  /** A non-empty repetition starts with `s`. */
  lemma {:induction false} RepeatFirstCopy(s: string, k: nat)
    requires k >= 1
    ensures |Repeat(s, k)| >= |s| && Repeat(s, k)[..|s|] == s
  {
    if k > 1 {
      RepeatFirstCopy(s, k - 1);
    }
  }

  /** How many times the loop body runs: the bound `n - 1` is computed with `int` wrap-around. */
  function LoopTurns(n: int32): (turns: nat)
    ensures n >= 1 ==> turns == n - 1
    ensures MinInt32 < n < 1 ==> turns == 0
    ensures n == MinInt32 ==> turns == MaxInt32
  {
    var bound := Wrap32(n - 1);
    if bound > 0 then bound else 0
  }

  /**
    The string the loop returns, with strings unbounded: Java's limit of
    2^31 - 1 characters per string is not part of this model.
   */
  function RepeatAsWritten(s: string, n: int32): (r: string)
    ensures |r| == |s| * (1 + LoopTurns(n))
    ensures r[..|s|] == s
  {
    RepeatLength(s, 1 + LoopTurns(n));
    RepeatFirstCopy(s, 1 + LoopTurns(n));
    Repeat(s, 1 + LoopTurns(n))
  }

  /** The loop of `doIntString` / `doStringInt`, proved to build `RepeatAsWritten(s, n)`. */
  method RepeatString(s: string, n: int32) returns (str: string)
    ensures str == RepeatAsWritten(s, n)
    ensures |str| == |s| * (1 + LoopTurns(n))
  {
    str := s;
    var i: int32 := 0;
    while i < Wrap32(n - 1)
      invariant 0 <= i <= LoopTurns(n)
      invariant str == Repeat(s, 1 + i)
    {
      str := str + s;
      i := i + 1;
    }
    RepeatLength(s, 1 + LoopTurns(n));
  }

  /**
    The result holds `max(n, 1)` copies of `s`. Only `n == Integer.MIN_VALUE`
    differs: there `n - 1` wraps to `Integer.MAX_VALUE`, so the loop runs
    2^31 - 1 turns and the unbounded model reaches 2^31 copies.
   */
  lemma RepeatAsWrittenCopies(s: string, n: int32)
    ensures RepeatAsWritten(s, n) == Repeat(s, if n == MinInt32 then 0x8000_0000 else if n >= 1 then n else 1)
    ensures n != MinInt32 ==> |RepeatAsWritten(s, n)| == |s| * (if n >= 1 then n else 1)
  {
    if n != MinInt32 {
      assert Wrap32(n - 1) == n - 1;
      RepeatLength(s, if n >= 1 then n else 1);
    } else {
      assert Wrap32(n - 1) == MaxInt32;
    }
  }
}
