/** `factor_pollard_p1`: Pollard's p-1 method with smoothness bound `B`. */
module Pollard {
  import opened NumberTheory
  import opened Results
  import opened ModularArithmetic

  function Factorial(j: nat): (f: nat)
    ensures f >= 1
  {
    if j == 0 then 1 else j * Factorial(j - 1)
  }

  /** The value of `a` after processing step `j`: `2^(j!) mod n`. */
  function StepValue(n: int, j: nat): int
    requires n >= 1
  {
    ModExp(2, Factorial(j), n)
  }

  /** Step `j` reveals a factor: `gcd(a - 1, n)` lies strictly between 1 and `n`. */
  predicate Hit(n: int, j: nat)
    requires n >= 1
  {
    1 < MathGcd(StepValue(n, j) - 1, n) < n
  }

  /** The loop from step `j` with the current `a`. */
  function PollardLoop(n: int, B: int, a: int, j: nat): (r: Option<int>)
    requires n >= 1
    ensures r.Some? ==> 1 < r.value < n && Divides(r.value, n)
    decreases B - j
  {
    if j > B then
      None
    else
      var a' := ModExp(a, j, n);
      var d := MathGcd(a' - 1, n);
      if 1 < d < n then
        assert Divides(d, n) by { GcdDividesSecond(a' - 1, n); }
        Some(d)
      else
        PollardLoop(n, B, a', j + 1)
  }

  lemma GcdDividesSecond(a: int, n: int)
    requires n >= 1
    ensures Divides(MathGcd(a, n), n)
  {
  }

  /** `factor_pollard_p1(n, B)`: `None`, or a nontrivial divisor of `n`.
      With `B < 2` the loop never runs, so any `n` is accepted; otherwise the
      first `pow(a, j, n)` rejects `n == 0`. A negative `n` is accepted by
      `pow`, but then no gcd, being nonnegative, lies below `n`, so every
      step is passed over and the result is `None`. */
  function FactorPollardP1(n: int, B: int): (r: Option<int>)
    requires B >= 2 ==> n != 0
    ensures r.Some? ==> 1 < r.value < n && Divides(r.value, n)
    ensures B < 2 ==> r == None
  {
    if B < 2 || n < 0 then None else PollardLoop(n, B, 2, 2)
  }

  /** The running `a` is `2^((j-1)!)` modulo `n`: one more step raises it
      to the `j`-th power. */
  lemma StepAdvance(n: int, j: nat)
    requires n >= 1 && j >= 1
    ensures ModExp(StepValue(n, j - 1), j, n) == StepValue(n, j)
  {
    PowMod(Pow(2, Factorial(j - 1)), j, n);
    PowMul(2, Factorial(j - 1), j);
    assert Factorial(j - 1) * j == Factorial(j);
  }

  /** The first step in `[j, B]` that reveals a factor, if any. */
  function FirstHit(n: int, B: int, j: nat): Option<nat>
    requires n >= 1
    decreases B - j
  {
    if j > B then None
    else if Hit(n, j) then Some(j)
    else FirstHit(n, B, j + 1)
  }

  /** `FirstHit` finds nothing exactly when no step in `[j, B]` reveals a
      factor. */
  lemma {:induction false} FirstHitNone(n: int, B: int, j: nat)
    requires n >= 1
    ensures FirstHit(n, B, j).None? <==> forall i: nat :: j <= i <= B ==> !Hit(n, i)
    decreases B - j
  {
    if j <= B && !Hit(n, j) {
      FirstHitNone(n, B, j + 1);
    }
  }

  /** What `FirstHit` finds is the least step in `[j, B]` that reveals a
      factor. */
  lemma {:induction false} FirstHitLeast(n: int, B: int, j: nat)
    requires n >= 1
    ensures var r := FirstHit(n, B, j);
            r.Some? ==> j <= r.value <= B && Hit(n, r.value) && forall k: nat :: j <= k < r.value ==> !Hit(n, k)
    decreases B - j
  {
    if j <= B && !Hit(n, j) {
      FirstHitLeast(n, B, j + 1);
    }
  }

  /** What the loop reports for a first hit: the gcd at that step. */
  function Report(n: int, hit: Option<nat>): Option<int>
    requires n >= 1
  {
    match hit
    case None => None
    case Some(i) => Some(MathGcd(StepValue(n, i) - 1, n))
  }

  /** The loop starts with `a == 2` at step 2, and `2^2 == 2^(2!)`. */
  lemma FirstStepValue(n: int)
    requires n >= 1
    ensures ModExp(2, 2, n) == StepValue(n, 2)
  {
    assert Factorial(1) == 1;
    assert Factorial(2) == 2;
  }

  /** The loop started at step `j` with `a^j == 2^(j!) mod n` returns the
      gcd at the first hit in `[j, B]`, and `None` when there is none. */
  lemma {:induction false} PollardLoopFirstHit(n: int, B: int, a: int, j: nat)
    requires n >= 1 && j >= 1
    requires ModExp(a, j, n) == StepValue(n, j)
    ensures PollardLoop(n, B, a, j) == Report(n, FirstHit(n, B, j))
    decreases B - j
  {
    if j <= B && !Hit(n, j) {
      var a' := ModExp(a, j, n);
      assert PollardLoop(n, B, a, j) == PollardLoop(n, B, a', j + 1);
      assert FirstHit(n, B, j) == FirstHit(n, B, j + 1);
      StepAdvance(n, j + 1);
      PollardLoopFirstHit(n, B, a', j + 1);
    }
  }

  /** `factor_pollard_p1` reports the gcd at the first `j` in `[2, B]`
      where `gcd(2^(j!) mod n - 1, n)` is nontrivial, and `None` exactly
      when no such `j` exists. */
  lemma PollardFirstHit(n: int, B: int)
    requires n >= 1
    ensures FactorPollardP1(n, B) == Report(n, FirstHit(n, B, 2))
  {
    if B >= 2 {
      FirstStepValue(n);
      PollardLoopFirstHit(n, B, 2, 2);
      assert FactorPollardP1(n, B) == PollardLoop(n, B, 2, 2);
    }
  }

  /** A step whose new running value is 0 has `gcd(-1, n) == 1`, so it
      reports nothing and the loop carries on from 0. */
  lemma ZeroValueReportsNothing(n: int, B: int, a: int, j: nat)
    requires n >= 1 && j <= B && ModExp(a, j, n) == 0
    ensures PollardLoop(n, B, a, j) == PollardLoop(n, B, 0, j + 1)
  {
    GcdOneFromCombination(1, n, 1, 0);
    assert MathGcd(0 - 1, n) == 1;
  }
}
