/** `BlumBlumShub.miller_rabin`: the probabilistic primality test of
    Appendix C.3.1 of FIPS 186-4, with the random witnesses supplied by the
    caller. */
module PrimalityTest {
  import opened NumberTheory
  import opened ModularArithmetic
  import opened PrimeFacts

  /** The default number of rounds, `testIterations = 8`. */
  const DefaultIterations: int := 8

  /** The halving loop: divide `d` by 2 while it is even, counting in `r`. */
  function Halve(d: nat, r: nat): (res: (nat, nat))
    requires d >= 1
    ensures res.0 % 2 == 1 && res.1 >= r
    ensures Pow2(res.1) * res.0 == Pow2(r) * d
    ensures d % 2 == 0 ==> res.1 > r
    decreases d
  {
    if d % 2 == 0 then
      var res := Halve(d / 2, r + 1);
      assert Pow2(r + 1) * (d / 2) == Pow2(r) * d by {
        assert d == 2 * (d / 2);
        assert Pow2(r + 1) * (d / 2) == Pow2(r) * (2 * (d / 2));
      }
      res
    else
      (d, r)
  }

  /** The inner `for ... else`: square `x` up to `rounds` times, stopping
      as soon as a square is `n - 1`; true when it stopped early. */
  function SquaresReach(x: int, rounds: int, n: int): bool
    requires n >= 1
    decreases rounds
  {
    if rounds <= 0 then
      false
    else
      var y := ModExp(x, 2, n);
      y == n - 1 || SquaresReach(y, rounds - 1, n)
  }

  /** One round with witness `a`: `a^d mod n` is 1 or `n - 1`, or one of the
      next `r - 1` squares is `n - 1`. */
  predicate WitnessPasses(a: int, d: nat, r: nat, n: int)
    requires n >= 1
  {
    var x := ModExp(a, d, n);
    x == 1 || x == n - 1 || SquaresReach(x, r - 1, n)
  }

  /** The witness of round `i`: `random.randint(2, n - 2)` as an offset
      drawn by the caller. */
  function Witness(n: int, draws: nat -> nat, i: nat): (a: int)
    requires n >= 4
    ensures 2 <= a <= n - 2
  {
    2 + draws(i) % (n - 3)
  }

  /** The outer `for` loop from round `i`: false at the first failing round. */
  function AllRoundsPass(n: int, d: nat, r: nat, draws: nat -> nat, i: nat, count: int): (b: bool)
    requires n >= 4
    ensures b <==> forall j: nat :: i <= j < count ==> WitnessPasses(Witness(n, draws, j), d, r, n)
    decreases count - i
  {
    if i >= count then
      true
    else
      WitnessPasses(Witness(n, draws, i), d, r, n) && AllRoundsPass(n, d, r, draws, i + 1, count)
  }

  /** `miller_rabin(n, testIterations)` with the witness of round `i` drawn
      from `draws(i)`. */
  function MillerRabin(n: int, testIterations: int, draws: nat -> nat): (b: bool)
    ensures n <= 1 ==> !b
    ensures n == 2 || n == 3 ==> b
    ensures n > 3 && (n % 2 == 0 || n % 3 == 0) ==> !b
    ensures n > 3 && n % 2 != 0 && n % 3 != 0 ==>
              (b <==> forall j: nat :: j < testIterations ==>
                        WitnessPasses(Witness(n, draws, j), Halve(n - 1, 0).0, Halve(n - 1, 0).1, n))
  {
    if n <= 1 then false
    else if n <= 3 then true
    else if n % 2 == 0 then false
    else if n % 3 == 0 then false
    else
      var (d, r) := Halve(n - 1, 0);
      AllRoundsPass(n, d, r, draws, 0, testIterations)
  }

  /** For a prime `n`, a residue `x` other than `1` and `n - 1` whose
      `2^k`-th power is 1 reaches `n - 1` within the next `k - 1` squares:
      the only square roots of 1 modulo a prime are `1` and `n - 1`. */
  lemma {:induction false} SquaresReachPrime(x: int, k: nat, n: nat)
    requires IsPrime(n) && 0 <= x < n && k >= 1
    ensures x != 1 && x != n - 1 && Pow(x, Pow2(k)) % n == 1 ==> SquaresReach(x, k - 1, n)
    decreases k
  {
    var y := ModExp(x, 2, n);
    assert Pow(x, 2) == x * x;
    SquareThenPow2(x, k - 1, n);
    assert k - 1 + 1 == k;
    if y == 1 {
      SquareRootOfOne(n, x);
    } else if k >= 2 && y != n - 1 {
      SquaresReachPrime(y, k - 1, n);
    } else if k == 1 {
      assert Pow2(0) == 1 && Pow(y, 1) == y;
      ModSmall(y, n);
    }
  }

  /** By Fermat, raising `a^d mod n` to `2^r` gives 1 when `2^r * d == n - 1`. */
  lemma WitnessPowerIsOne(n: nat, a: int, d: nat, r: nat)
    requires IsPrime(n) && 2 <= a <= n - 2 && Pow2(r) * d == n - 1
    ensures Pow(ModExp(a, d, n), Pow2(r)) % n == 1
  {
    assert !Divides(n, a) by { ModSmall(a, n); }
    FermatCoprime(a, n);
    PowMod(Pow(a, d), Pow2(r), n);
    PowMul(a, d, Pow2(r));
    assert d * Pow2(r) == n - 1;
  }

  /** For an odd prime the halving loop runs at least once and splits
      `n - 1` as `2^r * d`. */
  lemma HalvingOfOddPrime(n: nat)
    requires IsPrime(n) && n >= 5
    ensures Halve(n - 1, 0).1 >= 1
    ensures Pow2(Halve(n - 1, 0).1) * Halve(n - 1, 0).0 == n - 1
  {
    assert !Divides(2, n);
    assert Pow2(0) == 1;
  }

  /** Every witness in `[2, n-2]` passes a round for a prime `n >= 5`. */
  lemma PrimePassesRound(n: nat, a: int)
    requires IsPrime(n) && n >= 5 && 2 <= a <= n - 2
    ensures WitnessPasses(a, Halve(n - 1, 0).0, Halve(n - 1, 0).1, n)
  {
    var (d, r) := Halve(n - 1, 0);
    HalvingOfOddPrime(n);
    WitnessPowerIsOne(n, a, d, r);
    SquaresReachPrime(ModExp(a, d, n), r, n);
  }

  /** No prime is ever rejected, whatever witnesses are drawn. */
  lemma MillerRabinAcceptsPrimes(n: nat, testIterations: int, draws: nat -> nat)
    requires IsPrime(n)
    ensures MillerRabin(n, testIterations, draws)
  {
    if n > 3 {
      assert !Divides(2, n) && !Divides(3, n);
      forall j: nat | j < testIterations
        ensures WitnessPasses(Witness(n, draws, j), Halve(n - 1, 0).0, Halve(n - 1, 0).1, n)
      {
        PrimePassesRound(n, Witness(n, draws, j));
      }
    }
  }
}
