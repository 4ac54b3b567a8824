/** Consequences of Bezout's identity that the correctness of the
    public-key primitives rests on: Gauss's and Euclid's lemmas, uniqueness
    of Chinese-remainder solutions, Fermat's little theorem (through the
    binomial theorem) and the square roots of one modulo a prime. */
module PrimeFacts {
  import opened NumberTheory
  import opened ModularArithmetic

  /** Bezout's identity, read off the extended Euclidean algorithm. */
  lemma CoprimeCombination(a: nat, b: nat) returns (x: int, y: int)
    requires Gcd(a, b) == 1
    ensures a * x + b * y == 1
  {
    var r := ExtendedGcd(a, b);
    x, y := r.1, r.2;
  }

  /** Gauss's lemma: a divisor of a product that is coprime to one factor
      divides the other. */
  lemma Gauss(d: nat, a: int, b: int)
    requires d >= 1 && Gcd(a % d, d) == 1 && Divides(d, a * b)
    ensures Divides(d, b)
  {
    var x, y := CoprimeCombination(a % d, d);
    ModMulLeft(a, b, d);
    assert Divides(d, (a % d) * b);
    DividesSelf(d);
    DividesLinear(d, (a % d) * b, d, x, b * y);
    assert (a % d) * b * x + d * (b * y) == b * ((a % d) * x + d * y);
  }

  /** A number that a prime does not divide is coprime to it. */
  lemma CoprimeToPrime(p: nat, a: int)
    requires IsPrime(p) && !Divides(p, a)
    ensures Gcd(a % p, p) == 1
  {
    var g := Gcd(a % p, p);
    DivisorBound(g, p);
    if g == p {
      DivisorBound(p, a % p);
    }
  }

  /** Euclid's lemma. */
  lemma EuclidLemma(p: nat, a: int, b: int)
    requires IsPrime(p) && Divides(p, a * b)
    ensures Divides(p, a) || Divides(p, b)
  {
    if !Divides(p, a) {
      CoprimeToPrime(p, a);
      Gauss(p, a, b);
    }
  }

  /** A prime dividing a power divides its base. */
  lemma {:induction false} PrimeDividesPower(p: nat, a: int, e: nat)
    requires IsPrime(p) && Divides(p, Pow(a, e))
    ensures Divides(p, a)
    decreases e
  {
    if e == 0 {
      DivisorBound(p, 1);
    } else {
      EuclidLemma(p, a, Pow(a, e - 1));
      if !Divides(p, a) {
        PrimeDividesPower(p, a, e - 1);
      }
    }
  }

  /** Two different primes share no factor. */
  lemma DistinctPrimesCoprime(p: nat, q: nat)
    requires IsPrime(p) && IsPrime(q) && p != q
    ensures Gcd(p, q) == 1
  {
    var g := Gcd(p, q);
    DivisorBound(g, p);
    DivisorBound(g, q);
  }

  /** Congruence modulo two coprime moduli is congruence modulo their product. */
  lemma CoprimeModuliCongruence(x: int, y: int, m1: nat, m2: nat)
    requires m1 >= 1 && m2 >= 1 && Gcd(m1, m2) == 1
    requires x % m1 == y % m1 && x % m2 == y % m2
    ensures x % (m1 * m2) == y % (m1 * m2)
  {
    CongruentIffDividesDifference(x, y, m1);
    CongruentIffDividesDifference(x, y, m2);
    var k := (x - y) / m1;
    DividesWitness(m1, x - y);
    assert x - y == m1 * k;
    GcdOfRemainder(m1, m2);
    GcdCommutes(m1, m2);
    Gauss(m2, m1, k);
    var j := k / m2;
    DividesWitness(m2, k);
    ProductWitness(x - y, m1, m2, k, j);
    DividesByWitness(m1 * m2, x - y, j);
    CongruentIffDividesDifference(x, y, m1 * m2);
  }

  lemma ProductWitness(v: int, m1: int, m2: int, k: int, j: int)
    requires v == m1 * k && k == m2 * j
    ensures v == (m1 * m2) * j
  {
  }

  /** Two values in `[0, m1*m2)` that agree modulo both coprime moduli are equal. */
  lemma CrtUnique(x: int, y: int, m1: nat, m2: nat)
    requires m1 >= 1 && m2 >= 1 && Gcd(m1, m2) == 1
    requires 0 <= x < m1 * m2 && 0 <= y < m1 * m2
    requires x % m1 == y % m1 && x % m2 == y % m2
    ensures x == y
  {
    CoprimeModuliCongruence(x, y, m1, m2);
    ModSmall(x, m1 * m2);
    ModSmall(y, m1 * m2);
  }

  // ---------------------------------------------------------------------
  // Fermat's little theorem
  // ---------------------------------------------------------------------

  /** Binomial coefficients by Pascal's rule. */
  function Binom(n: nat, k: nat): nat
    decreases n
  {
    if k == 0 then 1 else if n == 0 then 0 else Binom(n - 1, k - 1) + Binom(n - 1, k)
  }

  lemma {:induction false} BinomAboveIsZero(n: nat, k: nat)
    requires k > n
    ensures Binom(n, k) == 0
    decreases n
  {
    if n > 0 {
      BinomAboveIsZero(n - 1, k - 1);
      BinomAboveIsZero(n - 1, k);
    }
  }

  lemma {:induction false} BinomDiagonal(n: nat)
    ensures Binom(n, n) == 1
    decreases n
  {
    if n > 0 {
      BinomDiagonal(n - 1);
      BinomAboveIsZero(n - 1, n);
    }
  }

  lemma {:induction false} BinomOne(n: nat)
    ensures Binom(n, 1) == n
    decreases n
  {
    if n > 0 {
      BinomOne(n - 1);
    }
  }

  /** The absorption identity `k * C(n, k) == n * C(n-1, k-1)`. */
  lemma {:induction false} Absorption(n: nat, k: nat)
    requires 1 <= k <= n
    ensures k * Binom(n, k) == n * Binom(n - 1, k - 1)
    decreases n
  {
    if k == 1 {
      BinomOne(n);
    } else {
      // here n >= k >= 2
      var A, B := Binom(n - 1, k - 1), Binom(n - 1, k);
      var C, D := Binom(n - 2, k - 1), Binom(n - 2, k - 2);
      assert Binom(n, k) == A + B;
      assert A == D + C;
      if k <= n - 1 {
        Absorption(n - 1, k);
      } else {
        BinomAboveIsZero(n - 1, k);
        BinomAboveIsZero(n - 2, k - 1);
      }
      assert k * B == (n - 1) * C;
      Absorption(n - 1, k - 1);
      assert (k - 1) * A == (n - 1) * D;
      TwoTermAlgebra(k, n, A, B, C, D);
    }
  }

  lemma TwoTermAlgebra(k: int, n: int, A: int, B: int, C: int, D: int)
    requires A == D + C && k * B == (n - 1) * C && (k - 1) * A == (n - 1) * D
    ensures k * (A + B) == n * A
  {
    assert k * (A + B) == (k - 1) * A + A + k * B;
    assert (n - 1) * D + (n - 1) * C == (n - 1) * A;
  }

  /** A prime divides every inner coefficient of its row. */
  lemma PrimeDividesBinom(p: nat, k: nat)
    requires IsPrime(p) && 1 <= k < p
    ensures Divides(p, Binom(p, k))
  {
    Absorption(p, k);
    DividesByWitness(p, k * Binom(p, k), Binom(p - 1, k - 1));
    EuclidLemma(p, k, Binom(p, k));
    if Divides(p, k) {
      DivisorBound(p, k);
    }
  }

  /** The first `k` terms of the expansion of `(x + 1)^n`. */
  function BinomSum(x: int, n: nat, k: nat): int
    decreases k
  {
    if k == 0 then 0 else BinomSum(x, n, k - 1) + Binom(n, k - 1) * Pow(x, k - 1)
  }

  lemma {:induction false} PascalSplit(x: int, n: nat, k: nat)
    requires k >= 1
    ensures BinomSum(x, n + 1, k) == BinomSum(x, n, k) + x * BinomSum(x, n, k - 1)
    decreases k
  {
    if k > 1 {
      PascalSplit(x, n, k - 1);
      var j := k - 1;
      var S1, S0, T := BinomSum(x, n, j), BinomSum(x, n, j - 1), BinomSum(x, n + 1, j);
      var cA, cB, P, P0 := Binom(n, j - 1), Binom(n, j), Pow(x, j), Pow(x, j - 1);
      assert Binom(n + 1, j) == cA + cB;
      assert P == x * P0;
      assert T == S1 + x * S0;
      assert BinomSum(x, n + 1, k) == T + (cA + cB) * P;
      assert BinomSum(x, n, k) == S1 + cB * P;
      assert S1 == S0 + cA * P0;
      PascalAlgebra(x, S1, S0, T, cA, cB, P, P0);
    }
  }

  lemma PascalAlgebra(x: int, S1: int, S0: int, T: int, cA: int, cB: int, P: int, P0: int)
    requires P == x * P0 && T == S1 + x * S0 && S1 == S0 + cA * P0
    ensures T + (cA + cB) * P == (S1 + cB * P) + x * S1
  {
    assert (cA + cB) * P == cA * P + cB * P;
    assert cA * P == x * (cA * P0);
    assert x * S1 == x * S0 + x * (cA * P0);
  }

  /** The binomial theorem for `(x + 1)^n`. */
  lemma {:induction false} BinomialTheorem(x: int, n: nat)
    ensures Pow(x + 1, n) == BinomSum(x, n, n + 1)
    decreases n
  {
    if n > 0 {
      var m := n - 1;
      BinomialTheorem(x, m);
      PascalSplit(x, m, m + 2);
      BinomAboveIsZero(m, m + 1);
      assert BinomSum(x, m, m + 2) == BinomSum(x, m, m + 1);
      calc {
        BinomSum(x, n, n + 1);
        BinomSum(x, m, m + 1) + x * BinomSum(x, m, m + 1);
        (x + 1) * BinomSum(x, m, m + 1);
        (x + 1) * Pow(x + 1, m);
      }
    }
  }

  /** Modulo a prime, the expansion without its last term is 1. */
  lemma {:induction false} InnerTermsVanish(x: int, p: nat, k: nat)
    requires IsPrime(p) && 1 <= k <= p
    ensures BinomSum(x, p, k) % p == 1 % p
    decreases k
  {
    if k > 1 {
      InnerTermsVanish(x, p, k - 1);
      PrimeDividesBinom(p, k - 1);
      DropMultipleTerm(BinomSum(x, p, k - 1), Binom(p, k - 1), Pow(x, k - 1), p);
    }
  }

  /** Adding a term whose coefficient is a multiple of `p` keeps the
      remainder modulo `p`. */
  lemma DropMultipleTerm(s: int, c: int, v: int, p: int)
    requires p > 0 && c % p == 0
    ensures (s + c * v) % p == s % p
  {
    var t := c / p;
    assert c == p * t;
    assert c * v == p * (t * v);
    ModAddMultiple(s, p, t * v);
  }

  /** The freshman's dream: `(x + 1)^p == x^p + 1` modulo a prime `p`. */
  lemma FreshmansDream(x: int, p: nat)
    requires IsPrime(p)
    ensures Pow(x + 1, p) % p == (Pow(x, p) + 1) % p
  {
    BinomialTheorem(x, p);
    BinomDiagonal(p);
    InnerTermsVanish(x, p, p);
    assert Pow(x + 1, p) == BinomSum(x, p, p) + Pow(x, p);
    ModAddLeft(BinomSum(x, p, p), Pow(x, p), p);
    ModAddLeft(1, Pow(x, p), p);
  }

  lemma {:induction false} FermatNat(x: nat, p: nat)
    requires IsPrime(p)
    ensures Pow(x, p) % p == x % p
    decreases x
  {
    if x == 0 {
      assert Pow(0, p) == 0 * Pow(0, p - 1);
    } else {
      FermatNat(x - 1, p);
      FreshmansDream(x - 1, p);
      ModAddLeft(Pow(x - 1, p), 1, p);
      ModAddLeft(x - 1, 1, p);
    }
  }

  /** Fermat's little theorem in the form `a^p == a (mod p)`. */
  lemma Fermat(a: int, p: nat)
    requires IsPrime(p)
    ensures Pow(a, p) % p == a % p
  {
    PowMod(a, p, p);
    FermatNat(a % p, p);
    ModIdempotent(a, p);
  }

  /** Fermat's little theorem for a base the prime does not divide. */
  lemma FermatCoprime(a: int, p: nat)
    requires IsPrime(p) && !Divides(p, a)
    ensures Pow(a, p - 1) % p == 1
  {
    Fermat(a, p);
    assert Pow(a, p) == a * Pow(a, p - 1);
    // p divides a * (a^(p-1) - 1)
    assert a * (Pow(a, p - 1) - 1) == Pow(a, p) - a;
    CongruentIffDividesDifference(Pow(a, p), a, p);
    EuclidLemma(p, a, Pow(a, p - 1) - 1);
    CongruentIffDividesDifference(Pow(a, p - 1), 1, p);
    ModSmall(1, p);
  }

  /** Adding a multiple of `p - 1` to a positive exponent does not change the
      power modulo the prime `p`, whatever the base. */
  lemma {:induction false} ExponentShift(c: int, m: nat, k: nat, p: nat)
    requires IsPrime(p) && m >= 1
    ensures Pow(c, m + k * (p - 1)) % p == Pow(c, m) % p
    decreases k
  {
    if k > 0 {
      ExponentShift(c, m, k - 1, p);
      var t := m + (k - 1) * (p - 1);
      assert m + k * (p - 1) == (t - 1) + p;
      PowAdd(c, t - 1, p);
      PowAdd(c, t - 1, 1);
      Fermat(c, p);
      calc {
        Pow(c, m + k * (p - 1)) % p;
        (Pow(c, t - 1) * Pow(c, p)) % p;
        { ModMulRight(Pow(c, t - 1), Pow(c, p), p); }
        (Pow(c, t - 1) * (Pow(c, p) % p)) % p;
        (Pow(c, t - 1) * (c % p)) % p;
        { ModMulRight(Pow(c, t - 1), c, p); }
        (Pow(c, t - 1) * c) % p;
        Pow(c, t) % p;
      }
    }
  }

  /** Modulo a prime, 1 has only the square roots 1 and -1. */
  lemma SquareRootOfOne(p: nat, x: int)
    requires IsPrime(p) && 0 <= x < p && (x * x) % p == 1
    ensures x == 1 || x == p - 1
  {
    ModSmall(1, p);
    CongruentIffDividesDifference(x * x, 1, p);
    assert x * x - 1 == (x - 1) * (x + 1);
    EuclidLemma(p, x - 1, x + 1);
    if Divides(p, x - 1) {
      if x == 0 {
        ModAddMultiple(p - 1, p, -1);
        ModSmall(p - 1, p);
      } else if x > 1 {
        DivisorBound(p, x - 1);
      }
    } else {
      DivisorBound(p, x + 1);
    }
  }

  // ---------------------------------------------------------------------
  // Coprimality of powers
  // ---------------------------------------------------------------------

  /** A Bezout combination of `a` and `n` equal to 1 yields one for `a^e`. */
  lemma {:induction false} CoprimePowerCombination(a: int, n: int, x: int, y: int, e: nat)
    returns (X: int, Y: int)
    requires a * x + n * y == 1
    ensures Pow(a, e) * X + n * Y == 1
    decreases e
  {
    if e == 0 {
      X, Y := 1, 0;
    } else {
      var X0, Y0 := CoprimePowerCombination(a, n, x, y, e - 1);
      var A := Pow(a, e - 1);
      // (a*x + n*y) * (A*X0 + n*Y0) == 1
      X := x * X0;
      Y := y * A * X0 + a * x * Y0 + n * y * Y0;
      assert (a * x + n * y) * (A * X0 + n * Y0) == 1;
      assert (a * x + n * y) * (A * X0 + n * Y0) == (a * A) * (x * X0) + n * Y;
    }
  }

  /** A power of a value coprime to `n` stays coprime to `n` once reduced. */
  lemma CoprimePower(a: int, e: nat, n: nat)
    requires n >= 1 && MathGcd(a, n) == 1
    ensures Gcd(Pow(a, e) % n, n) == 1
  {
    var x', y := SignedCombination(a, n);
    var X, Y := CoprimePowerCombination(a, n, x', y, e);
    ReducedCombination(Pow(a, e), n, X, Y);
  }

  lemma SignedCombination(a: int, n: nat) returns (x: int, y: int)
    requires MathGcd(a, n) == 1
    ensures a * x + n * y == 1
  {
    var abs := if a < 0 then -a else a;
    var x0, y0 := CoprimeCombination(abs, n);
    x := if a < 0 then -x0 else x0;
    y := y0;
  }

  lemma ReducedCombination(P: int, n: nat, X: int, Y: int)
    requires n >= 1 && P * X + n * Y == 1
    ensures Gcd(P % n, n) == 1
  {
    var q := P / n;
    assert P == n * q + P % n;
    assert (P % n) * X + n * (Y + q * X) == P * X + n * Y by {
      assert P * X == (n * q) * X + (P % n) * X;
      assert (n * q) * X == n * (q * X);
    }
    GcdOneFromCombination(P % n, n, X, Y + q * X);
  }
}
