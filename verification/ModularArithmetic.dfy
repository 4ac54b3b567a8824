/** The modular-arithmetic kernel of `rsa_operations.py`: Euclid's gcd, the
    recursive extended Euclid, the modular inverse built on it, the
    square-and-multiply `mod_pow` and the two-modulus Chinese remainder
    solver. The ElGamal scripts carry token-identical copies of `egcd` and
    `modinv`; they are modelled by the same members. */
module ModularArithmetic {
  import opened NumberTheory
  import opened Results

  /** `gcd`: the iterative Euclidean algorithm. */
  method EuclidGcd(a0: nat, b0: nat) returns (r: nat)
    ensures r == Gcd(a0, b0)
    ensures IsGcd(r, a0, b0)
    ensures b0 == 0 ==> r == a0
  {
    var a, b := a0, b0;
    while b != 0
      invariant Gcd(a, b) == Gcd(a0, b0)
      decreases b
    {
      a, b := b, a % b;
    }
    r := a;
  }

  /** One Euclid step keeps a Bezout combination a Bezout combination. */
  lemma BezoutStep(a: nat, b: nat, g: int, x1: int, y1: int)
    requires b > 0
    requires b * x1 + (a % b) * y1 == g
    ensures a * y1 + b * (x1 - (a / b) * y1) == g
  {
    assert a == b * (a / b) + a % b;
    assert a * y1 == b * (a / b) * y1 + (a % b) * y1;
  }

  /** `extended_gcd` (and `egcd` in the ElGamal scripts): returns
      `(g, x, y)` with `a*x + b*y == g` and `g` the greatest common divisor. */
  function ExtendedGcd(a: nat, b: nat): (r: (nat, int, int))
    ensures r.0 == Gcd(a, b)
    ensures a * r.1 + b * r.2 == r.0
    decreases b
  {
    if b == 0 then
      (a, 1, 0)
    else
      var (g, x1, y1) := ExtendedGcd(b, a % b);
      BezoutStep(a, b, g, x1, y1);
      (g, y1, x1 - (a / b) * y1)
  }

  /** From a Bezout combination of `a mod m` and `m` equal to 1, the reduced
      coefficient is an inverse of `a`. */
  lemma InverseFromBezout(a: int, m: int, x: int, y: int)
    requires m >= 1
    requires (a % m) * x + m * y == 1
    ensures (a * (x % m)) % m == 1 % m
  {
    ModAddMultiple((a % m) * x, m, y);
    ModMulLeft(a, x, m);
    ModMulRight(a, x, m);
  }

  /** `mod_inverse` (and `modinv` in the ElGamal scripts): fails exactly when
      `a mod m` and `m` are not coprime; otherwise the inverse in `[0, m)`. */
  function ModInverse(a: int, m: int): (r: Result<nat>)
    requires m >= 1
    ensures r.Err? <==> Gcd(a % m, m) != 1
    ensures r.Err? ==> r.error == NoInverse
    ensures r.Ok? ==> r.value < m && (a * r.value) % m == 1 % m
  {
    var (g, x, y) := ExtendedGcd(a % m, m);
    if g != 1 then
      Err(NoInverse)
    else
      InverseFromBezout(a, m, x, y);
      Ok(x % m)
  }

  /** The inverse in `[0, m)` is unique, and it exists as soon as any value
      inverts `a`: `ModInverse` returns every such value. */
  lemma ModInverseIsUnique(a: int, m: int, s: int)
    requires m >= 1
    requires 0 <= s < m && (a * s) % m == 1 % m
    ensures ModInverse(a, m) == Ok(s)
  {
    InverterIsCoprime(a, m, s);
    InversesAgree(a, m, ModInverse(a, m).value, s);
  }

  /** A value that inverts `a` modulo `m` makes `a mod m` coprime to `m`. */
  lemma InverterIsCoprime(a: int, m: int, s: int)
    requires m >= 1
    requires 0 <= s < m && (a * s) % m == 1 % m
    ensures Gcd(a % m, m) == 1
  {
    var k := (a * s) / m;
    assert a * s == m * k + 1 % m;
    if m == 1 {
      GcdOneFromCombination(a % m, m, 0, 1);
    } else {
      ModSmall(1, m);
      assert (a % m) * s + m * (((a / m) * s) - k) == 1 by {
        assert a == m * (a / m) + a % m;
        assert a * s == (a % m) * s + m * ((a / m) * s);
      }
      GcdOneFromCombination(a % m, m, s, ((a / m) * s) - k);
    }
  }

  /** Two inverses of `a` in `[0, m)` are equal:
      `r == r * (a * s) == (a * r) * s == s (mod m)`. */
  lemma InversesAgree(a: int, m: int, r: int, s: int)
    requires m >= 1
    requires 0 <= r < m && (a * r) % m == 1 % m
    requires 0 <= s < m && (a * s) % m == 1 % m
    ensures r == s
  {
    calc {
      s;
      { ModSmall(s, m); }
      s % m;
      (1 * s) % m;
      { ModMulLeft(1, s, m); }
      ((1 % m) * s) % m;
      (((a * r) % m) * s) % m;
      { ModMulLeft(a * r, s, m); }
      ((a * r) * s) % m;
      { assert (a * r) * s == r * (a * s); }
      (r * (a * s)) % m;
      { ModMulRight(r, a * s, m); }
      (r * ((a * s) % m)) % m;
      (r * (1 % m)) % m;
      { ModMulRight(r, 1, m); }
      r % m;
      { ModSmall(r, m); }
      r;
    }
  }

  /** The value `mod_pow` computes: for a non-positive exponent the loop never
      runs and the unreduced 1 comes back; otherwise the power reduced. */
  function ModPowValue(base: int, exponent: int, modulus: int): int
    requires modulus >= 1
  {
    if exponent <= 0 then 1 else Pow(base, exponent) % modulus
  }

  /** Python's built-in three-argument `pow(b, e, m)` for `e >= 0` and
      `m >= 1`, which the generator, Pollard and ElGamal code calls: unlike
      `mod_pow` its result is always reduced. */
  function ModExp(b: int, e: nat, m: int): (r: int)
    requires m >= 1
    ensures 0 <= r < m
  {
    Pow(b, e) % m
  }

  /** For non-negative exponents, `mod_pow` and the built-in `pow` differ
      only on the zero exponent modulo 1, where `mod_pow` returns the
      unreduced 1. (For a negative exponent `mod_pow` returns 1, while
      `pow` inverts or fails.) */
  lemma ModPowVersusBuiltin(b: int, e: nat, m: int)
    requires m >= 1
    ensures ModPowValue(b, e, m) == ModExp(b, e, m) <==> e >= 1 || m >= 2
  {
    if e == 0 {
      if m >= 2 {
        ModSmall(1, m);
      }
    }
  }

  /** One square-and-multiply step leaves `result * base^e` unchanged modulo m. */
  lemma SquareStep(result: int, b: int, e: nat, m: int)
    requires m >= 1
    ensures ((if e % 2 == 1 then (result * b) % m else result) * Pow((b * b) % m, e / 2)) % m
            == (result * Pow(b, e)) % m
  {
    var k := e / 2;
    var B := Pow(b, 2 * k);
    assert Pow(b, 2) == b * b;
    calc {
      Pow((b * b) % m, k) % m;
      { PowMod(b * b, k, m); }
      Pow(b * b, k) % m;
      { PowMul(b, 2, k); }
      B % m;
    }
    var X := if e % 2 == 1 then (result * b) % m else result;
    calc {
      (X * Pow((b * b) % m, k)) % m;
      { ModMulRight(X, Pow((b * b) % m, k), m); }
      (X * (Pow((b * b) % m, k) % m)) % m;
      (X * (B % m)) % m;
      { ModMulRight(X, B, m); }
      (X * B) % m;
    }
    if e % 2 == 1 {
      calc {
        (X * B) % m;
        { ModMulLeft(result * b, B, m); }
        (result * b * B) % m;
        { PowAdd(b, 1, 2 * k); assert result * b * B == result * Pow(b, e); }
        (result * Pow(b, e)) % m;
      }
    } else {
      assert 2 * k == e;
    }
  }

  /** `mod_pow`: right-to-left square-and-multiply. */
  method ModPow(base: int, exponent: int, modulus: int) returns (result: int)
    requires modulus >= 1
    ensures result == ModPowValue(base, exponent, modulus)
    ensures exponent > 0 ==> 0 <= result < modulus
  {
    result := 1;
    var b := base % modulus;
    var e := exponent;
    ghost var reduced := false;
    PowMod(base, if exponent > 0 then exponent else 0, modulus);
    while e > 0
      invariant exponent <= 0 ==> e == exponent && result == 1
      invariant exponent > 0 ==> e >= 0
      invariant exponent > 0 ==> (result * Pow(b, e)) % modulus == Pow(base, exponent) % modulus
      invariant 0 <= b < modulus
      invariant reduced ==> 0 <= result < modulus
      invariant !reduced ==> result == 1
      invariant exponent > 0 ==> e > 0 || reduced
      decreases e
    {
      SquareStep(result, b, e, modulus);
      if e % 2 == 1 {
        result := (result * b) % modulus;
        reduced := true;
      }
      e := e / 2;
      b := (b * b) % modulus;
    }
    if exponent > 0 {
      ModSmall(result, modulus);
    }
  }

  /** `chinese_remainder_theorem` for two moduli: fails when the moduli share
      a factor, otherwise the solution in `[0, m1*m2)` of both congruences. */
  function ChineseRemainder(a1: int, m1: int, a2: int, m2: int): (r: Result<int>)
    requires m1 >= 1 && m2 >= 1
    ensures r.Err? <==> Gcd(m1, m2) != 1
    ensures r.Err? ==> r.error == NonCoprimeModuli
    ensures r.Ok? ==> 0 <= r.value < m1 * m2
    ensures r.Ok? ==> r.value % m1 == a1 % m1 && r.value % m2 == a2 % m2
  {
    var (g, x, y) := ExtendedGcd(m1, m2);
    if g != 1 then
      Err(NonCoprimeModuli)
    else
      var v := a1 * m2 * y + a2 * m1 * x;
      CrtSolves(a1, m1, a2, m2, x, y);
      Ok(v % (m1 * m2))
  }

  lemma CrtSolves(a1: int, m1: int, a2: int, m2: int, x: int, y: int)
    requires m1 >= 1 && m2 >= 1
    requires m1 * x + m2 * y == 1
    ensures var v := a1 * m2 * y + a2 * m1 * x;
            (v % (m1 * m2)) % m1 == a1 % m1 && (v % (m1 * m2)) % m2 == a2 % m2
  {
    var v := a1 * m2 * y + a2 * m1 * x;
    var P, Q := m1 * x, m2 * y;
    assert a1 * m2 * y == a1 * Q && a2 * m1 * x == a2 * P;
    assert v == a1 * Q + a2 * P;
    assert a1 * Q == a1 - a1 * P by { assert Q == 1 - P; }
    assert a2 * P == a2 - a2 * Q by { assert P == 1 - Q; }
    assert a2 * P - a1 * P == m1 * (a2 * x - a1 * x);
    assert a1 * Q - a2 * Q == m2 * (a1 * y - a2 * y);
    assert v == a1 + m1 * (a2 * x - a1 * x);
    assert v == a2 + m2 * (a1 * y - a2 * y);
    ModAddMultiple(a1, m1, a2 * x - a1 * x);
    ModAddMultiple(a2, m2, a1 * y - a2 * y);
    ModOfModProduct(v, m1, m2);
    assert m1 * m2 == m2 * m1;
    ModOfModProduct(v, m2, m1);
  }
}
