/** The mathematics the primitives are measured against: divisibility,
    primality, integer powers, Euclidean division facts and the greatest
    common divisor characterised by divisibility. Nothing here models a
    line of the source; it is the reference the models are proved against. */
module NumberTheory {

  /** `d` divides `n`; zero divides only zero. */
  predicate Divides(d: nat, n: int) {
    if d == 0 then n == 0 else n % d == 0
  }

  /** A prime is at least 2 and has no divisor strictly between 1 and itself. */
  predicate IsPrime(n: int) {
    n >= 2 && forall k: nat :: 2 <= k < n ==> !Divides(k, n)
  }

  /** Exact integer power. */
  function Pow(b: int, e: nat): int
    decreases e
  {
    if e == 0 then 1 else b * Pow(b, e - 1)
  }

  /** Powers of two, as naturals. */
  function Pow2(e: nat): (r: nat)
    ensures r >= 1
    decreases e
  {
    if e == 0 then 1 else 2 * Pow2(e - 1)
  }

  /** `g` is a greatest common divisor of `a` and `b` in the divisibility
      order: a common divisor that every common divisor divides. */
  ghost predicate IsGcd(g: nat, a: nat, b: nat) {
    && Divides(g, a)
    && Divides(g, b)
    && forall d: nat :: Divides(d, a) && Divides(d, b) ==> Divides(d, g)
  }

  /** The greatest common divisor, by Euclid's recursion. */
  function Gcd(a: nat, b: nat): (g: nat)
    ensures IsGcd(g, a, b)
    decreases b
  {
    if b == 0 then
      DividesZero(a);
      DividesSelf(a);
      a
    else
      var g := Gcd(b, a % b);
      CommonDivisorsOfRemainder(a, b);
      g
  }

  /** Python's `math.gcd`, which works on absolute values. */
  function MathGcd(a: int, b: int): nat {
    Gcd(if a < 0 then -a else a, if b < 0 then -b else b)
  }

  // ---------------------------------------------------------------------
  // Euclidean division
  // ---------------------------------------------------------------------

  lemma MulAtLeast(d: int, t: int)
    requires d > 0
    ensures t >= 1 ==> d * t >= d
    ensures t <= -1 ==> d * t <= -d
  {
  }

  /** Squaring is monotone on naturals. */
  lemma MulMonotone(a: nat, b: nat)
    requires a <= b
    ensures a * a <= b * b
  {
    assert a * a <= a * b <= b * b;
  }

  /** Quotient and remainder are determined by the division equation. */
  lemma DivModUnique(n: int, d: int, q: int, r: int)
    requires d > 0 && 0 <= r < d && n == d * q + r
    ensures n / d == q && n % d == r
  {
    var q0, r0 := n / d, n % d;
    assert d * (q - q0) == r0 - r;
    MulAtLeast(d, q - q0);
  }

  lemma ModAddMultiple(a: int, m: int, k: int)
    requires m > 0
    ensures (a + m * k) % m == a % m
    ensures (a + m * k) / m == a / m + k
  {
    assert a + m * k == m * (a / m + k) + a % m;
    DivModUnique(a + m * k, m, a / m + k, a % m);
  }

  lemma ModOfMultiple(m: int, k: int)
    requires m > 0
    ensures (m * k) % m == 0
  {
    ModAddMultiple(0, m, k);
  }

  lemma ModIdempotent(a: int, m: int)
    requires m > 0
    ensures (a % m) % m == a % m
  {
    DivModUnique(a % m, m, 0, a % m);
  }

  lemma ModSmall(a: int, m: int)
    requires 0 <= a < m
    ensures a % m == a && a / m == 0
  {
    DivModUnique(a, m, 0, a);
  }

  lemma ModMulLeft(a: int, b: int, m: int)
    requires m > 0
    ensures ((a % m) * b) % m == (a * b) % m
  {
    assert a * b == (a % m) * b + m * ((a / m) * b) by {
      assert a == m * (a / m) + a % m;
    }
    ModAddMultiple((a % m) * b, m, (a / m) * b);
  }

  lemma ModMulRight(a: int, b: int, m: int)
    requires m > 0
    ensures (a * (b % m)) % m == (a * b) % m
  {
    ModMulLeft(b, a, m);
  }

  lemma ModMulBoth(a: int, b: int, m: int)
    requires m > 0
    ensures ((a % m) * (b % m)) % m == (a * b) % m
  {
    ModMulLeft(a, b % m, m);
    ModMulRight(a, b, m);
  }

  lemma ModAddLeft(a: int, b: int, m: int)
    requires m > 0
    ensures ((a % m) + b) % m == (a + b) % m
  {
    assert a + b == (a % m) + b + m * (a / m);
    ModAddMultiple((a % m) + b, m, a / m);
  }

  lemma ModSubLeft(a: int, b: int, m: int)
    requires m > 0
    ensures ((a % m) - b) % m == (a - b) % m
  {
    ModAddLeft(a, -b, m);
  }

  /** Equal remainders are exactly a divisible difference. */
  lemma CongruentIffDividesDifference(a: int, b: int, m: int)
    requires m > 0
    ensures a % m == b % m <==> Divides(m, a - b)
  {
    var r := a % m - b % m;
    assert a - b == r + m * (a / m - b / m);
    SmallDifference(r, m, a / m - b / m);
  }

  /** A difference of two residues is 0 exactly when adding any multiple of
      `m` to it leaves a multiple of `m`. */
  lemma SmallDifference(r: int, m: int, t: int)
    requires m > 0 && -m < r < m
    ensures r == 0 <==> Divides(m, r + m * t)
  {
    ModAddMultiple(r, m, t);
    if r > 0 {
      ModSmall(r, m);
    } else if r < 0 {
      ModAddMultiple(r, m, 1);
      ModSmall(r + m, m);
    }
  }

  /** A remainder modulo a product reduces to the remainder modulo a factor. */
  lemma ModOfModProduct(a: int, m1: int, m2: int)
    requires m1 > 0 && m2 > 0
    ensures (a % (m1 * m2)) % m1 == a % m1
  {
    var M := m1 * m2;
    assert a == M * (a / M) + a % M;
    assert a == a % M + m1 * (m2 * (a / M));
    ModAddMultiple(a % M, m1, m2 * (a / M));
  }

  // ---------------------------------------------------------------------
  // Divisibility
  // ---------------------------------------------------------------------

  lemma DividesZero(d: nat)
    ensures Divides(d, 0)
  {
  }

  lemma DividesSelf(d: nat)
    ensures Divides(d, d)
  {
    if d > 0 {
      ModOfMultiple(d, 1);
    }
  }

  lemma DividesByWitness(d: nat, n: int, k: int)
    requires n == d * k
    ensures Divides(d, n)
  {
    if d > 0 {
      ModOfMultiple(d, k);
    }
  }

  lemma DividesWitness(d: nat, n: int)
    requires d > 0 && Divides(d, n)
    ensures n == d * (n / d)
  {
  }

  lemma DividesLinear(d: nat, a: int, b: int, x: int, y: int)
    requires Divides(d, a) && Divides(d, b)
    ensures Divides(d, a * x + b * y)
  {
    if d > 0 {
      var ka, kb := a / d, b / d;
      assert a == d * ka && b == d * kb;
      assert a * x + b * y == d * (ka * x + kb * y);
      DividesByWitness(d, a * x + b * y, ka * x + kb * y);
    }
  }

  lemma DividesTransitive(a: nat, b: nat, c: int)
    requires Divides(a, b) && Divides(b, c)
    ensures Divides(a, c)
  {
    if a > 0 && b > 0 {
      assert b == a * (b / a);
      assert c == b * (c / b);
      assert c == a * ((b / a) * (c / b));
      DividesByWitness(a, c, (b / a) * (c / b));
    }
  }

  /** A positive divisor of a positive number is no larger than it. */
  lemma DivisorBound(d: nat, n: int)
    requires n > 0 && Divides(d, n)
    ensures 1 <= d <= n
  {
    assert d != 0;
    var k := n / d;
    assert n == d * k;
    MulAtLeast(d, k);
  }

  /** Divisibility of the remainder: Euclid's step preserves common divisors. */
  lemma CommonDivisorsOfRemainder(a: nat, b: nat)
    requires b > 0
    ensures forall d: nat :: Divides(d, a) && Divides(d, b) <==> Divides(d, b) && Divides(d, a % b)
  {
    forall d: nat
      ensures Divides(d, a) && Divides(d, b) <==> Divides(d, b) && Divides(d, a % b)
    {
      assert a % b == a * 1 + b * (-(a / b));
      assert a == (a % b) * 1 + b * (a / b);
      if Divides(d, a) && Divides(d, b) {
        DividesLinear(d, a, b, 1, -(a / b));
      }
      if Divides(d, b) && Divides(d, a % b) {
        DividesLinear(d, a % b, b, 1, a / b);
      }
    }
  }

  /** The gcd characterisation pins the value down. */
  lemma GcdUnique(g: nat, h: nat, a: nat, b: nat)
    requires IsGcd(g, a, b) && IsGcd(h, a, b)
    ensures g == h
  {
    assert Divides(g, h) && Divides(h, g);
    if g != 0 && h != 0 {
      DivisorBound(g, h);
      DivisorBound(h, g);
    }
  }

  lemma GcdCommutes(a: nat, b: nat)
    ensures Gcd(a, b) == Gcd(b, a)
  {
    GcdUnique(Gcd(a, b), Gcd(b, a), a, b);
  }

  /** A common divisor of `a`, `b` reached by a linear combination equal to 1
      forces a gcd of 1 (the easy half of Bezout's identity). */
  lemma GcdOneFromCombination(a: nat, b: nat, x: int, y: int)
    requires a * x + b * y == 1
    ensures Gcd(a, b) == 1
  {
    var g := Gcd(a, b);
    DividesLinear(g, a, b, x, y);
    DivisorBound(g, 1);
  }

  lemma GcdOfRemainder(a: int, m: nat)
    requires m > 0 && a >= 0
    ensures Gcd(a % m, m) == Gcd(a, m)
  {
    var g := Gcd(a, m);
    CommonDivisorsOfRemainder(a, m);
    assert IsGcd(g, a % m, m);
    GcdUnique(g, Gcd(a % m, m), a % m, m);
  }

  // ---------------------------------------------------------------------
  // Powers
  // ---------------------------------------------------------------------

  lemma {:induction false} PowAdd(b: int, x: nat, y: nat)
    ensures Pow(b, x + y) == Pow(b, x) * Pow(b, y)
    decreases x
  {
    if x > 0 {
      PowAdd(b, x - 1, y);
      assert Pow(b, x + y) == b * Pow(b, x - 1 + y);
    }
  }

  lemma {:induction false} PowMul(b: int, x: nat, y: nat)
    ensures Pow(b, x * y) == Pow(Pow(b, x), y)
    decreases y
  {
    if y > 0 {
      PowMul(b, x, y - 1);
      assert x * y == x + x * (y - 1);
      PowAdd(b, x, x * (y - 1));
    }
  }

  lemma {:induction false} PowOfProduct(a: int, b: int, e: nat)
    ensures Pow(a * b, e) == Pow(a, e) * Pow(b, e)
    decreases e
  {
    if e > 0 {
      PowOfProduct(a, b, e - 1);
    }
  }

  lemma {:induction false} PowPositive(b: int, e: nat)
    requires b > 0
    ensures Pow(b, e) > 0
    decreases e
  {
    if e > 0 {
      PowPositive(b, e - 1);
    }
  }

  lemma {:induction false} PowOne(e: nat)
    ensures Pow(1, e) == 1
    decreases e
  {
    if e > 0 {
      PowOne(e - 1);
    }
  }

  lemma {:induction false} Pow2IsPow(e: nat)
    ensures Pow2(e) == Pow(2, e)
    decreases e
  {
    if e > 0 {
      Pow2IsPow(e - 1);
    }
  }

  lemma {:induction false} Pow2Add(x: nat, y: nat)
    ensures Pow2(x + y) == Pow2(x) * Pow2(y)
    decreases x
  {
    if x > 0 {
      Pow2Add(x - 1, y);
    }
  }

  lemma {:induction false} Pow2Monotone(x: nat, y: nat)
    requires x <= y
    ensures Pow2(x) <= Pow2(y)
    decreases y
  {
    if x < y {
      Pow2Monotone(x, y - 1);
    }
  }

  /** Reducing the base does not change a power's remainder. */
  lemma {:induction false} PowMod(b: int, e: nat, m: int)
    requires m > 0
    ensures Pow(b % m, e) % m == Pow(b, e) % m
    decreases e
  {
    if e > 0 {
      PowMod(b, e - 1, m);
      calc {
        Pow(b % m, e) % m;
        ((b % m) * Pow(b % m, e - 1)) % m;
        { ModMulRight(b % m, Pow(b % m, e - 1), m); }
        ((b % m) * (Pow(b % m, e - 1) % m)) % m;
        ((b % m) * (Pow(b, e - 1) % m)) % m;
        { ModMulRight(b % m, Pow(b, e - 1), m); }
        ((b % m) * Pow(b, e - 1)) % m;
        { ModMulLeft(b, Pow(b, e - 1), m); }
        (b * Pow(b, e - 1)) % m;
      }
    }
  }

  /** Raising to `2^i` and then to `2^j`, reducing in between, raises to
      `2^(i+j)`: repeated squaring modulo `m` composes. */
  lemma PowPow2Compose(x: int, i: nat, j: nat, m: int)
    requires m > 0
    ensures Pow(Pow(x, Pow2(i)) % m, Pow2(j)) % m == Pow(x, Pow2(i + j)) % m
  {
    PowMod(Pow(x, Pow2(i)), Pow2(j), m);
    PowMul(x, Pow2(i), Pow2(j));
    Pow2Add(i, j);
  }

  /** Squaring modulo `m` and then raising to `2^i` raises to `2^(i+1)`. */
  lemma SquareThenPow2(x: int, i: nat, m: int)
    requires m > 0
    ensures Pow((x * x) % m, Pow2(i)) % m == Pow(x, Pow2(i + 1)) % m
  {
    assert Pow(x, Pow2(1)) == x * x;
    PowPow2Compose(x, 1, i, m);
    assert 1 + i == i + 1;
  }
}
