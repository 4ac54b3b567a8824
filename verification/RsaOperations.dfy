/** The RSA half of `rsa_operations.py`: the trial-division totient and the
    CRT-accelerated decryption, whose recombination is the one of RSADP in
    section 5.1.2 of RFC 8017 (`h = qInv*(m1 - m2) mod p`, `m = m2 + q*h`). */
module RsaOperations {
  import opened NumberTheory
  import opened Results
  import opened ModularArithmetic
  import opened PrimeFacts

  // ---------------------------------------------------------------------
  // euler_totient
  // ---------------------------------------------------------------------

  /** The inner loop of `euler_totient`: divide every factor `p` out of `n`. */
  function StripFactor(n: int, p: int): (r: int)
    requires p >= 2 && n >= 1
    ensures 1 <= r <= n
    decreases n
  {
    if n % p == 0 then
      QuotientShrinks(n, p);
      StripFactor(n / p, p)
    else
      n
  }

  lemma QuotientShrinks(n: int, p: int)
    requires p >= 2 && n >= 1 && n % p == 0
    ensures 1 <= n / p < n
  {
    var k := n / p;
    assert n == p * k;
    if k <= 0 {
      MulAtLeast(p, k);
    } else {
      assert p * k == k + (p - 1) * k;
      MulAtLeast(p - 1, k);
    }
  }

  /** The outer loop of `euler_totient` from candidate factor `p` on, with
      the running `n` and `result`. */
  function TotientLoop(n: int, result: int, p: int): int
    requires p >= 2
    decreases n - p
  {
    if p * p <= n then
      MulAtLeast(p, p);
      if n % p == 0 then
        TotientLoop(StripFactor(n, p), result - result / p, p + 1)
      else
        TotientLoop(n, result, p + 1)
    else if n > 1 then
      result - result / n
    else
      result
  }

  /** `euler_totient`. */
  function EulerTotient(n: int): int {
    TotientLoop(n, n, 2)
  }

  /** When no remaining candidate divides `n`, only the trailing `n > 1`
      correction is applied. */
  lemma {:induction false} TotientLoopNoFactor(n: int, result: int, p: int)
    requires p >= 2
    requires forall j: nat :: p <= j && j * j <= n ==> !Divides(j, n)
    ensures TotientLoop(n, result, p) == if n > 1 then result - result / n else result
    decreases n - p
  {
    if p * p <= n {
      assert !Divides(p, n);
      MulAtLeast(p, p);
      TotientLoopNoFactor(n, result, p + 1);
    }
  }

  /** A candidate that divides `n` is stripped and scales `result`. */
  lemma TotientLoopDivides(n: int, result: int, p: int)
    requires p >= 2 && p * p <= n && n % p == 0
    ensures TotientLoop(n, result, p) == TotientLoop(StripFactor(n, p), result - result / p, p + 1)
  {
    MulAtLeast(p, p);
  }

  /** Candidates that divide nothing are skipped without effect. */
  lemma {:induction false} TotientLoopSkip(n: int, result: int, p: int, p': int)
    requires 2 <= p <= p' && p' * p' <= n
    requires forall j: nat :: p <= j < p' ==> !Divides(j, n)
    ensures TotientLoop(n, result, p) == TotientLoop(n, result, p')
    decreases p' - p
  {
    if p < p' {
      assert p * p <= p' * p' by { MulMonotone(p, p'); }
      assert !Divides(p, n);
      TotientLoopSkip(n, result, p + 1, p');
    }
  }

  /** No factor `j` with `j*j <= n` of a prime `n` lies in `[2, n)`. */
  lemma SmallCandidatesOfPrime(n: int, p: int)
    requires IsPrime(n) && p >= 2
    ensures forall j: nat :: p <= j && j * j <= n ==> !Divides(j, n)
  {
    forall j: nat | p <= j && j * j <= n
      ensures !Divides(j, n)
    {
      MulAtLeast(j, j - 1);
    }
  }

  /** The totient of a prime `p` is `p - 1`. */
  lemma TotientOfPrime(p: int)
    requires IsPrime(p)
    ensures EulerTotient(p) == p - 1
  {
    SmallCandidatesOfPrime(p, 2);
    TotientLoopNoFactor(p, p, 2);
    ModSmall(0, p);
    DivModUnique(p, p, 1, 0);
  }

  /** Below the smaller of two distinct primes nothing divides their product. */
  lemma NoSmallFactorOfSemiprime(p: nat, q: nat)
    requires IsPrime(p) && IsPrime(q) && p < q
    ensures forall j: nat :: 2 <= j < p ==> !Divides(j, p * q)
  {
    forall j: nat | 2 <= j < p
      ensures !Divides(j, p * q)
    {
      if Divides(j, p * q) {
        var g := Gcd(p, j);
        DivisorBound(g, j);
        GcdOfRemainder(p, j);
        Gauss(j, p, q);
      }
    }
  }

  /** Dividing `p` out of `p*q` leaves `q` when `p` does not divide `q`. */
  lemma StripSemiprime(p: nat, q: nat)
    requires p >= 2 && q >= 1 && !Divides(p, q)
    ensures (p * q) % p == 0 && (p * q) / p == q
    ensures StripFactor(p * q, p) == q
  {
    ModOfMultiple(p, q);
    DivModUnique(p * q, p, q, 0);
  }

  /** The loop state after the candidate `p` has been processed, when no
      smaller candidate divides `p*q` and `p` does not divide `q`. */
  lemma TotientSemiprimeAtP(p: nat, q: nat)
    requires 2 <= p < q && !Divides(p, q)
    requires forall j: nat :: 2 <= j < p ==> !Divides(j, p * q)
    ensures TotientLoop(p * q, p * q, 2) == TotientLoop(q, q * (p - 1), p + 1)
  {
    var n := p * q;
    SemiprimeArithmetic(p, q);
    TotientLoopSkip(n, n, 2, p);
    StripSemiprime(p, q);
    TotientLoopDivides(n, n, p);
  }

  /** The arithmetic of the step at `p`: it is a candidate, and removing
      `n / p == q` from `n` leaves `q * (p - 1)`. */
  lemma SemiprimeArithmetic(p: nat, q: nat)
    requires 2 <= p < q
    ensures p * p <= p * q
    ensures (p * q) / p == q && p * q - (p * q) / p == q * (p - 1)
  {
    MulMonotone(p, q);
    assert p * p <= p * q;
    DivModUnique(p * q, p, q, 0);
  }

  /** The totient of a product of two distinct primes `p < q`. */
  lemma TotientOfOrderedSemiprime(p: nat, q: nat)
    requires IsPrime(p) && IsPrime(q) && p < q
    ensures EulerTotient(p * q) == (p - 1) * (q - 1)
  {
    NoSmallFactorOfSemiprime(p, q);
    assert !Divides(p, q);
    TotientSemiprimeAtP(p, q);
    SmallCandidatesOfPrime(q, p + 1);
    TotientLoopNoFactor(q, q * (p - 1), p + 1);
    LastFactorArithmetic(p, q);
  }

  /** The trailing correction for the remaining prime `q`:
      `t - t / q == (p - 1) * (q - 1)` where `t == q * (p - 1)`. */
  lemma LastFactorArithmetic(p: nat, q: nat)
    requires p >= 2 && q >= 2
    ensures q * (p - 1) - (q * (p - 1)) / q == (p - 1) * (q - 1)
  {
    DivModUnique(q * (p - 1), q, p - 1, 0);
  }

  /** `euler_totient(p*q) == (p-1)*(q-1)` for distinct primes. */
  lemma TotientOfSemiprime(p: nat, q: nat)
    requires IsPrime(p) && IsPrime(q) && p != q
    ensures EulerTotient(p * q) == (p - 1) * (q - 1)
  {
    if p < q {
      TotientOfOrderedSemiprime(p, q);
    } else {
      TotientOfOrderedSemiprime(q, p);
      assert q * p == p * q;
    }
  }

  // ---------------------------------------------------------------------
  // rsa_decrypt_crt
  // ---------------------------------------------------------------------

  /** The recombination step of `rsa_decrypt_crt`: `qInv = q^-1 mod p`,
      `h = qInv*(mp - mq) mod p`, `m = mq + h*q`, reduced modulo `p*q`. It
      fails when `q` has no inverse modulo `p`, as `mod_inverse` raises. */
  function CrtRecombine(mp: int, mq: int, p: int, q: int): (r: Result<int>)
    requires p >= 2 && q >= 2
    ensures r.Err? <==> Gcd(q % p, p) != 1
    ensures r.Ok? ==> 0 <= r.value < p * q
    ensures r.Ok? ==> r.value % p == mp % p && r.value % q == mq % q
  {
    match ModInverse(q, p)
    case Err(e) => Err(e)
    case Ok(qInv) =>
      var h := (qInv * (mp - mq)) % p;
      var m := mq + h * q;
      GarnerStep(mp, mq, p, q, qInv);
      Ok(m % (p * q))
  }

  lemma GarnerStep(mp: int, mq: int, p: int, q: int, qInv: int)
    requires p >= 2 && q >= 2 && (q * qInv) % p == 1 % p
    ensures var m := mq + ((qInv * (mp - mq)) % p) * q;
            (m % (p * q)) % p == mp % p && (m % (p * q)) % q == mq % q
  {
    var h := (qInv * (mp - mq)) % p;
    var m := mq + h * q;
    ModAddMultiple(mq, q, h);
    assert m == mq + q * h;
    ModOfModProduct(m, p, q);
    assert p * q == q * p;
    ModOfModProduct(m, q, p);
    ModSmall(1, p);
    calc {
      (h * q) % p;
      { ModMulLeft(qInv * (mp - mq), q, p); }
      (qInv * (mp - mq) * q) % p;
      { assert qInv * (mp - mq) * q == (q * qInv) * (mp - mq); }
      ((q * qInv) * (mp - mq)) % p;
      { ModMulLeft(q * qInv, mp - mq, p); }
      (((q * qInv) % p) * (mp - mq)) % p;
      (1 * (mp - mq)) % p;
      (mp - mq) % p;
    }
    calc {
      m % p;
      (mq + h * q) % p;
      { ModAddLeft(h * q, mq, p); }
      ((h * q) % p + mq) % p;
      ((mp - mq) % p + mq) % p;
      { ModAddLeft(mp - mq, mq, p); }
      mp % p;
    }
  }

  /** `rsa_decrypt_crt` as written: the exponents are reduced to
      `d mod (p-1)` and `d mod (q-1)` before `mod_pow`. */
  function RsaDecryptCrt(c: int, d: int, p: int, q: int): (r: Result<int>)
    requires p >= 2 && q >= 2
    ensures r.Err? <==> Gcd(q % p, p) != 1
    ensures r.Ok? ==> 0 <= r.value < p * q
    ensures r.Ok? ==> r.value % p == ModPowValue(c, d % (p - 1), p) % p
    ensures r.Ok? ==> r.value % q == ModPowValue(c, d % (q - 1), q) % q
  {
    var mp := ModPowValue(c, d % (p - 1), p);
    var mq := ModPowValue(c, d % (q - 1), q);
    CrtRecombine(mp, mq, p, q)
  }

  /** When the reduced exponent is positive, or the prime does not divide the
      base, `mod_pow` with the reduced exponent agrees with the full power. */
  lemma ReducedExponentAgrees(c: int, d: int, e: nat, p: nat)
    requires IsPrime(p) && d >= 1 && 0 <= e && e % (p - 1) == d % (p - 1) && e <= d
    requires e >= 1 || !Divides(p, c)
    ensures ModPowValue(c, e, p) % p == Pow(c, d) % p
  {
    var k := (d - e) / (p - 1);
    CongruentIffDividesDifference(d, e, p - 1);
    DividesWitness(p - 1, d - e);
    assert d == e + k * (p - 1);
    if e >= 1 {
      ExponentShift(c, e, k, p);
      ModIdempotent(Pow(c, e), p);
    } else {
      ModSmall(1, p);
      FermatCoprime(c, p);
      PowMul(c, p - 1, k);
      assert d == (p - 1) * k;
      PowMod(Pow(c, p - 1), k, p);
      PowOne(k);
    }
  }

  lemma ResidueAtMost(d: int, m: int)
    requires d >= 0 && m > 0
    ensures 0 <= d % m <= d && (d % m) % m == d % m
  {
    ModIdempotent(d, m);
    if d < m {
      ModSmall(d, m);
    } else {
      assert d % m < m <= d;
    }
  }

  /** Distinct primes are coprime, and each is invertible modulo the other. */
  lemma DistinctPrimesInvertible(p: nat, q: nat)
    requires IsPrime(p) && IsPrime(q) && p != q
    ensures Gcd(q % p, p) == 1 && Gcd(p, q) == 1
  {
    if p < q {
      assert !Divides(p, q);
    } else {
      ModSmall(q, p);
    }
    CoprimeToPrime(p, q);
    DistinctPrimesCoprime(p, q);
  }

  /** A value in `[0, p*q)` that agrees with `y` modulo both coprime factors
      is `y mod p*q`. */
  lemma AgreesModBoth(x: int, y: int, p: nat, q: nat)
    requires p >= 1 && q >= 1 && Gcd(p, q) == 1
    requires 0 <= x < p * q && x % p == y % p && x % q == y % q
    ensures x == y % (p * q)
  {
    ModOfModProduct(y, p, q);
    assert p * q == q * p;
    ModOfModProduct(y, q, p);
    CrtUnique(x, y % (p * q), p, q);
  }

  /** The CRT path agrees with `mod_pow(c, d, p*q)` for distinct primes,
      provided neither reduced exponent is zero on a base its prime divides. */
  lemma RsaDecryptCrtMatchesModPow(c: int, d: int, p: nat, q: nat)
    requires IsPrime(p) && IsPrime(q) && p != q && d >= 1
    requires d % (p - 1) != 0 || !Divides(p, c)
    requires d % (q - 1) != 0 || !Divides(q, c)
    ensures RsaDecryptCrt(c, d, p, q) == Ok(ModPowValue(c, d, p * q))
  {
    DistinctPrimesInvertible(p, q);
    var r := RsaDecryptCrt(c, d, p, q);
    assert r.value % p == Pow(c, d) % p by {
      ResidueAtMost(d, p - 1);
      ReducedExponentAgrees(c, d, d % (p - 1), p);
    }
    assert r.value % q == Pow(c, d) % q by {
      ResidueAtMost(d, q - 1);
      ReducedExponentAgrees(c, d, d % (q - 1), q);
    }
    AgreesModBoth(r.value, Pow(c, d), p, q);
  }

  /** The positive representative of `d` modulo `p - 1` that the corrected
      CRT path uses: in `[1, p-1]` for `d >= 1`, so never the zero exponent. */
  function ReducedExponent(d: int, p: int): (e: int)
    requires p >= 2
    ensures d >= 1 ==> 1 <= e <= d && e % (p - 1) == d % (p - 1)
    ensures d <= 0 ==> e == 0
  {
    if d >= 1 then
      var e := (d - 1) % (p - 1) + 1;
      ModAddMultiple(e, p - 1, (d - 1) / (p - 1));
      e
    else
      0
  }

  /** `rsa_decrypt_crt` with the exponent reduction corrected. */
  function RsaDecryptCrtCorrected(c: int, d: int, p: int, q: int): (r: Result<int>)
    requires p >= 2 && q >= 2
    ensures r.Err? <==> Gcd(q % p, p) != 1
    ensures r.Ok? ==> 0 <= r.value < p * q
  {
    var mp := ModPowValue(c, ReducedExponent(d, p), p);
    var mq := ModPowValue(c, ReducedExponent(d, q), q);
    CrtRecombine(mp, mq, p, q)
  }

  /** The corrected CRT path always agrees with `mod_pow(c, d, p*q)` for
      distinct primes. */
  lemma RsaDecryptCrtCorrectedMatchesModPow(c: int, d: int, p: nat, q: nat)
    requires IsPrime(p) && IsPrime(q) && p != q
    ensures RsaDecryptCrtCorrected(c, d, p, q) == Ok(ModPowValue(c, d, p * q))
  {
    DistinctPrimesInvertible(p, q);
    var r := RsaDecryptCrtCorrected(c, d, p, q).value;
    if d >= 1 {
      ReducedExponentAgrees(c, d, ReducedExponent(d, p), p);
      ReducedExponentAgrees(c, d, ReducedExponent(d, q), q);
      AgreesModBoth(r, Pow(c, d), p, q);
    } else {
      ModSmall(1, p);
      ModSmall(1, q);
      MulAtLeast(p, q);
      ModSmall(1, p * q);
      AgreesModBoth(r, 1, p, q);
    }
  }

  /** The as-written CRT path disagrees with `mod_pow` on a valid toy key:
      `p = 2, q = 5, e = d = 3` (`3*3 == 1 mod 4`) and ciphertext 4, where
      `d mod (p-1) == 0` turns `mp` into 1 although `4^3 == 0 mod 2`. */
  lemma RsaDecryptCrtCounterexample()
    ensures ModPowValue(4, 3, 10) == 4
    ensures RsaDecryptCrt(4, 3, 2, 5) == Ok(9)
    ensures RsaDecryptCrtCorrected(4, 3, 2, 5) == Ok(4)
  {
    assert Pow(4, 3) == 64;
    assert ExtendedGcd(1, 2) == (1, 1, 0);
    assert ModInverse(5, 2) == Ok(1);
  }

  /** If `e * d == 1 (mod a * b)` with `a >= 2`, then `a` cannot divide `d`:
      `e * d` is then 1 modulo `a`, not 0. */
  lemma ExponentNotMultiple(e: int, d: int, a: int, b: int)
    requires a >= 2 && b >= 1 && (e * d) % (a * b) == 1
    ensures d % a != 0
  {
    ModOfModProduct(e * d, a, b);
    assert (e * d) % a == 1;
    ModMulRight(e, d, a);
    if d % a == 0 {
      assert false;
    }
  }

  /** For a key whose primes are both odd and whose exponents satisfy
      `e * d == 1 (mod phi)`, neither reduced exponent is 0, so the
      as-written CRT path agrees with `mod_pow(c, d, n)` on every `c`:
      the discrepancy above needs a prime factor 2. */
  lemma RsaDecryptCrtValidKey(c: int, e: int, d: int, p: nat, q: nat)
    requires IsPrime(p) && IsPrime(q) && p != q && p >= 3 && q >= 3 && d >= 1
    requires (e * d) % ((p - 1) * (q - 1)) == 1
    ensures RsaDecryptCrt(c, d, p, q) == Ok(ModPowValue(c, d, p * q))
  {
    ExponentNotMultiple(e, d, p - 1, q - 1);
    assert (p - 1) * (q - 1) == (q - 1) * (p - 1);
    ExponentNotMultiple(e, d, q - 1, p - 1);
    RsaDecryptCrtMatchesModPow(c, d, p, q);
  }
}
