/** The receiver's side of the RSA exchange: trial-division primality, the
    validation chain that derives a key record from `(p, q, e)`, the random
    choice of two distinct small primes, and range-checked decryption. */
module RsaReceiver {
  import opened NumberTheory
  import opened Results
  import opened ModularArithmetic
  import opened PrimeFacts

  /** The exponent used when none is entered. */
  const DefaultE: int := 17

  /** The primes the random branch chooses from. */
  const SmallPrimes: seq<int> := [11, 13, 17, 19, 23, 29, 31, 37, 41, 43, 47, 53, 59, 61, 67, 71, 73, 79, 83, 89, 97]

  // ---------------------------------------------------------------------
  // Trial division
  // ---------------------------------------------------------------------

  /** The trial-division loop from odd candidate `i`: no candidate with
      `i*i <= n` divides `n`. */
  function TrialDivision(n: int, i: int): bool
    requires i >= 1
    decreases n - i
  {
    if i * i <= n then
      MulAtLeast(i, i);
      if n % i == 0 then false else TrialDivision(n, i + 2)
    else
      true
  }

  /** `is_prime_simple(n)`. */
  function IsPrimeSimple(n: int): bool {
    if n < 2 then false
    else if n == 2 then true
    else if n % 2 == 0 then false
    else TrialDivision(n, 3)
  }

  lemma EvenDoesNotDivideOdd(k: nat, n: int)
    requires k % 2 == 0 && n % 2 == 1
    ensures !Divides(k, n)
  {
    if Divides(k, n) {
      DividesByWitness(2, k, k / 2);
      DividesTransitive(2, k, n);
    }
  }

  /** From odd candidate `i`, the loop succeeds exactly when no candidate
      `k >= i` with `k*k <= n` divides the odd number `n`. */
  lemma {:induction false} TrialDivisionMeaning(n: int, i: int)
    requires n % 2 == 1 && i >= 1 && i % 2 == 1
    ensures TrialDivision(n, i) <==> forall k: nat :: i <= k && k * k <= n ==> !Divides(k, n)
    decreases n - i
  {
    if i * i <= n {
      MulAtLeast(i, i);
      if n % i != 0 {
        TrialDivisionMeaning(n, i + 2);
        EvenDoesNotDivideOdd(i + 1, n);
        assert !Divides(i, n);
      } else {
        assert Divides(i, n);
      }
    } else {
      forall k: nat | i <= k
        ensures k * k > n
      {
        MulMonotone(i, k);
      }
    }
  }

  /** A divisor of `n` in `[2, n)` yields one with `j*j <= n`: the smaller
      of it and its cofactor. */
  lemma SmallDivisor(k: nat, n: int) returns (j: nat)
    requires 2 <= k < n && Divides(k, n)
    ensures 2 <= j && j * j <= n && Divides(j, n)
  {
    var c := n / k;
    DividesWitness(k, n);
    assert n == k * c;
    if k * k <= n {
      j := k;
    } else {
      CofactorBelow(k, c, n);
      DividesByWitness(c, n, k);
      j := c;
    }
  }

  /** The cofactor of a divisor `k` with `k*k > n` is itself at least 2,
      below `k`, and has its square at most `n`. */
  lemma CofactorBelow(k: nat, c: int, n: int)
    requires 2 <= k < n && n == k * c && n < k * k
    ensures 2 <= c < k && c * c <= n
  {
    assert k * (c - 1) == n - k;
    assert k * (k - c) == k * k - n;
    assert c * (k - c) >= 0;
  }

  /** `is_prime_simple` decides primality exactly. */
  lemma IsPrimeSimpleCorrect(n: int)
    ensures IsPrimeSimple(n) <==> IsPrime(n)
  {
    if n == 2 {
      assert IsPrime(2);
    } else if n >= 2 && n % 2 == 0 {
      DividesByWitness(2, n, n / 2);
    } else if n >= 3 {
      TrialDivisionMeaning(n, 3);
      if IsPrime(n) {
        forall k: nat | 3 <= k && k * k <= n
          ensures !Divides(k, n)
        {
          MulAtLeast(k, k - 1);
        }
      }
      if TrialDivision(n, 3) && !IsPrime(n) {
        var k: nat :| 2 <= k < n && Divides(k, n);
        var j := SmallDivisor(k, n);
        assert false;
      }
    }
  }

  // ---------------------------------------------------------------------
  // Key derivation
  // ---------------------------------------------------------------------

  /** The record `generate_keys` returns. */
  datatype RsaKeys = RsaKeys(p: int, q: int, n: int, e: int, d: int, phi: int)

  /** The public exponent: the entered one, or 17 when none is entered. */
  function ChosenExponent(entered: Option<int>): int {
    match entered
    case None => DefaultE
    case Some(e) => e
  }

  /** The validation and derivation of `generate_keys` as a function of
      `(p, q, e)`: primality of each factor, distinctness, `2 <= e < phi`,
      coprimality of `e` and `phi`, then `d = e^-1 mod phi`. */
  function DeriveKeys(p: int, q: int, entered: Option<int>): (r: Result<RsaKeys>)
    ensures r.Err? && r.error == NotPrime <==> !IsPrime(p) || !IsPrime(q)
    ensures IsPrime(p) && IsPrime(q) && p == q ==> r == Err(EqualFactors)
    ensures IsPrime(p) && IsPrime(q) && p != q ==>
              var e := ChosenExponent(entered);
              var phi := (p - 1) * (q - 1);
              (r.Err? <==> e < 2 || e >= phi || Gcd(e, phi) != 1)
              && (r.Err? ==> r.error == InvalidExponent)
    ensures r.Ok? ==> && IsPrime(p) && IsPrime(q) && p != q
                      && r.value.p == p && r.value.q == q
                      && r.value.n == p * q && r.value.phi == (p - 1) * (q - 1)
                      && r.value.e == ChosenExponent(entered)
                      && 2 <= r.value.e < r.value.phi
                      && 0 <= r.value.d < r.value.phi
                      && (r.value.e * r.value.d) % r.value.phi == 1
  {
    IsPrimeSimpleCorrect(p);
    IsPrimeSimpleCorrect(q);
    if !IsPrimeSimple(p) then Err(NotPrime)
    else if !IsPrimeSimple(q) then Err(NotPrime)
    else if p == q then Err(EqualFactors)
    else
      var n := p * q;
      var phi := (p - 1) * (q - 1);
      var e := ChosenExponent(entered);
      if e < 2 then Err(InvalidExponent)
      else if e >= phi then Err(InvalidExponent)
      else if Gcd(e, phi) != 1 then Err(InvalidExponent)
      else
        ModSmall(e, phi);
        ModSmall(1, phi);
        match ModInverse(e, phi)
        case Err(err) => Err(err)
        case Ok(d) => Ok(RsaKeys(p, q, n, e, d, phi))
  }

  /** The `mod_inverse` failure branch of `generate_keys` cannot be taken:
      the gcd check before it already rules it out. */
  lemma DeriveKeysNeverLacksInverse(p: int, q: int, entered: Option<int>)
    ensures DeriveKeys(p, q, entered).Err? ==> DeriveKeys(p, q, entered).error != NoInverse
  {
    IsPrimeSimpleCorrect(p);
    IsPrimeSimpleCorrect(q);
  }

  // ---------------------------------------------------------------------
  // The random branch
  // ---------------------------------------------------------------------

  lemma SmallPrimesArePrime()
    ensures forall i :: 0 <= i < |SmallPrimes| ==> IsPrime(SmallPrimes[i])
  {
    forall i | 0 <= i < |SmallPrimes|
      ensures IsPrime(SmallPrimes[i])
    {
      IsPrimeSimpleCorrect(SmallPrimes[i]);
    }
  }

  /** The elements of `s` other than `x`, in order. */
  function Without(s: seq<int>, x: int): (r: seq<int>)
    ensures forall i :: 0 <= i < |r| ==> r[i] != x && r[i] in s
    ensures forall y :: y in s && y != x ==> y in r
  {
    if |s| == 0 then []
    else if s[0] == x then Without(s[1..], x)
    else [s[0]] + Without(s[1..], x)
  }

  /** `p = choice(SMALL_PRIMES)` and `q = choice([x for x in SMALL_PRIMES
      if x != p])`, with the two choices given as raw draws. */
  function RandomPrimes(pDraw: nat, qDraw: nat): (r: (int, int))
    ensures r.0 in SmallPrimes && r.1 in SmallPrimes && r.0 != r.1
  {
    var p := SmallPrimes[pDraw % |SmallPrimes|];
    var others := Without(SmallPrimes, p);
    assert 11 in SmallPrimes && 13 in SmallPrimes;
    assert |others| > 0 by {
      if p == 11 { assert 13 in others; } else { assert 11 in others; }
    }
    (p, others[qDraw % |others|])
  }

  lemma SmallPrimesFacts()
    ensures forall x :: x in SmallPrimes ==> x >= 11 && (x - 1) % 17 != 0
  {
  }

  /** Two distinct primes of at least 11, neither one more than a multiple
      of 17, accept the default exponent: `phi >= 100 > 17`, and 17 divides
      neither factor of `phi`. */
  lemma DefaultExponentAccepted(p: int, q: int)
    requires IsPrime(p) && IsPrime(q) && p != q && p >= 11 && q >= 11
    requires !Divides(17, p - 1) && !Divides(17, q - 1)
    ensures DeriveKeys(p, q, None).Ok?
  {
    var phi := (p - 1) * (q - 1);
    PhiAtLeast(p - 1, q - 1);
    SeventeenCoprime(p - 1, q - 1);
  }

  lemma PhiAtLeast(a: int, b: int)
    requires a >= 10 && b >= 10
    ensures a * b >= 100
  {
    MulAtLeast(a, b - 9);
    assert a * b >= a * 10;
  }

  lemma SeventeenIsPrime()
    ensures IsPrime(17)
  {
    IsPrimeSimpleCorrect(17);
  }

  /** 17 is coprime to a product of two numbers it does not divide. */
  lemma SeventeenCoprime(a: int, b: int)
    requires a >= 1 && b >= 1 && !Divides(17, a) && !Divides(17, b)
    ensures Gcd(17, a * b) == 1
  {
    SeventeenIsPrime();
    assert !Divides(17, a * b) by {
      if Divides(17, a * b) {
        EuclidLemma(17, a, b);
      }
    }
    CoprimeToPrime(17, a * b);
    GcdOfRemainder(a * b, 17);
    GcdCommutes(a * b, 17);
  }

  /** The random branch never fails: any two distinct primes of the list
      give a key with the default exponent. */
  lemma RandomBranchSucceeds(pDraw: nat, qDraw: nat)
    ensures var (p, q) := RandomPrimes(pDraw, qDraw);
            DeriveKeys(p, q, None).Ok?
  {
    var (p, q) := RandomPrimes(pDraw, qDraw);
    SmallPrimesArePrime();
    SmallPrimesFacts();
    DefaultExponentAccepted(p, q);
  }

  // ---------------------------------------------------------------------
  // Decryption
  // ---------------------------------------------------------------------

  /** `decrypt_message(c, n, d)`: nothing for a ciphertext outside `[0, n)`,
      otherwise `mod_pow(c, d, n)`. */
  function DecryptMessage(c: int, n: int, d: int): (r: Option<int>)
    ensures r.None? <==> c < 0 || c >= n
    ensures r.Some? && d >= 1 ==> 0 <= r.value < n && r.value == Pow(c, d) % n
  {
    if c < 0 || c >= n then None else Some(ModPowValue(c, d, n))
  }

  /** `e * d == 1 + t * (q-1) * (p-1)` for some `t >= 0`. */
  lemma ExponentProduct(p: int, q: int, e: int, d: int, phi: int) returns (t: nat)
    requires phi >= 3 && e >= 2 && d >= 0 && (e * d) % phi == 1
    requires phi == (p - 1) * (q - 1)
    ensures e * d == 1 + (t * (q - 1)) * (p - 1)
  {
    t := (e * d) / phi;
    assert e * d == phi * t + 1;
    assert phi * t == (t * (q - 1)) * (p - 1);
  }

  /** `(m^e mod n)^d mod n == m^(e*d) mod n`. */
  lemma PowOfResidue(m: int, e: nat, d: nat, n: int)
    requires n >= 1
    ensures Pow(Pow(m, e) % n, d) % n == Pow(m, e * d) % n
  {
    PowMod(Pow(m, e), d, n);
    PowMul(m, e, d);
  }

  /** Fermat's little theorem in the form RSA needs:
      `m^(1 + k(p-1)) == m (mod p)`. */
  lemma FermatShift(m: int, p: nat, k: nat, ed: nat)
    requires IsPrime(p) && ed == 1 + k * (p - 1)
    ensures Pow(m, ed) % p == m % p
  {
    ExponentShift(m, 1, k, p);
    assert Pow(m, 1) == m;
  }

  lemma Rearrange(t: int, a: int, b: int)
    ensures (t * a) * b == (t * b) * a
  {
  }

  /** Euler's theorem for two distinct primes, in the form RSA needs:
      `m^(1 + t(p-1)(q-1)) == m (mod pq)` for every residue `m`. */
  lemma RsaExponentIdentity(m: int, p: nat, q: nat, t: nat, ed: nat)
    requires IsPrime(p) && IsPrime(q) && p != q && 0 <= m < p * q
    requires ed == 1 + (t * (q - 1)) * (p - 1)
    ensures Pow(m, ed) % (p * q) == m
  {
    FermatShift(m, p, t * (q - 1), ed);
    Rearrange(t, q - 1, p - 1);
    FermatShift(m, q, t * (p - 1), ed);
    DistinctPrimesCoprime(p, q);
    CoprimeModuliCongruence(Pow(m, ed), m, p, q);
    ModSmall(m, p * q);
  }

  /** RSA correctness on the values of a key record. */
  lemma RoundTripOnValues(m: int, p: nat, q: nat, e: int, d: int, phi: int)
    requires IsPrime(p) && IsPrime(q) && p != q && phi == (p - 1) * (q - 1)
    requires 2 <= e < phi && 0 <= d < phi && (e * d) % phi == 1
    requires 0 <= m < p * q
    ensures DecryptMessage(ModPowValue(m, e, p * q), p * q, d) == Some(m)
  {
    assert d >= 1;
    var t := ExponentProduct(p, q, e, d, phi);
    PowOfResidue(m, e, d, p * q);
    RsaExponentIdentity(m, p, q, t, e * d);
  }

  /** RSA correctness for the derived keys: decrypting `m^e mod n` gives
      back every message in `[0, n)`. */
  lemma RsaRoundTrip(p: int, q: int, entered: Option<int>, m: int)
    requires DeriveKeys(p, q, entered).Ok?
    requires 0 <= m < DeriveKeys(p, q, entered).value.n
    ensures var k := DeriveKeys(p, q, entered).value;
            DecryptMessage(ModPowValue(m, k.e, k.n), k.n, k.d) == Some(m)
  {
    var k := DeriveKeys(p, q, entered).value;
    RoundTripOnValues(m, p, q, k.e, k.d, k.phi);
  }
}
