/** The textbook key `p = 61, q = 53, e = 17` of the RSA demo, carried
    through every path of the model: the receiver derives the same record
    when given 61, 53 and its default exponent. Also chosen examples of
    `factor_pollard_p1` and of Miller-Rabin's small cases. */
module WorkedExamples {
  import opened NumberTheory
  import opened Results
  import opened ModularArithmetic
  import opened RsaOperations
  import opened RsaReceiver
  import opened PrimalityTest
  import opened Pollard

  lemma TextbookPrimes()
    ensures IsPrime(61) && IsPrime(53)
  {
    IsPrimeSimpleCorrect(61);
    IsPrimeSimpleCorrect(53);
  }

  /** `n = 3233`, `phi = 3120`, and `mod_inverse(17, 3120) == 2753`. */
  lemma TextbookKey()
    ensures 61 * 53 == 3233 && (61 - 1) * (53 - 1) == 3120
    ensures ModInverse(17, 3120) == Ok(2753)
    ensures (17 * 2753) % 3120 == 1
  {
    ModInverseIsUnique(17, 3120, 2753);
  }

  /** The receiver derives the same record with the default exponent. */
  lemma TextbookDerivedKeys()
    ensures DeriveKeys(61, 53, None) == Ok(RsaKeys(61, 53, 3233, 17, 2753, 3120))
  {
    TextbookPrimes();
    TextbookKey();
    assert Gcd(17, 3120) == 1;
  }

  /** Encrypting 65 gives 2790. */
  lemma TextbookEncryption()
    ensures ModPowValue(65, 17, 3233) == 2790
  {
    assert Pow(65, 1) == 65;
    assert Pow(65, 2) == 4225;
    assert Pow(65, 3) == 274625;
    assert Pow(65, 4) == 17850625;
    assert Pow(65, 5) == 1160290625;
    assert Pow(65, 6) == 75418890625;
    assert Pow(65, 7) == 4902227890625;
    assert Pow(65, 8) == 318644812890625;
    assert Pow(65, 9) == 20711912837890625;
    assert Pow(65, 10) == 1346274334462890625;
    assert Pow(65, 11) == 87507831740087890625;
    assert Pow(65, 12) == 5688009063105712890625;
    assert Pow(65, 13) == 369720589101871337890625;
    assert Pow(65, 14) == 24031838291621636962890625;
    assert Pow(65, 15) == 1562069488955406402587890625;
    assert Pow(65, 16) == 101534516782101416168212890625;
    assert Pow(65, 17) == 6599743590836592050933837890625;
  }

  /** Decrypting 2790 gives 65 back. */
  lemma TextbookDecryption()
    ensures DecryptMessage(2790, 3233, 2753) == Some(65)
    ensures ModPowValue(2790, 2753, 3233) == 65
  {
    TextbookPrimes();
    TextbookEncryption();
    RoundTripOnValues(65, 61, 53, 17, 2753, 3120);
  }

  /** The CRT path agrees on the textbook ciphertext. */
  lemma TextbookCrtDecryption()
    ensures RsaDecryptCrt(2790, 2753, 61, 53) == Ok(65)
  {
    TextbookPrimes();
    TextbookDecryption();
    assert 2753 % 60 != 0 && 2753 % 52 != 0;
    RsaDecryptCrtMatchesModPow(2790, 2753, 61, 53);
  }

  /** Miller-Rabin accepts both textbook primes whatever witnesses it draws. */
  lemma TextbookPrimesPassMillerRabin(draws: nat -> nat)
    ensures MillerRabin(61, DefaultIterations, draws) && MillerRabin(53, DefaultIterations, draws)
  {
    TextbookPrimes();
    MillerRabinAcceptsPrimes(61, DefaultIterations, draws);
    MillerRabinAcceptsPrimes(53, DefaultIterations, draws);
  }

  /** Pollard's p-1 with bound 5 splits 3233: `61 - 1 = 2^2 * 3 * 5` is
      5-smooth, so `2^(5!) == 1 (mod 61)` while `53 - 1 = 2^2 * 13` is not. */
  lemma TextbookPollard()
    ensures FactorPollardP1(3233, 5) == Some(61)
  {
    assert ModExp(2, 2, 3233) == 4;
    assert ModExp(4, 3, 3233) == 64;
    assert ModExp(64, 4, 3233) == 1179;
    assert ModExp(1179, 5, 3233) == 611;
    assert MathGcd(3, 3233) == 1;
    assert MathGcd(63, 3233) == 1;
    assert MathGcd(1178, 3233) == 1;
    assert MathGcd(610, 3233) == 61;
  }

  /** The small-number cases: 101 and 2 pass, 100 and 1 fail. */
  lemma MillerRabinSmallCases(draws: nat -> nat)
    ensures MillerRabin(101, DefaultIterations, draws)
    ensures !MillerRabin(100, DefaultIterations, draws)
    ensures !MillerRabin(1, DefaultIterations, draws)
    ensures MillerRabin(2, DefaultIterations, draws)
  {
    IsPrimeSimpleCorrect(101);
    MillerRabinAcceptsPrimes(101, DefaultIterations, draws);
  }

  /** `8051 == 83 * 97`: the order of 2 modulo 97 is `48 == 2^4 * 3`, which
      divides `6! == 720`, while the order of 2 modulo 83 is `82 == 2 * 41`,
      which divides no `j!` with `j <= 10`; so bound 10 reports 97 at step 6. */
  lemma Pollard8051()
    ensures FactorPollardP1(8051, 10) == Some(97)
    ensures 8051 == 83 * 97
  {
    assert ModExp(2, 2, 8051) == 4;
    assert ModExp(4, 3, 8051) == 64;
    assert ModExp(64, 4, 8051) == 6983;
    assert ModExp(6983, 5, 8051) == 2521;
    assert ModExp(2521, 6, 8051) == 4269;
    assert MathGcd(3, 8051) == 1;
    assert MathGcd(63, 8051) == 1;
    assert MathGcd(6982, 8051) == 1;
    assert MathGcd(2520, 8051) == 1;
    assert MathGcd(4268, 8051) == 97;
  }

  /** The counterexample key of the CRT finding is one the receiver accepts:
      2 and 5 are prime, `phi == 4`, `e == 3` and `d == 3`. */
  lemma CrtCounterexampleKeyAccepted()
    ensures DeriveKeys(2, 5, Some(3)) == Ok(RsaKeys(2, 5, 10, 3, 3, 4))
  {
    IsPrimeSimpleCorrect(2);
    IsPrimeSimpleCorrect(5);
    assert Gcd(3, 4) == 1;
    ModInverseIsUnique(3, 4, 3);
  }
}
