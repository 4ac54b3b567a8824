# Toy public-key cryptography, modelled in Dafny

A model of a small teaching repository of public-key primitives. It covers
the number-theory kernel (`gcd`, extended Euclid, modular inverse,
square-and-multiply `mod_pow`, Euler's totient, two-modulus CRT) and RSA
decryption through the Chinese Remainder Theorem. It also covers the
Blum-Blum-Shub pseudo-random bit generator with its Miller-Rabin test, Blum
prime search and key generation, and Pollard's p-1 factoring. On the
ElGamal side it models key generation, encryption and decryption, the
receiving script and the brute-force private-key search. Last come the
receiver side of the interactive RSA program: trial-division primality, key
derivation and decryption.

Every operation is a pure function over unbounded integers. Each comes with
a partner property: the inverse it undoes, the reference definition it
agrees with, or the invariant it keeps.

Modules, one per file:

- `Results`: `Option`, `Result` and the error kinds the Python code raises
  or returns.
- `NumberTheory`: divisibility, primality, powers, gcd, and the modular
  arithmetic lemmas everything else uses.
- `PrimeFacts`: Bezout consequences, Euclid's lemma, Fermat's little
  theorem (proved through the binomial theorem), the square roots of 1
  modulo a prime, and CRT uniqueness.
- `ModularArithmetic`: the kernel of `rsa_operations.py`.
- `RsaOperations`: Euler's totient on primes and semiprimes, and
  `rsa_decrypt_crt` as written and corrected.
- `Bits`: Python's `|`, `bit_length`, and big-endian `int.from_bytes` /
  `int.to_bytes`.
- `PrimalityTest`: `miller_rabin`.
- `BlumBlumShub`: the generator, Blum primes, prime assembly from BBS bits,
  and key generation.
- `SearchLoop`: the capped retry loop of `random_prime_from_bbs`, stated
  over any pass function, with its meaning: the first pass that keeps a
  value, run from the state the passes before it leave.
- `Pollard`: `factor_pollard_p1`.
- `ElGamal`: the three ElGamal scripts.
- `RsaReceiver`: `rsa_b.py`.
- `WorkedExamples`: the RSA demo's concrete numbers (the textbook key
  `p = 61, q = 53, e = 17` and ciphertext 2790 for message 65), the record
  the receiver derives when given 61, 53 and its default exponent, and
  chosen examples of `factor_pollard_p1` on 3233 and 8051.

**Randomness.** Each random draw is a parameter. It is a raw `nat`, reduced
into the range the source asks for:

- `randbelow(k)` is `u % k`.
- `randint(2, n - 2)` is `2 + u % (n - 3)`.
- `getrandbits(b)` is `u % 2^b`.
- `randrange(2, n - 1)` is `2 + u % (n - 3)`.
- `secrets.choice` indexes the list modulo its length.

A stream of draws is a function from attempt number to draw. Python's
unbounded retry loops become searches capped at `maxAttempts`, which give
`Err(Exhausted)` when the cap is reached.

**Arithmetic.**

- Python's `%` and `//` by a positive divisor agree with Dafny's Euclidean
  operators.
- Three-argument `pow` is `ModExp` for non-negative exponents. For negative
  ones it is `BuiltinPow`, an inverse power that fails when the base is not
  invertible.
- `mod_pow` is `ModPowValue`. It returns the unreduced `1` when the exponent
  is `<= 0`.
- The generator's `pow(x, 2, n)` is `Square`, `x * x % n`.

## Model

| member | source | states |
|---|---|---|
| ModularArithmetic.EuclidGcd | rsa_operations.py:11-15 | the loop returns the greatest common divisor: a common divisor of both inputs that every common divisor divides |
| ModularArithmetic.ExtendedGcd | rsa_operations.py:18-25 | the first component is the gcd and the other two are Bezout coefficients, `a*x + b*y == g` |
| ModularArithmetic.ModInverse | rsa_operations.py:28-33 | fails exactly when `gcd(a mod m, m) != 1`; otherwise returns a residue below `m` whose product with `a` is 1 modulo `m` |
| ModularArithmetic.ModInverseIsUnique | rsa_operations.py:28-33 | any residue that inverts `a` modulo `m` is the one `mod_inverse` returns |
| ModularArithmetic.ModPowVersusBuiltin | rsa_operations.py:36-45 | for exponents `e >= 0`, `mod_pow` agrees with Python's `pow(b, e, m)` except for the unreduced 1 at exponent 0 modulo 1 |
| ModularArithmetic.ModPow | rsa_operations.py:36-45 | the square-and-multiply loop computes `base^exponent mod modulus` (and 1 for exponents `<= 0`), in range for positive exponents |
| ModularArithmetic.ChineseRemainder | rsa_operations.py:63-73 | fails exactly when the moduli share a factor; otherwise returns the residue below `m1*m2` congruent to `a1` mod `m1` and `a2` mod `m2` |
| ModularArithmetic.CrtSolves | rsa_operations.py:68-73 | the combination `a1*m2*y + a2*m1*x` built from Bezout coefficients solves both congruences |
| RsaOperations.TotientOfPrime | rsa_operations.py:48-60 | `euler_totient(p) == p - 1` for every prime `p` |
| RsaOperations.TotientOfSemiprime | rsa_operations.py:48-60 | `euler_totient(p*q) == (p-1)*(q-1)` for distinct primes |
| RsaOperations.CrtRecombine | rsa_operations.py:209-214 | Garner's recombination fails exactly when `q` is not invertible mod `p`; otherwise its result is below `n` and reduces to `mp` mod `p` and `mq` mod `q` |
| RsaOperations.RsaDecryptCrt | rsa_operations.py:198-214 | the CRT result is below `n` and agrees mod `p` (resp. `q`) with `mod_pow` of the reduced exponent `d mod (p-1)` (resp. `d mod (q-1)`) |
| RsaOperations.RsaDecryptCrtMatchesModPow | rsa_operations.py:198-214 | for distinct primes and `d >= 1`, CRT decryption equals `mod_pow(c, d, n)` whenever each reduced exponent is nonzero or the prime does not divide `c` |
| RsaOperations.RsaDecryptCrtValidKey | rsa_operations.py:198-214 | for odd distinct primes and `e*d == 1 mod phi`, CRT decryption equals `mod_pow(c, d, n)` for every ciphertext |
| RsaOperations.RsaDecryptCrtCounterexample | rsa_operations.py:203-207 | on key `p = 2, q = 5, d = 3` and ciphertext 4, the as-written CRT path gives 9 while `mod_pow` gives 4 |
| RsaOperations.ReducedExponent | rsa_operations.py:203-204 | the corrected reduced exponent is congruent to `d` modulo `p - 1`, at least 1 and at most `d` |
| RsaOperations.RsaDecryptCrtCorrected | rsa_operations.py:198-214 | the corrected CRT path fails only when `q` is not invertible mod `p` and stays below `n` |
| RsaOperations.RsaDecryptCrtCorrectedMatchesModPow | rsa_operations.py:198-214 | for distinct primes the corrected CRT path equals `mod_pow(c, d, n)` for every `c` and `d` |
| PrimalityTest.Halve | blum_blum_shub.py:33-38 | the halving loop ends with an odd `d` and `2^r * d` equal to the starting value |
| PrimalityTest.MillerRabin | blum_blum_shub.py:23-54 | rejects `n <= 1` and multiples of 2 or 3 above 3, accepts 2 and 3, and otherwise accepts exactly when every drawn witness passes |
| PrimalityTest.SquaresReachPrime | blum_blum_shub.py:47-52 | modulo a prime, a value other than `1` and `n - 1` whose `2^k`-th power is 1 reaches `n - 1` within `k - 1` squarings |
| PrimalityTest.PrimePassesRound | blum_blum_shub.py:41-52 | every witness in `[2, n-2]` passes a round for a prime `n` |
| PrimalityTest.MillerRabinAcceptsPrimes | blum_blum_shub.py:23-54 | Miller-Rabin never rejects a prime, whatever witnesses it draws |
| BlumBlumShub.BlumCandidate | blum_blum_shub.py:67-69 | the candidate is 3 mod 4 and has bit `bit_length - 1` set; for `bit_length >= 2` it has exactly `bit_length` bits (for 1 it is 3) |
| BlumBlumShub.BlumCandidateShape | blum_blum_shub.py:68-71 | setting the top bit and the low two bits of a `bit_length`-bit draw gives a value that is 3 mod 4, so the `!= 3` retry never fires |
| BlumBlumShub.BlumSearch | blum_blum_shub.py:62-78 | the search fails only when no attempt below the cap is accepted; otherwise it returns the candidate of the first accepted attempt |
| BlumBlumShub.GenerateBlumPrime | blum_blum_shub.py:60-78 | rejects bit lengths below 1; a result is 3 mod 4, has bit `bit_length - 1` set (exactly `bit_length` bits when that is at least 2), and passed Miller-Rabin |
| BlumBlumShub.GenerateBlumPrimeFindsPrime | blum_blum_shub.py:74-76 | if some attempt below the cap draws a prime candidate, the search succeeds |
| BlumBlumShub.Square | blum_blum_shub.py:99 | `pow(x, 2, n)` is a residue below `n` |
| BlumBlumShub.SquareIsPow | blum_blum_shub.py:99 | `pow(x, 2, n)` is `x^(2^1) mod n` |
| BlumBlumShub.NextBits | blum_blum_shub.py:83-109 | fails exactly on an invalid state: `AssertionFailed` when `p` or `q` is not 3 mod 4, the seed error when the seed shares a factor with `n`; otherwise emits `max(iterations, 0)` bits, keeps `p` and `q`, and leaves a valid state |
| BlumBlumShub.NextBitsSquares | blum_blum_shub.py:99-108 | from a valid state, bit `i` is the parity of `seed^(2^(i+2)) mod n` and the new seed is `seed^(2^(k+1)) mod n` for `k` emitted bits |
| BlumBlumShub.NextBitsSeed | blum_blum_shub.py:99-108 | from a valid state the call succeeds and leaves the seed squared once more than the number of bits it emitted |
| BlumBlumShub.ZeroBitsAdvance | blum_blum_shub.py:99-108 | a call for zero bits still squares the seed once |
| BlumBlumShub.NextBitsSkipsOneState | blum_blum_shub.py:99-108 | a call for `a` bits followed by one for `b` bits equals one call for `a + 1 + b` bits with bit `a` dropped |
| BlumBlumShub.FillBitsTestBit | blum_blum_shub.py:126-127 | after the fill loop, bit `j` is set exactly when it was set before or `bits[j]` is 1 for `j` in the filled range |
| BlumBlumShub.AssembleValue | blum_blum_shub.py:122-129 | the assembled value is odd, has exactly `bit_length` bits, and its middle bits are the generator's bits |
| BlumBlumShub.AssembleIgnoresLastBit | blum_blum_shub.py:126-127 | the last generated bit never influences the value |
| BlumBlumShub.Attempt | blum_blum_shub.py:121-136 | one pass fails exactly on an invalid state or a bit length below 1; otherwise it advances the generator exactly as `blum_blum_shub(bit_length)` does and keeps the candidate assembled from the drawn bits exactly when the filter accepts it |
| BlumBlumShub.Attempts | blum_blum_shub.py:121-136 | pass `j` is one pass with attempt `j`'s filter; for bit lengths of at least 1, every pass from a valid state succeeds and leads to a valid state |
| BlumBlumShub.RandomPrimeFromBbs | blum_blum_shub.py:114-138 | with attempts left, fails with the generator's error on an invalid state and with `InvalidParameter` for a bit length below 1, and otherwise only by exhaustion; a returned value is odd, exactly `bit_length` bits long with the top bit set, free of the small primes, passed Miller-Rabin with one attempt's witnesses, and leaves a valid state |
| BlumBlumShub.KeptCandidate | blum_blum_shub.py:123-129 | a kept candidate is odd, has bit `bit_length - 1` set and exactly `bit_length` bits, and passed its filter |
| BlumBlumShub.OutcomeKept | blum_blum_shub.py:121-136 | the loop's report for a keeping pass `k` is that pass's candidate, accepted by filter `i + k`, with a valid next state |
| BlumBlumShub.SearchKeeps | blum_blum_shub.py:121-136 | from a valid state the loop is either exhausted or returns an odd `bit_length`-bit candidate that the filter of one of its passes accepted |
| BlumBlumShub.FiltersPassed | blum_blum_shub.py:132-136 | a value some pass's filter accepted has no small prime factor and passed Miller-Rabin with that pass's witnesses |
| BlumBlumShub.StateAt | blum_blum_shub.py:104-108 | the generator state after any number of passes is valid |
| BlumBlumShub.StateAtSeed | blum_blum_shub.py:99-108 | after `k` passes of `bit_length` bits the seed is `seed^(2^(k*(bit_length+1))) mod n`, with `p` and `q` unchanged |
| BlumBlumShub.SquaringsCompose | blum_blum_shub.py:99-104 | `b` further squarings of `seed^(2^a) mod n` give `seed^(2^(a+b)) mod n` |
| BlumBlumShub.AttemptFromStateAt | blum_blum_shub.py:121-136 | pass `k` runs from the generator state after `k` passes, and keeps the candidate assembled from that state's bits exactly when its filter accepts it |
| BlumBlumShub.RandomPrimeFromBbsFirstAccepting | blum_blum_shub.py:114-138 | `random_prime_from_bbs` returns the candidate of the first pass that has no small factor and passes Miller-Rabin, with the generator state after that pass; it is exhausted exactly when no pass below the cap accepts |
| SearchLoop.FirstTrueMeaning | blum_blum_shub.py:121-136 | the first accepting pass: nothing exactly when no pass in range accepts, otherwise the least pass that does |
| SearchLoop.After | blum_blum_shub.py:121-122 | the state threaded through the loop stays in the invariant every pass preserves |
| SearchLoop.ResumeStep | blum_blum_shub.py:121-136 | one pass of the loop either returns what it keeps, with the state after it, or resumes at the next pass from the state it leaves |
| SearchLoop.LoopResumed | blum_blum_shub.py:121-136 | the loop resumed after `m` passes reports the first keeping pass from `m` on, with the state after it |
| SearchLoop.LoopFindsFirst | blum_blum_shub.py:121-136 | the capped loop returns the value of the first pass that keeps one, with the state after that pass, and `Exhausted` when no pass below the cap keeps one |
| BlumBlumShub.GenerateCall | blum_blum_shub.py:149-150 | a call of `generate_blum_prime` returns a number that is 3 mod 4, or fails with `InvalidParameter` for a bit length below 1 and with `Exhausted` otherwise |
| BlumBlumShub.Calls | blum_blum_shub.py:150-153 | every call of the sequence returns a number that is 3 mod 4 or fails with the kind fixed by the bit length |
| BlumBlumShub.DistinctQ | blum_blum_shub.py:152-153 | the redrawn `q` differs from `p`; a failure other than exhaustion is the failure of one of the later calls |
| BlumBlumShub.DistinctQFirst | blum_blum_shub.py:152-153 | the redraw returns the outcome of the first later call whose result is not `p`, and `Exhausted` when there is none |
| BlumBlumShub.DistinctQFinds | blum_blum_shub.py:152-153 | a redrawn `q` is the result of a call preceded only by calls returning `p`; when every call returns `p` the redraw is exhausted; otherwise it fails only as a call fails |
| BlumBlumShub.DistinctQBlum | blum_blum_shub.py:150-153 | the `q` of key generation is a Blum number other than `p` from the first call that differs from `p`; it fails with `InvalidParameter` for `q_bits < 1` and otherwise only by exhaustion, which every call returning `p` forces |
| BlumBlumShub.QSearch | blum_blum_shub.py:150-153 | as `DistinctQBlum`, stated of the `q` that key generation uses |
| BlumBlumShub.SeedSearch | blum_blum_shub.py:158-161 | fails exactly when no draw below the cap is coprime to `n`; otherwise returns the first coprime draw, which lies in `[2, n-2]` |
| BlumBlumShub.KeysFromPrimes | blum_blum_shub.py:155-164 | fails exactly when no seed draw below the cap is coprime to `p*q`; otherwise `n = p*q`, `x0` is the square mod `n` of the first coprime draw, and the generator state is valid |
| BlumBlumShub.SeedSquareIsValid | blum_blum_shub.py:163 | the square of a seed coprime to `n = p*q` is a valid starting state |
| BlumBlumShub.PBits | blum_blum_shub.py:146 | `p_bits` is the floor of half the bit size: `2*p_bits <= bitSize < 2*p_bits + 2` |
| BlumBlumShub.QBits | blum_blum_shub.py:147 | the halves add up to the bit size, and `q_bits` is `p_bits`, or `p_bits + 1` exactly when the size is odd |
| BlumBlumShub.BbsKeygen | blum_blum_shub.py:144-164 | rejects sizes below 2; is exhausted exactly when the call for `p`, the redraw of `q` or the seed search runs out; otherwise `p` is the first call's result, `q` the first later result differing from `p`, both 3 mod 4, `n = p*q`, `x0` the square of the first coprime seed draw, and the initial state is valid |
| Pollard.PollardLoop | pollard_rho.py:7-15 | any factor the loop reports is a nontrivial divisor of `n` |
| Pollard.FactorPollardP1 | pollard_rho.py:4-15 | reports nothing for `B < 2`; any reported value is a nontrivial divisor of `n`, so a negative `n` gets nothing |
| Pollard.StepAdvance | pollard_rho.py:8-9 | raising `2^((j-1)!)` to the `j`-th power gives `2^(j!)` modulo `n` |
| Pollard.FirstHitNone | pollard_rho.py:7-14 | the reference search finds nothing exactly when no `j` in range has a nontrivial gcd |
| Pollard.FirstHitLeast | pollard_rho.py:7-14 | what the reference search finds is the least `j` in range whose gcd is nontrivial |
| Pollard.PollardLoopFirstHit | pollard_rho.py:7-14 | the loop reports `gcd(2^(j!) mod n - 1, n)` at the first nontrivial step, and nothing when there is none |
| Pollard.PollardFirstHit | pollard_rho.py:4-15 | `factor_pollard_p1` reports the gcd at the first `j` in `[2, B]` where it is nontrivial, and `None` exactly when no such `j` exists |
| Pollard.ZeroValueReportsNothing | pollard_rho.py:7-14 | a step whose new running value is 0 reports nothing (`gcd(-1, n) == 1`) and the loop carries on from 0 at the next step |
| ElGamal.BuiltinPow | elgamal_decrypt.py:30 | Python's `pow(b, e, m)` is the ordinary power for `e >= 0`; for `e < 0` it fails exactly when `b` is not invertible, and otherwise returns the inverse of `b^-e` |
| ElGamal.Keygen | elgamal_sending_project.py:34-46 | fails exactly when `p <= 2` or `g` is outside `(1, p)`; otherwise both keys carry `p` and `g`, `x` lies in `[1, p-2]`, and `y = g^x mod p` |
| ElGamal.Encrypt | elgamal_sending_project.py:49-57 | fails exactly when `m` is outside `(0, p)` (range error) or `p <= 2`; otherwise the ciphertext is `(g^k, m*y^k) mod p` for some `k` in `[1, p-2]` |
| ElGamal.Decrypt | elgamal_sending_project.py:60-66 | fails exactly when the shared secret is not invertible mod `p`; a result is below `p` and times the secret gives back `c2` mod `p` |
| ElGamal.DecryptInverts | elgamal_sending_project.py:49-66 | decrypting an encryption under a matching key gives the message modulo `p`, for every ephemeral `k` |
| ElGamal.ElGamalRoundTrip | elgamal_sending_project.py:34-66 | for a prime `p`, any message in `(0, p)` encrypted under a generated key decrypts to itself |
| ElGamal.AliceElGamal | elgamal_sending_project.py:81-86 | Alice's encryption is `elgamal_encrypt` without the range check; it fails only when `p <= 2` |
| ElGamal.AliceDecryptsToResidue | elgamal_sending_project.py:81-86 | Alice's ciphertext for any integer `m` decrypts to `m mod p` |
| ElGamal.ReceiverModInverse | elgamal_receiving_project.py:13-22 | the receiving script's `modinv` computes the same function as `mod_inverse` |
| ElGamal.ReceiveAndDecryptInteger | elgamal_receiving_project.py:31-71 | the receiving script decrypts exactly as the sending script's `elgamal_decrypt` |
| ElGamal.SearchKey | elgamal_decrypt.py:92-96 | the scan returns the least exponent in range with `g^e mod p == y`, and nothing exactly when there is none |
| ElGamal.FindPrivateKey | elgamal_decrypt.py:87-96 | gives up when `p > max_attempts`; otherwise returns the least `e` in `[1, p)` with `g^e mod p == y`, and `None` exactly when there is none |
| ElGamal.EquivalentKeyDecrypts | elgamal_decrypt.py:27-33 | any exponent with the same public value decrypts like the true private key |
| ElGamal.RecoveredKeyDecrypts | elgamal_decrypt.py:87-96 | for a prime `p <= max_attempts` the key search succeeds, finds an exponent no larger than the true one, and that exponent decrypts every encryption |
| ElGamal.EncodeMessage | elgamal_decrypt.py:36-37 | the big-endian integer of a byte string of length `L` is below `2^(8L)` |
| ElGamal.DecodeMessage | elgamal_decrypt.py:40-43 | decoding uses `(bit_length + 7) // 8` bytes and re-encodes to the same integer |
| ElGamal.DecodeEncodeMessage | elgamal_sending_project.py:68-79 | a byte string without a leading zero byte survives encoding then decoding |
| ElGamal.DecryptMessage | elgamal_decrypt.py:61-84 | the string path succeeds exactly when integer decryption does, and its bytes encode the decrypted integer |
| ElGamal.MessageRoundTrip | elgamal_sending_project.py:49-79 | a nonempty byte string without a leading zero whose integer is below a prime `p` is recovered by encrypt, decrypt and decode |
| Bits.IntToBytesRoundTrip | elgamal_sending_project.py:76-79 | `int.from_bytes(n.to_bytes(...))` gives back `n` |
| Bits.BytesRoundTrip | elgamal_sending_project.py:68-79 | `to_bytes(from_bytes(s))` gives back `s` when `s` has no leading zero byte |
| RsaReceiver.TrialDivisionMeaning | rsa_b.py:41-46 | the odd trial-division loop from `i` succeeds exactly when no `k >= i` with `k*k <= n` divides `n` |
| RsaReceiver.IsPrimeSimpleCorrect | rsa_b.py:33-46 | `is_prime_simple(n)` holds exactly when `n` is prime |
| RsaReceiver.DeriveKeys | rsa_b.py:56-133 | rejects non-primes, equal primes, and an `e` outside `[2, phi)` or sharing a factor with `phi`; otherwise returns `n = p*q`, `phi = (p-1)(q-1)` and a `d` below `phi` with `e*d == 1 mod phi` |
| RsaReceiver.DeriveKeysNeverLacksInverse | rsa_b.py:104-112 | the `mod_inverse` failure branch is unreachable after the gcd check |
| RsaReceiver.SmallPrimesArePrime | rsa_b.py:8 | every entry of `SMALL_PRIMES` is prime |
| RsaReceiver.RandomPrimes | rsa_b.py:76-77 | the random branch picks two distinct entries of `SMALL_PRIMES` |
| RsaReceiver.RandomBranchSucceeds | rsa_b.py:75-113 | with the default exponent 17, key derivation succeeds for every pair the random branch can pick |
| RsaReceiver.DecryptMessage | rsa_b.py:136-149 | returns `None` exactly when `c` is outside `[0, n)`; otherwise `c^d mod n` |
| RsaReceiver.RsaRoundTrip | rsa_b.py:56-149 | for any accepted key, decrypting the encryption of a message in `[0, n)` gives the message back |
| WorkedExamples.TextbookKey | rsa_operations.py:88-102 | for `p = 61, q = 53`: `n = 3233`, `phi = 3120`, and `mod_inverse(17, 3120) == 2753` |
| WorkedExamples.TextbookEncryption | rsa_operations.py:105-110 | message 65 encrypts to 2790 |
| WorkedExamples.TextbookDecryption | rsa_operations.py:112-114 | ciphertext 2790 decrypts back to 65 |
| WorkedExamples.TextbookCrtDecryption | rsa_operations.py:225-240 | CRT decryption of 2790 also gives 65, matching `mod_pow` |
| WorkedExamples.TextbookDerivedKeys | rsa_b.py:80-133 | the receiver derives the textbook record from 61, 53 and the default exponent |
| WorkedExamples.TextbookPollard | pollard_rho.py:4-15 | bound 5 splits 3233 into 61 |
| WorkedExamples.Pollard8051 | pollard_rho.py:4-15 | bound 10 splits `8051 = 83 * 97` into 97 |
| WorkedExamples.MillerRabinSmallCases | blum_blum_shub.py:23-54 | 101 and 2 pass Miller-Rabin while 100 and 1 fail |
| WorkedExamples.CrtCounterexampleKeyAccepted | rsa_b.py:56-133 | the receiver accepts `p = 2, q = 5, e = 3` and derives `d = 3` |

## Left out

- EulerTotient: its value is characterised only for a prime and for a product of two distinct primes (`TotientOfPrime`, `TotientOfSemiprime`), the cases RSA uses. The product formula for an arbitrary `n` is not proved.
- DeriveKeys: `get_int_input` re-prompts when a prime is below 2 or is not an integer. The model has no prompt loop, so such a value is rejected as `NotPrime`.
- Console I/O: the `print` calls, `input()` prompts, `get_int_input` and the menu loops in `rsa_b.py` and the ElGamal scripts are not modelled. Their parsed values become parameters, for example `DeriveKeys`'s `entered` exponent.
- Randomness distribution: draws are arbitrary parameters, so no claim is made about uniformity or the probability that Miller-Rabin accepts a composite.
- Unbounded retry loops: `generate_blum_prime`, `random_prime_from_bbs`, the `q == p` redraw and the seed loop of `bbs_keygen` are searches capped at `maxAttempts`, returning `Err(Exhausted)` when the cap is hit. Termination with probability one is not modelled.
- Draw consumption: each attempt gets its own independent draw, rather than the draws coming from one sequential generator.
- UTF-8: `encode("utf-8")` and `decode("utf-8")` are left out. Messages are byte strings, and a decode failure on invalid UTF-8 is not modelled.
- Non-positive moduli: `ModInverse`, `ModPow`, `ChineseRemainder` and `BuiltinPow` require a modulus of at least 1, and `Decrypt` requires `p >= 0`. Python's floor semantics for negative moduli are left out, and so are the errors on modulus 0: `ZeroDivisionError` from `%` in `mod_inverse`, `mod_pow` and `chinese_remainder_theorem`, and `ValueError` from the three-argument `pow`. `Decrypt` models its own modulus-0 error. `RsaDecryptCrt` and `CrtRecombine` require `p, q >= 2`: with `p = 1` or `q = 1`, `d % (p - 1)` raises `ZeroDivisionError`.
- EuclidGcd: inputs are natural numbers. `gcd` and `extended_gcd` on negative arguments, where Python's floor division gives negative results, are not modelled.
- FactorPollardP1: requires `n != 0` when the loop runs, because `pow(a, j, 0)` raises `ValueError`. A negative `n` is modelled: it reports nothing.
- RandomPrimeFromBbs: with a valid state and a bit length below 1, `random_prime_from_bbs` stores the once-squared seed before `1 << (bit_length - 1)` raises. The model returns `InvalidParameter` without that advanced state.
- ModPow: the `exponent > 0 ==> in range` bound is weaker than a full range claim, because `mod_pow(b, 0, 1)` returns 1, which is not below the modulus.
- Progress messages: the `attempts % 1000` print in `generate_blum_prime` and the "candidate failed" message are output only.
- Bit sizes: `math.floor(bitSize / 2)` goes through floating point in Python. It is modelled as integer floor division, which agrees for every bit size a float represents exactly.
- The `BlumBlumShub` class: its mutable `seed` field is threaded through as an explicit `Bbs` state value. `__init__` is `BbsKeygen` followed by `InitialState`.
- Demo drivers: `rsa_encryption_decryption`, `modular_inverse_examples`, `chinese_remainder_examples`, the `__main__` blocks, `generate_public_private_keys`, `send_message`, `send_random_int_message`, `decrypt_integer_message` and `interactive_decrypt` only print results. Their arithmetic is covered by the members they call and by `WorkedExamples`.
- Other files: `rsa_a.py`, `rsa_c.py` and `send.py` are not part of this model.

Where the code and its documentation disagree, the model follows the code:

- The BBS generator discards one state between calls (`NextBitsSkipsOneState`). A call for `a` bits followed by one for `b` bits is not the same as one call for `a + b` bits.
- `miller_rabin` also rejects multiples of 3, not only even numbers.
- The receiver's default public exponent is 17, not 65537.
- `mod_pow(b, 0, 1)` returns 1, which is not reduced below the modulus.
- `decrypt_message` returns `None` for an out-of-range ciphertext rather than raising.

## Findings

| source | as written | input that shows it | evidently intended | confidence | as-written member | corrected member |
|---|---|---|---|---|---|---|
| rsa_operations.py:203-207 | reduces the exponent to `d mod (p-1)`, which is 0 whenever `p - 1` divides `d` (always when `p = 2`); then `mod_pow(c, 0, p)` is 1 even when `p` divides `c` and `c^d mod p` is 0 | `p = 2, q = 5, e = d = 3` (a key `rsa_b.py` accepts), ciphertext 4: CRT gives 9, `mod_pow(4, 3, 10)` gives 4 | CRT decryption equal to `mod_pow(c, d, n)` for every ciphertext, using a reduced exponent in `[1, p-1]` congruent to `d` | not executed | RsaOperations.RsaDecryptCrtCounterexample | RsaOperations.RsaDecryptCrtCorrectedMatchesModPow |

The discrepancy needs a prime factor 2. For odd primes and `e*d == 1 mod phi`, neither reduced exponent can be 0, and the as-written path is correct (`RsaOperations.RsaDecryptCrtValidKey`).
