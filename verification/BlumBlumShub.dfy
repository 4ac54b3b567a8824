/** The `BlumBlumShub` class: Blum-prime generation, the squaring bit
    generator whose seed is threaded from call to call, prime assembly from
    generated bits, and key generation. Every random draw is a parameter:
    `getrandbits`, `randint` and `randrange` become caller-supplied
    naturals, reduced into the range the source asks for. */
module BlumBlumShub {
  import opened NumberTheory
  import opened Results
  import opened ModularArithmetic
  import opened PrimeFacts
  import opened Bits
  import opened PrimalityTest
  import opened SearchLoop

  /** `SMALL_PRIMES`, the quick trial-division filter. */
  const SmallPrimes: seq<nat> := [3, 5, 7, 11, 13, 17, 19, 23, 29, 31, 37, 41, 43, 47, 53, 59]

  type Bit = b: int | 0 <= b < 2

  // ---------------------------------------------------------------------
  // generate_blum_prime
  // ---------------------------------------------------------------------

  /** One candidate: `getrandbits(bitLength)` (the draw reduced below
      `2^bitLength`), then `|= 1 << (bitLength-1)` and `|= 3`. */
  function BlumCandidate(draw: nat, bitLength: nat): (c: nat)
    requires bitLength >= 1
    ensures c % 4 == 3 && TestBit(c, bitLength - 1)
    ensures Pow2(bitLength - 1) <= c
    ensures bitLength >= 2 ==> c < Pow2(bitLength)
  {
    var x := draw % Pow2(bitLength);
    BlumCandidateShape(x, bitLength);
    BitOr(BitOr(x, Pow2(bitLength - 1)), 3)
  }

  lemma BlumCandidateShape(x: nat, bitLength: nat)
    requires bitLength >= 1 && x < Pow2(bitLength)
    ensures var c := BitOr(BitOr(x, Pow2(bitLength - 1)), 3);
            c % 4 == 3 && TestBit(c, bitLength - 1) && Pow2(bitLength - 1) <= c
            && (bitLength >= 2 ==> c < Pow2(bitLength))
  {
    var top := Pow2(bitLength - 1);
    var inner := BitOr(x, top);
    var c := BitOr(inner, 3);
    PowerHasBit(bitLength - 1);
    BitOrTestBit(x, top, bitLength - 1);
    BitOrTestBit(inner, 3, bitLength - 1);
    assert Pow2(1) == 2;
    BitOrTestBit(inner, 3, 0);
    BitOrTestBit(inner, 3, 1);
    LowBitsModFour(c);
    TestBitAtLeast(c, bitLength - 1);
    if bitLength >= 2 {
      BitOrBound(x, top, bitLength);
      assert Pow2(2) == 4;
      Pow2Monotone(2, bitLength);
      BitOrBound(inner, 3, bitLength);
    }
  }

  /** Attempt `j` passes the primality test. */
  predicate Accepted(bitLength: nat, candidates: nat -> nat, witnesses: nat -> nat -> nat, j: nat)
    requires bitLength >= 1
  {
    MillerRabin(BlumCandidate(candidates(j), bitLength), DefaultIterations, witnesses(j))
  }

  /** The retry loop of `generate_blum_prime` from attempt `i`, capped at
      `maxAttempts`: the first accepted candidate. */
  function BlumSearch(bitLength: nat, candidates: nat -> nat, witnesses: nat -> nat -> nat, i: nat, maxAttempts: nat)
    : (r: Result<nat>)
    requires bitLength >= 1
    ensures r.Err? <==> forall j: nat :: i <= j < maxAttempts ==> !Accepted(bitLength, candidates, witnesses, j)
    ensures r.Err? ==> r.error == Exhausted
    ensures r.Ok? ==> exists j: nat :: i <= j < maxAttempts && Accepted(bitLength, candidates, witnesses, j)
                        && r.value == BlumCandidate(candidates(j), bitLength)
                        && forall k: nat :: i <= k < j ==> !Accepted(bitLength, candidates, witnesses, k)
    decreases maxAttempts - i
  {
    if i >= maxAttempts then
      Err(Exhausted)
    else if Accepted(bitLength, candidates, witnesses, i) then
      Ok(BlumCandidate(candidates(i), bitLength))
    else
      BlumSearch(bitLength, candidates, witnesses, i + 1, maxAttempts)
  }

  /** `generate_blum_prime(bitLength)` with attempt `j` drawing
      `candidates(j)` and Miller-Rabin witnesses `witnesses(j)`. A bit length
      below 1 makes the shift `1 << (bitLength-1)` raise. */
  function GenerateBlumPrime(bitLength: int, candidates: nat -> nat, witnesses: nat -> nat -> nat, maxAttempts: nat)
    : (r: Result<nat>)
    ensures bitLength < 1 <==> r == Err(InvalidParameter)
    ensures r.Err? ==> r.error == (if bitLength < 1 then InvalidParameter else Exhausted)
    ensures r.Ok? ==> r.value % 4 == 3 && TestBit(r.value, bitLength - 1)
    ensures r.Ok? ==> Pow2(bitLength - 1) <= r.value && (bitLength >= 2 ==> r.value < Pow2(bitLength))
    ensures r.Ok? ==> exists j: nat :: j < maxAttempts && MillerRabin(r.value, DefaultIterations, witnesses(j))
  {
    if bitLength < 1 then
      Err(InvalidParameter)
    else
      BlumSearch(bitLength, candidates, witnesses, 0, maxAttempts)
  }

  /** Whenever some attempt draws a prime, the search succeeds: primes are
      never rejected. */
  lemma GenerateBlumPrimeFindsPrime(bitLength: nat, candidates: nat -> nat, witnesses: nat -> nat -> nat,
                                    maxAttempts: nat, j: nat)
    requires bitLength >= 1 && j < maxAttempts && IsPrime(BlumCandidate(candidates(j), bitLength))
    ensures GenerateBlumPrime(bitLength, candidates, witnesses, maxAttempts).Ok?
  {
    MillerRabinAcceptsPrimes(BlumCandidate(candidates(j), bitLength), DefaultIterations, witnesses(j));
    assert Accepted(bitLength, candidates, witnesses, j);
  }

  // ---------------------------------------------------------------------
  // blum_blum_shub: the bit generator and its threaded seed
  // ---------------------------------------------------------------------

  /** The generator's state: the two Blum primes and `self.seed`. */
  datatype Bbs = Bbs(p: nat, q: nat, seed: int)

  /** The state passes both `assert`s and the coprimality check. */
  predicate ValidState(s: Bbs) {
    s.p % 4 == 3 && s.q % 4 == 3 && MathGcd(s.seed, s.p * s.q) == 1
  }

  /** `pow(x, 2, n)`: one squaring modulo `n`. */
  function Square(x: int, n: int): (y: int)
    requires n >= 1
    ensures 0 <= y < n
  {
    x * x % n
  }

  lemma SquareIsPow(x: int, n: int)
    requires n >= 1
    ensures Square(x, n) == Pow(x, Pow2(1)) % n
  {
    assert Pow(x, Pow2(1)) == x * x;
  }

  /** `k` squarings of `x` modulo `n`, emitting the parity of each square;
      also returns the last square (`x` itself when `k == 0`). */
  function SquareChain(x: int, k: nat, n: int): (r: (seq<Bit>, int))
    requires n >= 1
    ensures |r.0| == k
    decreases k
  {
    if k == 0 then
      ([], x)
    else
      var y := Square(x, n);
      var rest := SquareChain(y, k - 1, n);
      ([y % 2] + rest.0, rest.1)
  }

  /** The `i`-th emitted square is `x^(2^(i+1))`. */
  lemma {:induction false} SquareChainValues(x: int, k: nat, n: int)
    requires n >= 1
    ensures forall i :: 0 <= i < k ==> SquareChain(x, k, n).0[i] == Pow(x, Pow2(i + 1)) % n % 2
    ensures k >= 1 ==> SquareChain(x, k, n).1 == Pow(x, Pow2(k)) % n
    ensures k == 0 ==> SquareChain(x, k, n).1 == x
    decreases k
  {
    if k > 0 {
      var y := Square(x, n);
      SquareIsPow(x, n);
      SquareChainValues(y, k - 1, n);
      var chain := SquareChain(x, k, n).0;
      forall i | 0 <= i < k
        ensures chain[i] == Pow(x, Pow2(i + 1)) % n % 2
      {
        if i > 0 {
          PowPow2Compose(x, 1, i, n);
          assert 1 + i == i + 1;
        }
      }
      if k >= 2 {
        PowPow2Compose(x, 1, k - 1, n);
        assert 1 + (k - 1) == k;
      }
    }
  }

  /** `blum_blum_shub(iterations)`: square the seed once without emitting,
      then square `iterations` times emitting parities; the last square
      becomes the new seed. */
  function NextBits(s: Bbs, iterations: int): (r: Result<(seq<Bit>, Bbs)>)
    ensures r.Err? <==> !ValidState(s)
    ensures r.Err? ==> r.error == (if s.p % 4 != 3 || s.q % 4 != 3 then AssertionFailed else InvalidSeed)
    ensures r.Ok? ==>
              && s.p * s.q >= 1
              && |r.value.0| == (if iterations > 0 then iterations else 0)
              && r.value.1.p == s.p && r.value.1.q == s.q
              && ValidState(r.value.1)
  {
    if s.p % 4 != 3 || s.q % 4 != 3 then
      Err(AssertionFailed)
    else
      var n := s.p * s.q;
      MulAtLeast(s.p, s.q);
      if MathGcd(s.seed, n) != 1 then
        Err(InvalidSeed)
      else
        var k := if iterations > 0 then iterations else 0;
        var chain := SquareChain(Square(s.seed, n), k, n);
        NextBitsValues(s.seed, k, n);
        CoprimePower(s.seed, Pow2(k + 1), n);
        Ok((chain.0, s.(seed := chain.1)))
  }

  lemma NextBitsValues(seed: int, k: nat, n: int)
    requires n >= 1
    ensures var chain := SquareChain(Square(seed, n), k, n);
            (forall i :: 0 <= i < k ==> chain.0[i] == Pow(seed, Pow2(i + 2)) % n % 2)
            && chain.1 == Pow(seed, Pow2(k + 1)) % n
  {
    var x := Square(seed, n);
    SquareIsPow(seed, n);
    SquareChainValues(x, k, n);
    var chain := SquareChain(x, k, n);
    forall i | 0 <= i < k
      ensures chain.0[i] == Pow(seed, Pow2(i + 2)) % n % 2
    {
      PowPow2Compose(seed, 1, i + 1, n);
      assert 1 + (i + 1) == i + 2;
    }
    if k >= 1 {
      PowPow2Compose(seed, 1, k, n);
      assert 1 + k == k + 1;
    }
  }

  /** From a valid state, bit `i` is the parity of `seed^(2^(i+2)) mod n`
      and the new seed is `seed^(2^(k+1)) mod n`, for `k` bits. */
  lemma NextBitsSquares(s: Bbs, iterations: int)
    requires ValidState(s)
    ensures var r := NextBits(s, iterations);
            var k := if iterations > 0 then iterations else 0;
            var n := s.p * s.q;
            && r.Ok?
            && (forall i :: 0 <= i < k ==> r.value.0[i] == Pow(s.seed, Pow2(i + 2)) % n % 2)
            && r.value.1 == s.(seed := Pow(s.seed, Pow2(k + 1)) % n)
  {
    var k := if iterations > 0 then iterations else 0;
    MulAtLeast(s.p, s.q);
    NextBitsValues(s.seed, k, s.p * s.q);
  }

  /** A call for `iterations` bits leaves the seed squared once more than
      the number of bits it emitted. */
  lemma NextBitsSeed(s: Bbs, iterations: int)
    requires ValidState(s)
    ensures var k := if iterations > 0 then iterations else 0;
            && NextBits(s, iterations).Ok?
            && NextBits(s, iterations).value.1 == s.(seed := Pow(s.seed, Pow2(k + 1)) % (s.p * s.q))
  {
    NextBitsSquares(s, iterations);
  }

  /** A call emitting no bits still advances the seed by one squaring. */
  lemma ZeroBitsAdvance(s: Bbs)
    requires ValidState(s)
    ensures NextBits(s, 0) == Ok(([], s.(seed := (s.seed * s.seed) % (s.p * s.q))))
  {
    NextBitsSquares(s, 0);
    assert Pow(s.seed, Pow2(1)) == s.seed * s.seed;
  }

  /** Calls of `a` and then `b` bits skip one state compared with a single
      call of `a + 1 + b` bits: the second call's silent squaring consumes
      what would have been bit `a`. Both end in the same state. */
  lemma NextBitsSkipsOneState(s: Bbs, a: nat, b: nat)
    requires ValidState(s)
    ensures NextBits(s, a).Ok? && NextBits(NextBits(s, a).value.1, b).Ok?
    ensures var first := NextBits(s, a).value;
            var second := NextBits(first.1, b).value;
            var whole := NextBits(s, a + 1 + b).value;
            whole.0 == first.0 + [whole.0[a]] + second.0 && whole.1 == second.1
  {
    var n := s.p * s.q;
    var first := NextBits(s, a).value;
    var second := NextBits(first.1, b).value;
    var whole := NextBits(s, a + 1 + b).value;
    NextBitsSquares(s, a);
    NextBitsSquares(first.1, b);
    NextBitsSquares(s, a + 1 + b);
    var s1 := first.1.seed;
    assert s1 == Pow(s.seed, Pow2(a + 1)) % n;
    forall j | 0 <= j < b
      ensures second.0[j] == whole.0[a + 1 + j]
    {
      PowPow2Compose(s.seed, a + 1, j + 2, n);
      assert (a + 1) + (j + 2) == (a + 1 + j) + 2;
    }
    PowPow2Compose(s.seed, a + 1, b + 1, n);
    assert (a + 1) + (b + 1) == (a + 1 + b) + 1;
    assert whole.0 == first.0 + [whole.0[a]] + second.0;
  }

  // ---------------------------------------------------------------------
  // random_prime_from_bbs
  // ---------------------------------------------------------------------

  /** `any(value % sp == 0 for sp in SMALL_PRIMES)`. */
  predicate HasSmallFactor(v: nat) {
    exists i :: 0 <= i < |SmallPrimes| && v % SmallPrimes[i] == 0
  }

  /** The fill loop: `value |= bits[i] << i` for `i` in `[i, count)`. */
  function FillBits(value: nat, bits: seq<Bit>, i: nat, count: nat): nat
    requires count <= |bits|
    decreases count - i
  {
    if i >= count then value else FillBits(BitOr(value, bits[i] * Pow2(i)), bits, i + 1, count)
  }

  /** `2^i` has bit `i` and no other. */
  lemma PowerBits(i: nat, j: nat)
    ensures TestBit(Pow2(i), j) <==> i == j
  {
    if j == i {
      PowerHasBit(i);
    } else if j > i {
      Pow2Monotone(i + 1, j);
      ModSmall(Pow2(i), Pow2(j));
    } else {
      Pow2Add(j, i - j);
      assert j + (i - j) == i;
      DivModUnique(Pow2(i), Pow2(j), Pow2(i - j), 0);
      assert Pow2(i - j) == 2 * Pow2(i - j - 1);
    }
  }

  /** The filled value has the bits of `value` plus the set ones of `bits`
      in `[i, count)`. */
  lemma {:induction false} FillBitsTestBit(value: nat, bits: seq<Bit>, i: nat, count: nat, j: nat)
    requires count <= |bits|
    ensures TestBit(FillBits(value, bits, i, count), j) <==> TestBit(value, j) || (i <= j < count && bits[j] == 1)
    decreases count - i
  {
    if i < count {
      var term := bits[i] * Pow2(i);
      FillBitsTestBit(BitOr(value, term), bits, i + 1, count, j);
      BitOrTestBit(value, term, j);
      if bits[i] == 1 {
        PowerBits(i, j);
      }
    }
  }

  /** Filling bits below `L` keeps the value below `2^L`. */
  lemma {:induction false} FillBitsBound(value: nat, bits: seq<Bit>, i: nat, count: nat, L: nat)
    requires count <= |bits| && count <= L && value < Pow2(L)
    ensures FillBits(value, bits, i, count) < Pow2(L)
    decreases count - i
  {
    if i < count {
      Pow2Monotone(i + 1, L);
      BitOrBound(value, bits[i] * Pow2(i), L);
      FillBitsBound(BitOr(value, bits[i] * Pow2(i)), bits, i + 1, count, L);
    }
  }

  /** Only the bits below `count` are read. */
  lemma {:induction false} FillBitsReadsPrefix(value: nat, b1: seq<Bit>, b2: seq<Bit>, i: nat, count: nat)
    requires count <= |b1| && count <= |b2| && b1[..count] == b2[..count]
    ensures FillBits(value, b1, i, count) == FillBits(value, b2, i, count)
    decreases count - i
  {
    if i < count {
      assert b1[i] == b1[..count][i] == b2[..count][i] == b2[i];
      FillBitsReadsPrefix(BitOr(value, b1[i] * Pow2(i)), b1, b2, i + 1, count);
    }
  }

  /** The value `random_prime_from_bbs` assembles: `1 << (bitLength-1)`,
      the bits `bits[i] << i` for `i < bitLength - 1`, and `| 1`. */
  function AssembleValue(bits: seq<Bit>, bitLength: nat): (v: nat)
    requires 1 <= bitLength <= |bits| + 1
    ensures v % 2 == 1 && TestBit(v, bitLength - 1)
    ensures Pow2(bitLength - 1) <= v < Pow2(bitLength)
    ensures forall i :: 1 <= i < bitLength - 1 ==> (TestBit(v, i) <==> bits[i] == 1)
  {
    var filled := FillBits(Pow2(bitLength - 1), bits, 0, bitLength - 1);
    AssembleValueFacts(bits, bitLength, filled);
    BitOr(filled, 1)
  }

  lemma AssembleValueFacts(bits: seq<Bit>, bitLength: nat, filled: nat)
    requires 1 <= bitLength <= |bits| + 1
    requires filled == FillBits(Pow2(bitLength - 1), bits, 0, bitLength - 1)
    ensures var v := BitOr(filled, 1);
            v % 2 == 1 && TestBit(v, bitLength - 1) && Pow2(bitLength - 1) <= v < Pow2(bitLength)
            && forall i :: 1 <= i < bitLength - 1 ==> (TestBit(v, i) <==> bits[i] == 1)
  {
    var v := BitOr(filled, 1);
    assert Pow2(0) == 1;
    BitOrTestBit(filled, 1, 0);
    FillBitsTestBit(Pow2(bitLength - 1), bits, 0, bitLength - 1, bitLength - 1);
    PowerHasBit(bitLength - 1);
    BitOrTestBit(filled, 1, bitLength - 1);
    TestBitAtLeast(v, bitLength - 1);
    FillBitsBound(Pow2(bitLength - 1), bits, 0, bitLength - 1, bitLength);
    BitOrBound(filled, 1, bitLength);
    forall i | 1 <= i < bitLength - 1
      ensures TestBit(v, i) <==> bits[i] == 1
    {
      BitOrTestBit(filled, 1, i);
      PowerBits(0, i);
      FillBitsTestBit(Pow2(bitLength - 1), bits, 0, bitLength - 1, i);
      PowerBits(bitLength - 1, i);
    }
  }

  /** `bits[bitLength - 1]` is never read. */
  lemma AssembleIgnoresLastBit(b1: seq<Bit>, b2: seq<Bit>, bitLength: nat)
    requires 1 <= bitLength <= |b1| + 1 && bitLength <= |b2| + 1
    requires b1[..bitLength - 1] == b2[..bitLength - 1]
    ensures AssembleValue(b1, bitLength) == AssembleValue(b2, bitLength)
  {
    FillBitsReadsPrefix(Pow2(bitLength - 1), b1, b2, 0, bitLength - 1);
  }

  /** The filter of `random_prime_from_bbs`: no factor among the small
      primes, then Miller-Rabin with witnesses `draws`. */
  predicate KeepsCandidate(v: nat, draws: nat -> nat) {
    !HasSmallFactor(v) && MillerRabin(v, DefaultIterations, draws)
  }

  /** One pass of the `while True` of `random_prime_from_bbs`: draw
      `bitLength` bits (advancing the state), assemble the candidate from
      them, and keep it exactly when `keep` accepts it. */
  function Attempt(s: Bbs, bitLength: int, keep: nat -> bool): (r: Result<(Option<nat>, Bbs)>)
    ensures r.Err? <==> !ValidState(s) || bitLength < 1
    ensures r.Err? ==> r.error == (if !ValidState(s) then NextBits(s, bitLength).error else InvalidParameter)
    ensures r.Ok? ==> ValidState(r.value.1) && r.value.1 == NextBits(s, bitLength).value.1
    ensures r.Ok? ==>
              var v := AssembleValue(NextBits(s, bitLength).value.0, bitLength);
              && (r.value.0.Some? <==> keep(v))
              && (r.value.0.Some? ==> r.value.0.value == v)
  {
    match NextBits(s, bitLength)
    case Err(e) => Err(e)
    case Ok((bits, next)) =>
      if bitLength < 1 then
        Err(InvalidParameter)
      else
        var v := AssembleValue(bits, bitLength);
        if keep(v) then Ok((Some(v), next)) else Ok((None, next))
  }

  /** The passes of the `while True` loop, pass `j` filtering with `keeps(j)`. */
  function Attempts(bitLength: int, keeps: nat -> nat -> bool): (step: (nat, Bbs) -> Result<(Option<nat>, Bbs)>)
    ensures forall j: nat, st: Bbs :: step(j, st) == Attempt(st, bitLength, keeps(j))
    ensures bitLength >= 1 ==> Total(step, ValidState)
  {
    var step := (j: nat, st: Bbs) => Attempt(st, bitLength, keeps(j));
    assert bitLength >= 1 ==> Total(step, ValidState) by {
      if bitLength >= 1 {
        forall j: nat, st: Bbs | ValidState(st)
          ensures step(j, st).Ok? && ValidState(step(j, st).value.1)
        {
          var r := Attempt(st, bitLength, keeps(j));
        }
      }
    }
    step
  }

  /** The filters of `random_prime_from_bbs`: attempt `j` runs Miller-Rabin
      with witnesses `witnesses(j)`. */
  function Filters(witnesses: nat -> nat -> nat): nat -> nat -> bool {
    (j: nat) => (v: nat) => KeepsCandidate(v, witnesses(j))
  }

  /** `random_prime_from_bbs(bitLength)`, attempts `i` to `maxAttempts - 1`,
      attempt `j` using witnesses `witnesses(j)`. */
  function RandomPrimeFromBbs(s: Bbs, bitLength: int, witnesses: nat -> nat -> nat, i: nat, maxAttempts: nat)
    : (r: Result<(nat, Bbs)>)
    ensures r.Err? ==> r.error == (if i >= maxAttempts then Exhausted
                                   else if !ValidState(s) then NextBits(s, bitLength).error
                                   else if bitLength < 1 then InvalidParameter
                                   else Exhausted)
    ensures r.Ok? ==>
              var v := r.value.0;
              bitLength >= 1 && v % 2 == 1 && TestBit(v, bitLength - 1) && Pow2(bitLength - 1) <= v < Pow2(bitLength)
              && !HasSmallFactor(v) && ValidState(r.value.1)
              && exists j: nat :: i <= j < maxAttempts && MillerRabin(v, DefaultIterations, witnesses(j))
  {
    var step := Attempts(bitLength, Filters(witnesses));
    if ValidState(s) && bitLength >= 1 then
      SearchKeeps(s, bitLength, Filters(witnesses), i, maxAttempts);
      var r := Loop(step, s, i, maxAttempts);
      if r.Ok? then
        FiltersPassed(r.value.0, witnesses, i, maxAttempts);
        r
      else
        r
    else
      assert i < maxAttempts ==> step(i, s).Err?;
      Loop(step, s, i, maxAttempts)
  }

  /** A kept candidate is odd, has bit `bitLength - 1` set, has exactly
      `bitLength` bits and passed the filter. */
  lemma KeptCandidate(st: Bbs, bitLength: nat, keep: nat -> bool)
    requires ValidState(st) && bitLength >= 1
    requires Attempt(st, bitLength, keep).value.0.Some?
    ensures var v := Attempt(st, bitLength, keep).value.0.value;
            v % 2 == 1 && TestBit(v, bitLength - 1) && Pow2(bitLength - 1) <= v < Pow2(bitLength) && keep(v)
  {
  }

  /** The outcome of a kept attempt `k` is a `bitLength`-bit odd candidate
      that attempt `i + k`'s filter accepted, with a valid next state. */
  lemma OutcomeKept(s: Bbs, bitLength: nat, keeps: nat -> nat -> bool, i: nat, k: nat)
    requires ValidState(s) && bitLength >= 1
    requires Kept(Attempts(bitLength, keeps), ValidState, s, i)(k)
    ensures var o := Outcome(Attempts(bitLength, keeps), ValidState, s, i, Some(k));
            && o.Ok?
            && var v := o.value.0;
            && v % 2 == 1 && TestBit(v, bitLength - 1) && Pow2(bitLength - 1) <= v < Pow2(bitLength)
            && ValidState(o.value.1)
            && keeps(i + k)(v)
  {
    var step := Attempts(bitLength, keeps);
    var j := i + k;
    var st := After(step, ValidState, s, i, k);
    assert Candidate(step, ValidState, s, i, k) == Attempt(st, bitLength, keeps(j)).value.0;
    KeptCandidate(st, bitLength, keeps(j));
  }

  /** From a valid state the search either runs out of attempts or keeps a
      `bitLength`-bit odd candidate that the filter of one of its attempts
      accepted. */
  lemma SearchKeeps(s: Bbs, bitLength: nat, keeps: nat -> nat -> bool, i: nat, maxAttempts: nat)
    requires ValidState(s) && bitLength >= 1
    ensures var r := Loop(Attempts(bitLength, keeps), s, i, maxAttempts);
            && (r.Err? ==> r.error == Exhausted)
            && (r.Ok? ==>
                  var v := r.value.0;
                  v % 2 == 1 && TestBit(v, bitLength - 1) && Pow2(bitLength - 1) <= v < Pow2(bitLength)
                  && ValidState(r.value.1)
                  && exists j: nat :: i <= j < maxAttempts && keeps(j)(v))
  {
    var step := Attempts(bitLength, keeps);
    LoopFindsFirst(step, ValidState, s, i, maxAttempts);
    var kept := Kept(step, ValidState, s, i);
    FirstTrueMeaning(kept, 0, maxAttempts - i);
    var hit := FirstTrue(kept, 0, maxAttempts - i);
    if hit.Some? {
      var k := hit.value;
      OutcomeKept(s, bitLength, keeps, i, k);
      var j := i + k;
      assert i <= j < maxAttempts;
    }
  }

  /** A value one of whose filters accepted it has no small factor and
      passed Miller-Rabin with that attempt's witnesses. */
  lemma FiltersPassed(v: nat, witnesses: nat -> nat -> nat, i: nat, maxAttempts: nat)
    requires exists j: nat :: i <= j < maxAttempts && Filters(witnesses)(j)(v)
    ensures !HasSmallFactor(v) && exists j: nat :: i <= j < maxAttempts && MillerRabin(v, DefaultIterations, witnesses(j))
  {
    var j: nat :| i <= j < maxAttempts && Filters(witnesses)(j)(v);
    assert KeepsCandidate(v, witnesses(j));
  }

  /** The generator state after `k` attempts of `bitLength` bits each,
      starting from `s`. */
  function StateAt(s: Bbs, bitLength: nat, k: nat): (r: Bbs)
    requires ValidState(s) && bitLength >= 1
    ensures ValidState(r)
    decreases k
  {
    if k == 0 then s else NextBits(StateAt(s, bitLength, k - 1), bitLength).value.1
  }

  /** Each attempt squares the seed `bitLength + 1` times, so after `k`
      attempts the seed is `seed^(2^(k * (bitLength + 1))) mod n`. */
  lemma {:induction false} StateAtSeed(s: Bbs, bitLength: nat, k: nat)
    requires ValidState(s) && bitLength >= 1 && k >= 1
    ensures StateAt(s, bitLength, k) == s.(seed := Pow(s.seed, Pow2(k * (bitLength + 1))) % (s.p * s.q))
    decreases k
  {
    var prev := StateAt(s, bitLength, k - 1);
    NextBitsSeed(prev, bitLength);
    if k >= 2 {
      StateAtSeed(s, bitLength, k - 1);
      var b := bitLength + 1;
      var a := (k - 1) * b;
      var c := k * b;
      assert c == a + b;
      MulAtLeast(s.p, s.q);
      SquaringsCompose(s.seed, s.p * s.q, a, b, c, prev.seed);
    }
  }

  /** `b` further squarings of `seed^(2^a) mod n` give `seed^(2^c) mod n`
      for `c == a + b`. */
  lemma SquaringsCompose(seed: int, n: int, a: nat, b: nat, c: nat, mid: int)
    requires n >= 1 && mid == Pow(seed, Pow2(a)) % n && c == a + b
    ensures Pow(mid, Pow2(b)) % n == Pow(seed, Pow2(c)) % n
  {
    PowPow2Compose(seed, a, b, n);
  }

  /** The candidate assembled in attempt `k` of a search started in `s`. */
  function AttemptValue(s: Bbs, bitLength: nat, k: nat): nat
    requires ValidState(s) && bitLength >= 1
  {
    AssembleValue(NextBits(StateAt(s, bitLength, k), bitLength).value.0, bitLength)
  }

  /** Attempt `k` of the search started in `s` at attempt number `i` runs
      from the generator state after `k` draws of `bitLength` bits, and
      keeps the candidate assembled from its bits exactly when `keeps(i + k)`
      accepts it. */
  lemma {:induction false} AttemptFromStateAt(s: Bbs, bitLength: nat, keeps: nat -> nat -> bool, i: nat, k: nat)
    requires ValidState(s) && bitLength >= 1
    ensures After(Attempts(bitLength, keeps), ValidState, s, i, k) == StateAt(s, bitLength, k)
    ensures Candidate(Attempts(bitLength, keeps), ValidState, s, i, k)
            == if keeps(i + k)(AttemptValue(s, bitLength, k)) then Some(AttemptValue(s, bitLength, k)) else None
    decreases k
  {
    var step := Attempts(bitLength, keeps);
    if k >= 1 {
      AttemptFromStateAt(s, bitLength, keeps, i, k - 1);
      assert step(i + k - 1, StateAt(s, bitLength, k - 1)).value.1 == StateAt(s, bitLength, k);
    }
  }

  /** `random_prime_from_bbs` returns the candidate of the first attempt
      whose candidate has no small factor and passes Miller-Rabin, together
      with the state after that attempt, and is exhausted exactly when no
      attempt below the cap does; attempt `k` assembles its candidate from
      the generator state after `k` attempts. */
  lemma RandomPrimeFromBbsFirstAccepting(s: Bbs, bitLength: nat, witnesses: nat -> nat -> nat, i: nat, maxAttempts: nat)
    requires ValidState(s) && bitLength >= 1
    ensures var step := Attempts(bitLength, Filters(witnesses));
            RandomPrimeFromBbs(s, bitLength, witnesses, i, maxAttempts)
            == Outcome(step, ValidState, s, i, FirstTrue(Kept(step, ValidState, s, i), 0, maxAttempts - i))
    ensures forall k: nat ::
              Kept(Attempts(bitLength, Filters(witnesses)), ValidState, s, i)(k)
              <==> KeepsCandidate(AttemptValue(s, bitLength, k), witnesses(i + k))
    ensures forall k: nat :: After(Attempts(bitLength, Filters(witnesses)), ValidState, s, i, k) == StateAt(s, bitLength, k)
  {
    var step := Attempts(bitLength, Filters(witnesses));
    LoopFindsFirst(step, ValidState, s, i, maxAttempts);
    forall k: nat
      ensures Kept(step, ValidState, s, i)(k) <==> KeepsCandidate(AttemptValue(s, bitLength, k), witnesses(i + k))
      ensures After(step, ValidState, s, i, k) == StateAt(s, bitLength, k)
    {
      AttemptFromStateAt(s, bitLength, Filters(witnesses), i, k);
    }
  }

  // ---------------------------------------------------------------------
  // bbs_keygen
  // ---------------------------------------------------------------------

  /** The random draws of key generation: candidate bits and Miller-Rabin
      witnesses per `generate_blum_prime` call and attempt (call 0 draws
      `p`, calls 1, 2, ... draw `q`), and the `randrange` draw per seed
      attempt. */
  datatype Coins = Coins(
    candidates: nat -> nat -> nat,
    witnesses: nat -> nat -> nat -> nat,
    seeds: nat -> nat)

  datatype BbsKeys = BbsKeys(p: nat, q: nat, n: nat, x0: nat)

  /** Call number `call` of `generate_blum_prime`. */
  function GenerateCall(bitLength: int, coins: Coins, call: nat, maxAttempts: nat): (r: Result<nat>)
    ensures r.Ok? ==> r.value % 4 == 3
    ensures r.Err? ==> r.error == (if bitLength < 1 then InvalidParameter else Exhausted)
  {
    GenerateBlumPrime(bitLength, coins.candidates(call), coins.witnesses(call), maxAttempts)
  }

  /** The outcomes of successive `generate_blum_prime(bitLength)` calls:
      Blum primes, or the failure of the call. */
  function Calls(bitLength: int, coins: Coins, maxAttempts: nat): (calls: nat -> Result<nat>)
    ensures forall u: nat :: calls(u).Ok? ==> calls(u).value % 4 == 3
    ensures forall u: nat :: calls(u).Err? ==> calls(u).error == (if bitLength < 1 then InvalidParameter else Exhausted)
  {
    (u: nat) => GenerateCall(bitLength, coins, u, maxAttempts)
  }

  /** `while q == p: q = generate_blum_prime(q_bits)`, where call `u`
      returns `calls(u)`, from call `t + 1` on. */
  function DistinctQ(p: nat, calls: nat -> Result<nat>, t: nat, maxAttempts: nat): (r: Result<nat>)
    ensures r.Ok? ==> r.value != p
    ensures r.Err? ==> r == Err(Exhausted) || exists u: nat :: t + 1 <= u <= maxAttempts && calls(u) == r
    decreases maxAttempts - t
  {
    if t >= maxAttempts then
      Err(Exhausted)
    else
      match calls(t + 1)
      case Err(e) => Err(e)
      case Ok(q) =>
        if q == p then DistinctQ(p, calls, t + 1, maxAttempts) else Ok(q)
  }

  /** Which calls return something other than `p`. */
  function Differs(p: nat, calls: nat -> Result<nat>): nat -> bool {
    (u: nat) => calls(u) != Ok(p)
  }

  /** Reference meaning of the redraw: the outcome of the first of calls
      `t + 1` to `maxAttempts` that does not return `p`; exhaustion when
      every one of them returns `p`. */
  function FirstDiffering(p: nat, calls: nat -> Result<nat>, t: nat, maxAttempts: nat): Result<nat> {
    match FirstTrue(Differs(p, calls), t + 1, maxAttempts + 1)
    case None => Err(Exhausted)
    case Some(u) => calls(u)
  }

  /** The redraw loop computes its reference meaning. */
  lemma {:induction false} DistinctQFirst(p: nat, calls: nat -> Result<nat>, t: nat, maxAttempts: nat)
    ensures DistinctQ(p, calls, t, maxAttempts) == FirstDiffering(p, calls, t, maxAttempts)
    decreases maxAttempts - t
  {
    if t < maxAttempts && calls(t + 1) == Ok(p) {
      assert !Differs(p, calls)(t + 1);
      DistinctQFirst(p, calls, t + 1, maxAttempts);
    }
  }

  /** The redraw returns the outcome of the first call that does not
      return `p`; it is exhausted when every call returns `p`, and fails
      otherwise only as one of the calls fails. */
  lemma DistinctQFinds(p: nat, calls: nat -> Result<nat>, maxAttempts: nat)
    ensures var r := DistinctQ(p, calls, 0, maxAttempts);
            && (r.Ok? ==> exists u: nat :: 1 <= u <= maxAttempts && calls(u) == Ok(r.value)
                             && forall w: nat :: 1 <= w < u ==> calls(w) == Ok(p))
            && ((forall u: nat :: 1 <= u <= maxAttempts ==> calls(u) == Ok(p)) ==> r == Err(Exhausted))
            && (r.Err? ==> (forall u: nat :: 1 <= u <= maxAttempts ==> calls(u) == Ok(p))
                           || exists u: nat :: 1 <= u <= maxAttempts && calls(u) == r)
  {
    var differs := Differs(p, calls);
    DistinctQFirst(p, calls, 0, maxAttempts);
    FirstTrueMeaning(differs, 1, maxAttempts + 1);
    var hit := FirstTrue(differs, 1, maxAttempts + 1);
    if hit.Some? {
      var u := hit.value;
      forall w: nat | 1 <= w < u ensures calls(w) == Ok(p) {
        assert !differs(w);
      }
    } else {
      forall u: nat | 1 <= u <= maxAttempts ensures calls(u) == Ok(p) {
        assert !differs(u);
      }
    }
  }

  /** The redraw of `q` is the first call of `generate_blum_prime(qBits)`
      whose result is not `p`, a Blum prime; it fails as that call does, or
      by running out of calls when every call returns `p`. */
  lemma DistinctQBlum(p: nat, qBits: int, coins: Coins, maxAttempts: nat)
    ensures var r := DistinctQ(p, Calls(qBits, coins, maxAttempts), 0, maxAttempts);
            && (r.Ok? ==> r.value != p && r.value % 4 == 3)
            && (r.Ok? ==> exists u: nat :: 1 <= u <= maxAttempts && Calls(qBits, coins, maxAttempts)(u) == Ok(r.value)
                             && forall w: nat :: 1 <= w < u ==> Calls(qBits, coins, maxAttempts)(w) == Ok(p))
            && ((forall u: nat :: 1 <= u <= maxAttempts ==> Calls(qBits, coins, maxAttempts)(u) == Ok(p)) ==> r == Err(Exhausted))
            && (r.Err? ==> r.error == (if qBits < 1 && maxAttempts >= 1 then InvalidParameter else Exhausted))
  {
    var calls := Calls(qBits, coins, maxAttempts);
    DistinctQFinds(p, calls, maxAttempts);
    if qBits < 1 && maxAttempts >= 1 {
      assert calls(1).Err?;
    }
  }

  /** The `q` of `bbs_keygen`: the first of calls `1, 2, ...` of
      `generate_blum_prime(qBits)` whose result is not `p`. */
  function QSearch(p: nat, qBits: int, coins: Coins, maxAttempts: nat): (r: Result<nat>)
    ensures r.Ok? ==> r.value != p && r.value % 4 == 3
    ensures r.Ok? ==> exists u: nat :: 1 <= u <= maxAttempts && Calls(qBits, coins, maxAttempts)(u) == Ok(r.value)
                        && forall w: nat :: 1 <= w < u ==> Calls(qBits, coins, maxAttempts)(w) == Ok(p)
    ensures (forall u: nat :: 1 <= u <= maxAttempts ==> Calls(qBits, coins, maxAttempts)(u) == Ok(p)) ==> r == Err(Exhausted)
    ensures r.Err? ==> r.error == (if qBits < 1 && maxAttempts >= 1 then InvalidParameter else Exhausted)
  {
    DistinctQBlum(p, qBits, coins, maxAttempts);
    DistinctQ(p, Calls(qBits, coins, maxAttempts), 0, maxAttempts)
  }

  /** Seed attempt `t` draws `randrange(2, n - 1)`, the range of a
      Miller-Rabin witness, so it is `Witness(n, seeds, t)`.

      `while True: r = randrange(2, n - 1); if gcd(r, n) == 1: break`: the
      first draw coprime to `n`. */
  function SeedSearch(n: nat, seeds: nat -> nat, t: nat, maxAttempts: nat): (r: Result<nat>)
    requires n >= 4
    ensures r.Err? <==> forall j: nat :: t <= j < maxAttempts ==> Gcd(Witness(n, seeds, j), n) != 1
    ensures r.Err? ==> r.error == Exhausted
    ensures r.Ok? ==> exists j: nat :: t <= j < maxAttempts && r.value == Witness(n, seeds, j)
                        && forall k: nat :: t <= k < j ==> Gcd(Witness(n, seeds, k), n) != 1
    ensures r.Ok? ==> 2 <= r.value <= n - 2 && Gcd(r.value, n) == 1
    decreases maxAttempts - t
  {
    if t >= maxAttempts then
      Err(Exhausted)
    else
      var r := Witness(n, seeds, t);
      if MathGcd(r, n) == 1 then Ok(r) else SeedSearch(n, seeds, t + 1, maxAttempts)
  }

  /** The seed chosen by `bbs_keygen` for modulus `n` and starting value
      `x0`: the first coprime draw, squared. */
  predicate FirstCoprimeSeed(n: nat, seeds: nat -> nat, maxAttempts: nat, x0: nat) {
    && n >= 4
    && exists j: nat :: j < maxAttempts && Gcd(Witness(n, seeds, j), n) == 1
                     && x0 == (Witness(n, seeds, j) * Witness(n, seeds, j)) % n
                     && forall k: nat :: k < j ==> Gcd(Witness(n, seeds, k), n) != 1
  }

  /** The tail of `bbs_keygen` once `p` and `q` are chosen: `n = p*q`, a
      coprime seed `r` and the starting value `x0 = r^2 mod n`. */
  function KeysFromPrimes(p: nat, q: nat, seeds: nat -> nat, maxAttempts: nat): (r: Result<BbsKeys>)
    requires p % 4 == 3 && q % 4 == 3
    ensures r.Err? <==> forall j: nat :: j < maxAttempts ==> Gcd(Witness(p * q, seeds, j), p * q) != 1
    ensures r.Err? ==> r.error == Exhausted
    ensures r.Ok? ==>
              var k := r.value;
              && k.p == p && k.q == q && k.n == p * q
              && FirstCoprimeSeed(k.n, seeds, maxAttempts, k.x0)
              && ValidState(Bbs(k.p, k.q, k.x0))
  {
    var n := p * q;
    MulAtLeast(p, q);
    match SeedSearch(n, seeds, 0, maxAttempts)
    case Err(e) => Err(e)
    case Ok(seed) =>
      SeedSquareIsValid(p, q, seed);
      Ok(BbsKeys(p, q, n, Square(seed, n)))
  }

  lemma SeedSquareIsValid(p: nat, q: nat, seed: nat)
    requires p % 4 == 3 && q % 4 == 3 && p * q >= 1 && Gcd(seed, p * q) == 1
    ensures ValidState(Bbs(p, q, Square(seed, p * q)))
  {
    assert Pow(seed, 2) == seed * seed;
    CoprimePower(seed, 2, p * q);
  }

  /** The split of the modulus size: `p_bits = floor(bitSize / 2)` and
      `q_bits = bitSize - p_bits`. */
  function PBits(bitSize: int): (p: int)
    ensures 2 * p <= bitSize < 2 * p + 2
  {
    bitSize / 2
  }

  /** `q` gets the remaining bits: as many as `p`, or one more when
      `bitSize` is odd. */
  function QBits(bitSize: int): (q: int)
    ensures PBits(bitSize) + q == bitSize
    ensures PBits(bitSize) <= q <= PBits(bitSize) + 1
    ensures q == PBits(bitSize) + 1 <==> bitSize % 2 == 1
  {
    bitSize - PBits(bitSize)
  }

  /** `bbs_keygen(bitSize)`: two distinct Blum primes of `bitSize // 2` and
      the remaining bits (`p` from the first `generate_blum_prime` call, `q`
      from the first later call that differs from `p`), and the starting
      seed `r^2 mod n` for the first drawn `r` in `[2, n-2]` coprime to `n`.
      The generator state built from the keys is valid, so no call on it, or
      on any state it threads to, raises. A size below 2 leaves `p` no
      bits; otherwise the only failure is a capped search running out. */
  function BbsKeygen(bitSize: int, coins: Coins, maxAttempts: nat): (r: Result<BbsKeys>)
    ensures bitSize < 2 <==> r == Err(InvalidParameter)
    ensures r.Err? ==> r.error == InvalidParameter || r.error == Exhausted
    ensures r == Err(Exhausted) <==>
              && bitSize >= 2
              && match GenerateCall(PBits(bitSize), coins, 0, maxAttempts)
                 case Err(_) => true
                 case Ok(p) =>
                   match QSearch(p, QBits(bitSize), coins, maxAttempts)
                   case Err(_) => true
                   case Ok(q) => KeysFromPrimes(p, q, coins.seeds, maxAttempts).Err?
    ensures r.Ok? ==>
              var k := r.value;
              && k.p != k.q && k.p % 4 == 3 && k.q % 4 == 3 && k.n == k.p * k.q
              && GenerateCall(PBits(bitSize), coins, 0, maxAttempts) == Ok(k.p)
              && (exists u: nat :: 1 <= u <= maxAttempts && Calls(QBits(bitSize), coins, maxAttempts)(u) == Ok(k.q)
                                   && forall w: nat :: 1 <= w < u ==> Calls(QBits(bitSize), coins, maxAttempts)(w) == Ok(k.p))
              && FirstCoprimeSeed(k.n, coins.seeds, maxAttempts, k.x0)
              && ValidState(InitialState(k))
  {
    match GenerateCall(PBits(bitSize), coins, 0, maxAttempts)
    case Err(e) => Err(e)
    case Ok(p) =>
      match QSearch(p, QBits(bitSize), coins, maxAttempts)
      case Err(e) => Err(e)
      case Ok(q) =>
        KeysFromPrimes(p, q, coins.seeds, maxAttempts)
  }

  /** The state `__init__` builds from the keys. */
  function InitialState(k: BbsKeys): Bbs {
    Bbs(k.p, k.q, k.x0)
  }
}
