/** The ElGamal scripts: key generation, encryption, decryption, the
    brute-force private-key search of the decrypting script, and the
    integer encoding of messages. The three scripts share `egcd`, `modinv`
    and `elgamal_decrypt`; one model serves all of them, and the receiving
    script's own `modinv` is shown to agree with it. */
module ElGamal {
  import opened NumberTheory
  import opened Results
  import opened ModularArithmetic
  import opened PrimeFacts
  import opened Bits

  datatype PublicKey = PublicKey(p: int, g: int, y: int)
  datatype PrivateKey = PrivateKey(p: int, g: int, x: int)
  datatype KeyPair = KeyPair(pub: PublicKey, priv: PrivateKey)
  datatype Ciphertext = Ciphertext(c1: int, c2: int)

  // ---------------------------------------------------------------------
  // Python's built-in `pow` with a possibly negative exponent
  // ---------------------------------------------------------------------

  /** `pow(b, e, m)` for `m >= 1`: a negative exponent raises the inverse of
      `b` to `-e`, and fails when `b` has no inverse modulo `m`. */
  function BuiltinPow(b: int, e: int, m: int): (r: Result<int>)
    requires m >= 1
    ensures e >= 0 ==> r == Ok(ModExp(b, e, m))
    ensures r.Err? <==> e < 0 && Gcd(b % m, m) != 1
    ensures r.Err? ==> r.error == NoInverse
    ensures r.Ok? ==> 0 <= r.value < m
    ensures e < 0 && r.Ok? ==> (r.value * ModExp(b, -e, m)) % m == 1 % m
  {
    if e >= 0 then
      Ok(ModExp(b, e, m))
    else
      match ModInverse(b, m)
      case Err(_) => Err(NoInverse)
      case Ok(inv) =>
        InversePower(b, inv, -e, m);
        Ok(ModExp(inv, -e, m))
  }

  /** The `k`-th power of an inverse inverts the `k`-th power. */
  lemma InversePower(b: int, inv: int, k: nat, m: int)
    requires m >= 1 && (b * inv) % m == 1 % m
    ensures (ModExp(inv, k, m) * ModExp(b, k, m)) % m == 1 % m
  {
    ModMulBoth(Pow(inv, k), Pow(b, k), m);
    PowOfProduct(inv, b, k);
    assert inv * b == b * inv;
    PowMod(b * inv, k, m);
    PowMod(1, k, m);
    PowOne(k);
  }

  // ---------------------------------------------------------------------
  // Modular cancellation
  // ---------------------------------------------------------------------

  /** Multiplying by `u` and then by an inverse `v` of `u` gives `a` back. */
  lemma Cancel(a: int, u: int, v: int, p: int)
    requires p >= 1 && (u * v) % p == 1 % p
    ensures (((a * u) % p) * v) % p == a % p
  {
    calc {
      (((a * u) % p) * v) % p;
      { ModMulLeft(a * u, v, p); }
      ((a * u) * v) % p;
      { assert (a * u) * v == a * (u * v); }
      (a * (u * v)) % p;
      { ModMulRight(a, u * v, p); }
      (a * (1 % p)) % p;
      { ModMulRight(a, 1, p); }
      a % p;
    }
  }

  /** Raising `g^k` to `x` and `g^x` to `k` give the same shared secret. */
  lemma SharedSecret(g: int, x: nat, k: nat, p: int)
    requires p >= 1
    ensures ModExp(ModExp(g, k, p), x, p) == Pow(g, k * x) % p
    ensures ModExp(ModExp(g, x, p), k, p) == Pow(g, k * x) % p
  {
    PowMod(Pow(g, k), x, p);
    PowMul(g, k, x);
    PowMod(Pow(g, x), k, p);
    PowMul(g, x, k);
    assert x * k == k * x;
  }

  // ---------------------------------------------------------------------
  // Key generation, encryption, decryption
  // ---------------------------------------------------------------------

  /** `secrets.randbelow(p - 2) + 1` from a raw draw. */
  function Ephemeral(p: int, draw: nat): (k: nat)
    requires p >= 3
    ensures 1 <= k <= p - 2
  {
    draw % (p - 2) + 1
  }

  /** `elgamal_keygen(p, g)` with the private exponent drawn from `draw`. */
  function Keygen(p: int, g: int, draw: nat): (r: Result<KeyPair>)
    ensures r.Err? <==> p <= 2 || !(1 < g < p)
    ensures r.Err? ==> r.error == InvalidParameter
    ensures r.Ok? ==> r.value.pub.p == p && r.value.priv.p == p
                      && r.value.pub.g == g && r.value.priv.g == g
    ensures r.Ok? ==> 1 <= r.value.priv.x <= p - 2
    ensures r.Ok? ==> 0 <= r.value.pub.y < p
                      && r.value.pub.y == ModExp(g, r.value.priv.x, p)
  {
    if p <= 2 then Err(InvalidParameter)
    else if !(1 < g < p) then Err(InvalidParameter)
    else
      var x := Ephemeral(p, draw);
      Ok(KeyPair(PublicKey(p, g, ModExp(g, x, p)), PrivateKey(p, g, x)))
  }

  /** The ciphertext of `m` under `(p, g, y)` with ephemeral exponent `k`. */
  function EncryptWith(m: int, p: int, g: int, y: int, k: nat): (c: Ciphertext)
    requires p >= 1
    ensures 0 <= c.c1 < p && 0 <= c.c2 < p
  {
    Ciphertext(ModExp(g, k, p), (m * ModExp(y, k, p)) % p)
  }

  /** `elgamal_encrypt(m, pub)` with the ephemeral exponent drawn from `draw`.
      The range check comes first; `randbelow(p - 2)` then fails for `p <= 2`. */
  function Encrypt(m: int, pub: PublicKey, draw: nat): (r: Result<Ciphertext>)
    ensures r.Err? <==> !(0 < m < pub.p) || pub.p <= 2
    ensures !(0 < m < pub.p) ==> r == Err(RangeError)
    ensures 0 < m < pub.p && pub.p <= 2 ==> r == Err(InvalidParameter)
    ensures r.Ok? ==> 0 <= r.value.c1 < pub.p && 0 <= r.value.c2 < pub.p
    ensures r.Ok? ==> exists k: nat :: 1 <= k <= pub.p - 2 && r.value == EncryptWith(m, pub.p, pub.g, pub.y, k)
  {
    if !(0 < m < pub.p) then Err(RangeError)
    else if pub.p <= 2 then Err(InvalidParameter)
    else Ok(EncryptWith(m, pub.p, pub.g, pub.y, Ephemeral(pub.p, draw)))
  }

  /** `s = pow(c1, x, p)`, the secret the decrypting side recomputes. */
  function Secret(c1: int, priv: PrivateKey): (r: Result<int>)
    requires priv.p >= 1
    ensures priv.x >= 0 ==> r == Ok(ModExp(c1, priv.x, priv.p))
  {
    BuiltinPow(c1, priv.x, priv.p)
  }

  /** `elgamal_decrypt(ciphertext, priv)`: `c2 * s^-1 mod p`. A zero modulus
      makes `pow` fail; a secret without an inverse makes `modinv` fail.
      The result is the unique residue that, multiplied by the secret,
      gives back `c2`. */
  function Decrypt(c: Ciphertext, priv: PrivateKey): (r: Result<int>)
    requires priv.p >= 0
    ensures priv.p == 0 ==> r == Err(InvalidParameter)
    ensures priv.p >= 1 && priv.x >= 0 ==>
              (r.Err? <==> Gcd(ModExp(c.c1, priv.x, priv.p) % priv.p, priv.p) != 1)
    ensures r.Err? && priv.p >= 1 ==> r.error == NoInverse
    ensures r.Ok? ==> priv.p >= 1 && Secret(c.c1, priv).Ok?
                      && 0 <= r.value < priv.p
                      && (r.value * Secret(c.c1, priv).value) % priv.p == c.c2 % priv.p
  {
    var p := priv.p;
    if p == 0 then Err(InvalidParameter)
    else
      match Secret(c.c1, priv)
      case Err(e) => Err(e)
      case Ok(s) =>
        match ModInverse(s, p)
        case Err(e) => Err(e)
        case Ok(sInv) =>
          assert (sInv * s) % p == 1 % p by { assert sInv * s == s * sInv; }
          Cancel(c.c2, sInv, s, p);
          Ok((c.c2 * sInv) % p)
  }

  /** A ciphertext built with any ephemeral exponent decrypts to `m mod p`
      under a private exponent matching the public key, as long as `g` is
      coprime to `p`. */
  lemma {:induction false} DecryptInverts(m: int, p: int, g: int, x: nat, k: nat)
    requires p >= 1 && MathGcd(g, p) == 1
    ensures Decrypt(EncryptWith(m, p, g, ModExp(g, x, p), k), PrivateKey(p, g, x)) == Ok(m % p)
  {
    var c := EncryptWith(m, p, g, ModExp(g, x, p), k);
    var S := Pow(g, k * x) % p;
    SharedSecret(g, x, k, p);
    assert ModExp(c.c1, x, p) == S;
    assert c.c2 == (m * S) % p;
    CoprimePower(g, k * x, p);
    ModIdempotent(Pow(g, k * x), p);
    var sInv := ModInverse(S, p).value;
    Cancel(m, S, sInv, p);
  }

  /** With a prime modulus every generator in `(1, p)` is coprime to it. */
  lemma GeneratorCoprime(p: int, g: int)
    requires IsPrime(p) && 1 < g < p
    ensures MathGcd(g, p) == 1
  {
    if Divides(p, g) {
      DivisorBound(p, g);
    }
    CoprimeToPrime(p, g);
    ModSmall(g, p);
  }

  /** Decryption undoes encryption: for a prime `p`, every key pair from
      `Keygen`, every message in `(0, p)` and every ephemeral draw. */
  lemma ElGamalRoundTrip(p: int, g: int, m: int, keyDraw: nat, draw: nat)
    requires IsPrime(p) && Keygen(p, g, keyDraw).Ok? && 0 < m < p
    ensures var kp := Keygen(p, g, keyDraw).value;
            Encrypt(m, kp.pub, draw).Ok?
            && Decrypt(Encrypt(m, kp.pub, draw).value, kp.priv) == Ok(m)
  {
    var kp := Keygen(p, g, keyDraw).value;
    GeneratorCoprime(p, g);
    DecryptInverts(m, p, g, kp.priv.x, Ephemeral(p, draw));
    ModSmall(m, p);
  }

  // ---------------------------------------------------------------------
  // Alice's side and the receiving script
  // ---------------------------------------------------------------------

  /** `Alice_ElGamal(m, p, g, B)`: encryption under the public value `B`
      without the range check on `m`. */
  function AliceElGamal(m: int, p: int, g: int, B: int, draw: nat): (r: Result<Ciphertext>)
    ensures r.Err? <==> p <= 2
    ensures r.Err? ==> r.error == InvalidParameter
    ensures 0 < m < p ==> r == Encrypt(m, PublicKey(p, g, B), draw)
  {
    if p <= 2 then Err(InvalidParameter)
    else Ok(EncryptWith(m, p, g, B, Ephemeral(p, draw)))
  }

  /** Without the range check a message outside `(0, p)` comes back reduced
      modulo `p`: Alice's ciphertext of `m` decrypts to `m mod p`. */
  lemma AliceDecryptsToResidue(p: int, g: int, m: int, keyDraw: nat, draw: nat)
    requires IsPrime(p) && Keygen(p, g, keyDraw).Ok?
    ensures var kp := Keygen(p, g, keyDraw).value;
            AliceElGamal(m, p, g, kp.pub.y, draw).Ok?
            && Decrypt(AliceElGamal(m, p, g, kp.pub.y, draw).value, kp.priv) == Ok(m % p)
  {
    var kp := Keygen(p, g, keyDraw).value;
    GeneratorCoprime(p, g);
    DecryptInverts(m, p, g, kp.priv.x, Ephemeral(p, draw));
  }

  /** The receiving script's `modinv`, which reduces `a` before calling
      `egcd`: the same function as `ModInverse`. */
  function ReceiverModInverse(a: int, m: int): (r: Result<nat>)
    requires m >= 1
    ensures r == ModInverse(a, m)
  {
    var a' := a % m;
    ModIdempotent(a, m);
    var (g, x, _) := ExtendedGcd(a', m);
    if g != 1 then Err(NoInverse) else Ok(x % m)
  }

  /** `receive_and_decrypt_integer(c1, c2, priv)`: the receiving script's
      `elgamal_decrypt`, written with its own `modinv`. It agrees with
      `Decrypt` on every input. */
  function ReceiveAndDecryptInteger(c1: int, c2: int, priv: PrivateKey): (r: Result<int>)
    requires priv.p >= 0
    ensures r == Decrypt(Ciphertext(c1, c2), priv)
  {
    var p := priv.p;
    if p == 0 then Err(InvalidParameter)
    else
      match Secret(c1, priv)
      case Err(e) => Err(e)
      case Ok(s) =>
        match ReceiverModInverse(s, p)
        case Err(e) => Err(e)
        case Ok(sInv) => Ok((c2 * sInv) % p)
  }

  // ---------------------------------------------------------------------
  // Recovering the private key by exhaustive search
  // ---------------------------------------------------------------------

  /** The first exponent in `[x, hi)` whose power of `g` is `y`. */
  function SearchKey(p: int, g: int, y: int, x: nat, hi: int): (r: Option<nat>)
    requires x >= 1 && hi <= p
    ensures r.None? <==> forall e: nat :: x <= e < hi ==> ModExp(g, e, p) != y
    ensures r.Some? ==> x <= r.value < hi && ModExp(g, r.value, p) == y
                        && forall e: nat :: x <= e < r.value ==> ModExp(g, e, p) != y
    decreases hi - x
  {
    if x >= hi then None
    else if ModExp(g, x, p) == y then Some(x)
    else SearchKey(p, g, y, x + 1, hi)
  }

  /** `find_private_key(p, g, y, max_attempts)`: gives up when `p` exceeds
      the budget, and otherwise returns the least exponent in `[1, p)` whose
      power of `g` is `y`. */
  function FindPrivateKey(p: int, g: int, y: int, maxAttempts: int): (r: Option<nat>)
    ensures p > maxAttempts ==> r == None
    ensures p <= maxAttempts ==>
              (r.None? <==> forall e: nat :: 1 <= e < p ==> ModExp(g, e, p) != y)
    ensures r.Some? ==> 1 <= r.value < p && ModExp(g, r.value, p) == y
                        && forall e: nat :: 1 <= e < r.value ==> ModExp(g, e, p) != y
  {
    if p > maxAttempts then None
    else SearchKey(p, g, y, 1, if p < maxAttempts + 1 then p else maxAttempts + 1)
  }

  /** Any exponent reproducing the public value decrypts like the true
      private key: the search needs only `g^x == y`. */
  lemma EquivalentKeyDecrypts(m: int, p: int, g: int, x: nat, x': nat, k: nat)
    requires p >= 1 && MathGcd(g, p) == 1 && ModExp(g, x', p) == ModExp(g, x, p)
    ensures Decrypt(EncryptWith(m, p, g, ModExp(g, x, p), k), PrivateKey(p, g, x')) == Ok(m % p)
  {
    DecryptInverts(m, p, g, x', k);
  }

  /** The attack of the decrypting script succeeds: for a prime `p` within
      the search budget, the recovered exponent is at most the true one and
      decrypts every message encrypted under the public key. */
  lemma RecoveredKeyDecrypts(p: int, g: int, m: int, keyDraw: nat, draw: nat, maxAttempts: int)
    requires IsPrime(p) && Keygen(p, g, keyDraw).Ok? && 0 < m < p && p <= maxAttempts
    ensures var kp := Keygen(p, g, keyDraw).value;
            var found := FindPrivateKey(p, g, kp.pub.y, maxAttempts);
            && found.Some? && found.value <= kp.priv.x
            && Encrypt(m, kp.pub, draw).Ok?
            && Decrypt(Encrypt(m, kp.pub, draw).value, PrivateKey(p, g, found.value)) == Ok(m)
  {
    var kp := Keygen(p, g, keyDraw).value;
    var x := kp.priv.x;
    var found := FindPrivateKey(p, g, kp.pub.y, maxAttempts);
    assert found.Some? by {
      assert 1 <= x < p && ModExp(g, x, p) == kp.pub.y;
    }
    GeneratorCoprime(p, g);
    EquivalentKeyDecrypts(m, p, g, x, found.value, Ephemeral(p, draw));
    ModSmall(m, p);
  }

  // ---------------------------------------------------------------------
  // Messages as integers
  // ---------------------------------------------------------------------

  /** `encode_string_to_int` after the UTF-8 step: the big-endian value of
      the message bytes. */
  function EncodeMessage(bytes: seq<Byte>): (n: nat)
    ensures n < Pow2(8 * |bytes|)
  {
    FromBytesBounds(bytes);
    FromBytes(bytes)
  }

  /** `decode_int_to_string` before the UTF-8 step: the shortest big-endian
      byte string of `n`, which encodes back to `n`. */
  function DecodeMessage(n: nat): (bytes: seq<Byte>)
    ensures EncodeMessage(bytes) == n
    ensures |bytes| == ByteLength(n)
  {
    IntToBytesRoundTrip(n);
    IntToBytes(n)
  }

  /** Decoding an encoded message gives it back when its first byte is not
      zero (a leading zero byte is lost, as `LeadingZeroByteLost` shows). */
  lemma DecodeEncodeMessage(bytes: seq<Byte>)
    requires |bytes| == 0 || bytes[0] != 0
    ensures DecodeMessage(EncodeMessage(bytes)) == bytes
  {
    BytesRoundTrip(bytes);
  }

  /** `decrypt_string_message` before the UTF-8 step: decrypt, then decode. */
  function DecryptMessage(c: Ciphertext, priv: PrivateKey): (r: Result<seq<Byte>>)
    requires priv.p >= 0
    ensures r.Ok? <==> Decrypt(c, priv).Ok?
    ensures r.Ok? ==> EncodeMessage(r.value) == Decrypt(c, priv).value
  {
    match Decrypt(c, priv)
    case Err(e) => Err(e)
    case Ok(m) => Ok(DecodeMessage(m))
  }

  /** A message of bytes without a leading zero, whose value lies in
      `(0, p)`, survives encoding, encryption, decryption and decoding. */
  lemma MessageRoundTrip(bytes: seq<Byte>, p: int, g: int, keyDraw: nat, draw: nat)
    requires IsPrime(p) && Keygen(p, g, keyDraw).Ok?
    requires |bytes| > 0 && bytes[0] != 0 && EncodeMessage(bytes) < p
    ensures var kp := Keygen(p, g, keyDraw).value;
            Encrypt(EncodeMessage(bytes), kp.pub, draw).Ok?
            && DecryptMessage(Encrypt(EncodeMessage(bytes), kp.pub, draw).value, kp.priv) == Ok(bytes)
  {
    var m := EncodeMessage(bytes);
    FromBytesBounds(bytes);
    Pow2Monotone(0, 8 * (|bytes| - 1));
    ElGamalRoundTrip(p, g, m, keyDraw, draw);
    DecodeEncodeMessage(bytes);
  }
}
