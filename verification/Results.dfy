/** Failure-carrying values shared by every component.

    The source signals failure in three ways: by raising `ValueError` (or an
    `AssertionError`), by returning `None`, and by looping forever in its
    prime searches. The first becomes `Err(kind)`, the second `Option.None`,
    and the third, once a retry loop is capped, `Err(Exhausted)`. */
module Results {

  datatype Option<+T> = None | Some(value: T)

  /** The reasons a computation of the core can fail. */
  datatype Error =
    | NoInverse          // modular inverse requested for non-coprime arguments
    | NonCoprimeModuli   // CRT moduli share a factor
    | InvalidParameter   // malformed key-generation or bit-length input
    | RangeError         // message outside its admissible interval
    | InvalidSeed        // BBS seed not coprime to the modulus
    | AssertionFailed    // a Python `assert` on the generator state fails
    | NotPrime           // a receiver-supplied RSA factor is not prime
    | EqualFactors       // both RSA factors are the same prime
    | InvalidExponent    // RSA public exponent rejected
    | Exhausted          // a capped retry loop ran out of attempts

  datatype Result<+T> = Ok(value: T) | Err(error: Error)
}
