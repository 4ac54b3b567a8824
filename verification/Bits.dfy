/** Python's integer bit operations on non-negative values, and the
    big-endian byte conversions `int.from_bytes(b, "big")` and
    `n.to_bytes(length, "big")` used by the ElGamal message encoding. */
module Bits {
  import opened NumberTheory

  // ---------------------------------------------------------------------
  // Bits of a non-negative integer
  // ---------------------------------------------------------------------

  /** Bit `i` of `x`: `(x >> i) & 1 == 1`. */
  predicate TestBit(x: nat, i: nat) {
    (x / Pow2(i)) % 2 == 1
  }

  /** Python's `a | b` on non-negative integers, one bit at a time from the
      least significant end. */
  function BitOr(a: nat, b: nat): nat
    decreases a + b
  {
    if a == 0 then b
    else if b == 0 then a
    else 2 * BitOr(a / 2, b / 2) + (if a % 2 == 1 || b % 2 == 1 then 1 else 0)
  }

  /** `n.bit_length()`: the number of binary digits of `n`, 0 for 0. */
  function BitLength(n: nat): (k: nat)
    ensures n == 0 <==> k == 0
    decreases n
  {
    if n == 0 then 0 else 1 + BitLength(n / 2)
  }

  lemma DivDiv(x: int, a: int, b: int)
    requires a > 0 && b > 0
    ensures x / (a * b) == (x / a) / b
  {
    var q1, r1 := x / a, x % a;
    var q2, r2 := q1 / b, q1 % b;
    NestedDivision(x, a, b, q1, r1, q2, r2);
    DivModUnique(x, a * b, q2, a * r2 + r1);
  }

  /** Two nested divisions compose into one by the product. */
  lemma NestedDivision(x: int, a: int, b: int, q1: int, r1: int, q2: int, r2: int)
    requires a > 0 && b > 0
    requires x == a * q1 + r1 && 0 <= r1 < a
    requires q1 == b * q2 + r2 && 0 <= r2 < b
    ensures x == (a * b) * q2 + (a * r2 + r1) && 0 <= a * r2 + r1 < a * b
  {
    assert a * q1 == (a * b) * q2 + a * r2;
    assert a * r2 <= a * (b - 1) by { MulBelow(a, r2, b - 1); }
  }

  lemma MulBelow(a: int, x: int, y: int)
    requires a > 0 && 0 <= x <= y
    ensures 0 <= a * x <= a * y
  {
  }

  /** Bit `i+1` of `x` is bit `i` of `x >> 1`. */
  lemma TestBitShift(x: nat, i: nat)
    ensures TestBit(x, i + 1) == TestBit(x / 2, i)
  {
    DivDiv(x, 2, Pow2(i));
    assert Pow2(i + 1) == 2 * Pow2(i);
  }

  lemma BitOrHalves(a: nat, b: nat)
    ensures BitOr(a, b) / 2 == BitOr(a / 2, b / 2)
    ensures BitOr(a, b) % 2 == (if a % 2 == 1 || b % 2 == 1 then 1 else 0)
  {
    if a != 0 && b != 0 {
      var r := BitOr(a, b);
      DivModUnique(r, 2, BitOr(a / 2, b / 2), if a % 2 == 1 || b % 2 == 1 then 1 else 0);
    }
  }

  /** `a | b` has exactly the bits that `a` or `b` has. */
  lemma {:induction false} BitOrTestBit(a: nat, b: nat, i: nat)
    ensures TestBit(BitOr(a, b), i) <==> TestBit(a, i) || TestBit(b, i)
    decreases i
  {
    BitOrHalves(a, b);
    if i > 0 {
      TestBitShift(BitOr(a, b), i - 1);
      TestBitShift(a, i - 1);
      TestBitShift(b, i - 1);
      BitOrTestBit(a / 2, b / 2, i - 1);
    }
  }

  /** `a | b` stays below `2^k` when both operands do. */
  lemma {:induction false} BitOrBound(a: nat, b: nat, k: nat)
    requires a < Pow2(k) && b < Pow2(k)
    ensures BitOr(a, b) < Pow2(k)
    decreases k
  {
    if k > 0 && a != 0 && b != 0 {
      BitOrBound(a / 2, b / 2, k - 1);
    }
  }

  /** Bit `i` of `2^i` is set: `1 << i` has bit `i`. */
  lemma PowerHasBit(i: nat)
    ensures TestBit(Pow2(i), i)
  {
    DivModUnique(Pow2(i), Pow2(i), 1, 0);
  }

  /** A set bit `i` makes the value at least `2^i`. */
  lemma TestBitAtLeast(x: nat, i: nat)
    requires TestBit(x, i)
    ensures x >= Pow2(i)
  {
    if x < Pow2(i) {
      ModSmall(x, Pow2(i));
    }
  }

  /** The two lowest bits determine the residue modulo 4. */
  lemma LowBitsModFour(x: nat)
    ensures x % 4 == (if TestBit(x, 0) then 1 else 0) + (if TestBit(x, 1) then 2 else 0)
  {
    assert Pow2(1) == 2;
    var h := x / 2;
    DivDiv(x, 2, 2);
    assert x == 4 * (h / 2) + 2 * (h % 2) + x % 2;
    DivModUnique(x, 4, h / 2, 2 * (h % 2) + x % 2);
  }

  /** `bit_length` brackets its argument: `2^(k-1) <= n < 2^k`. */
  lemma {:induction false} BitLengthBounds(n: nat)
    ensures n < Pow2(BitLength(n))
    ensures n > 0 ==> Pow2(BitLength(n) - 1) <= n
    decreases n
  {
    if n > 0 {
      BitLengthBounds(n / 2);
    }
  }

  /** The bracket determines `bit_length`. */
  lemma {:induction false} BitLengthFromBounds(n: nat, k: nat)
    requires k >= 1 && Pow2(k - 1) <= n < Pow2(k)
    ensures BitLength(n) == k
    decreases k
  {
    if k > 1 {
      BitLengthFromBounds(n / 2, k - 1);
    }
  }

  // ---------------------------------------------------------------------
  // Big-endian bytes
  // ---------------------------------------------------------------------

  type Byte = x: int | 0 <= x < 256

  /** `int.from_bytes(s, byteorder="big")`. */
  function FromBytes(s: seq<Byte>): nat
    decreases |s|
  {
    if |s| == 0 then 0 else FromBytes(s[..|s| - 1]) * 256 + s[|s| - 1]
  }

  /** `n.to_bytes(length, byteorder="big")` for a value that fits. */
  function ToBytes(n: nat, length: nat): (s: seq<Byte>)
    ensures |s| == length
    decreases length
  {
    if length == 0 then [] else ToBytes(n / 256, length - 1) + [n % 256]
  }

  /** The byte length `decode_int_to_string` chooses: `(bit_length + 7) // 8`. */
  function ByteLength(n: nat): nat {
    (BitLength(n) + 7) / 8
  }

  /** The byte string `decode_int_to_string` builds before its UTF-8 decode. */
  function IntToBytes(n: nat): (s: seq<Byte>)
    ensures |s| == ByteLength(n)
  {
    ToBytes(n, ByteLength(n))
  }

  lemma Pow2Bytes(k: nat)
    ensures Pow2(8 * (k + 1)) == 256 * Pow2(8 * k)
  {
    Pow2Add(8, 8 * k);
    assert 8 * (k + 1) == 8 + 8 * k;
  }

  /** A `length`-byte string encodes a value below `256^length`, and one
      with a non-zero first byte encodes at least `256^(length-1)`. */
  lemma {:induction false} FromBytesBounds(s: seq<Byte>)
    ensures FromBytes(s) < Pow2(8 * |s|)
    ensures |s| > 0 && s[0] != 0 ==> Pow2(8 * (|s| - 1)) <= FromBytes(s)
    decreases |s|
  {
    if |s| > 0 {
      var init := s[..|s| - 1];
      FromBytesBounds(init);
      Pow2Bytes(|init|);
      if |s| > 1 {
        assert init[0] == s[0];
        Pow2Bytes(|init| - 1);
        assert |init| - 1 + 1 == |init|;
      }
    }
  }

  /** Decoding the bytes of a value that fits gives the value back. */
  lemma {:induction false} FromToBytes(n: nat, length: nat)
    requires n < Pow2(8 * length)
    ensures FromBytes(ToBytes(n, length)) == n
    decreases length
  {
    if length > 0 {
      Pow2Bytes(length - 1);
      assert n / 256 < Pow2(8 * (length - 1));
      FromToBytes(n / 256, length - 1);
      var s := ToBytes(n, length);
      assert s[..|s| - 1] == ToBytes(n / 256, length - 1);
    }
  }

  /** Encoding the value of a byte string at its own length gives the bytes back. */
  lemma {:induction false} ToFromBytes(s: seq<Byte>)
    ensures ToBytes(FromBytes(s), |s|) == s
    decreases |s|
  {
    if |s| > 0 {
      var init := s[..|s| - 1];
      ToFromBytes(init);
      DivModUnique(FromBytes(s), 256, FromBytes(init), s[|s| - 1]);
      assert s == init + [s[|s| - 1]];
    }
  }

  /** `encode(decode(n)) == n`: the bytes `decode_int_to_string` produces
      read back as `n`, for every `n >= 0`. */
  lemma IntToBytesRoundTrip(n: nat)
    ensures FromBytes(IntToBytes(n)) == n
  {
    var k := BitLength(n);
    BitLengthBounds(n);
    var len := ByteLength(n);
    DivModUnique(k + 7, 8, len, (k + 7) % 8);
    Pow2Monotone(k, 8 * len);
    FromToBytes(n, len);
  }

  /** A bit length in `(8(L-1), 8L]` needs exactly `L` bytes. */
  lemma ByteCount(k: int, L: int)
    requires L >= 1 && 8 * (L - 1) < k <= 8 * L
    ensures (k + 7) / 8 == L
  {
    DivModUnique(k + 7, 8, L, k + 7 - 8 * L);
  }

  /** A byte string without a leading zero needs all of its bytes. */
  lemma ByteLengthOfFromBytes(s: seq<Byte>)
    requires |s| > 0 && s[0] != 0
    ensures ByteLength(FromBytes(s)) == |s|
  {
    var n := FromBytes(s);
    var k, L := BitLength(n), |s|;
    FromBytesBounds(s);
    BitLengthBounds(n);
    assert Pow2(8 * (L - 1)) <= n < Pow2(8 * L);
    assert n < Pow2(k);
    assert Pow2(k - 1) <= n;
    if k <= 8 * (L - 1) {
      Pow2Monotone(k, 8 * (L - 1));
    }
    if k - 1 >= 8 * L {
      Pow2Monotone(8 * L, k - 1);
    }
    ByteCount(k, L);
  }

  /** `decode(encode(s)) == s` for byte strings without a leading zero byte. */
  lemma BytesRoundTrip(s: seq<Byte>)
    requires |s| == 0 || s[0] != 0
    ensures IntToBytes(FromBytes(s)) == s
  {
    if |s| > 0 {
      ByteLengthOfFromBytes(s);
    }
    ToFromBytes(s);
  }

  /** A leading zero byte is lost: the two encodings of 0 differ. */
  lemma LeadingZeroByteLost()
    ensures FromBytes([0]) == 0 && IntToBytes(0) == []
  {
  }
}
