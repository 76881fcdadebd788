/** Option/Result wrappers and the model of C++ `char`, `uint8_t` and XOR shared by every module. */
module Wrappers {

  datatype Option<+T> = None | Some(value: T)

  /** A value or the exception the C++ code would throw instead. */
  datatype Result<+T, +E> = Success(value: T) | Failure(error: E)
}

module Bytes {

  /** An `uint8_t`, as its value. */
  type Byte = x: int | 0 <= x < 256

  /**
   * A C++ `char`, identified with its 8-bit pattern: the casts between `char` and
   * `uint8_t` used by the code keep the bit pattern whether `char` is signed or not.
   */
  type CChar = c: char | c as int < 256 witness 'a'

  /** A `std::string`: a sequence of `char`s. */
  type CString = seq<CChar>

  const NUL: CChar := 0 as char

  /** `static_cast<uint8_t>(c)` */
  function ToByte(c: CChar): Byte
  {
    c as int
  }

  /** `static_cast<char>(b)` */
  function FromByte(b: Byte): CChar
  {
    b as char
  }

  /** The bytes of a string, one cast per character. */
  function ToBytes(s: CString): (r: seq<Byte>)
    ensures |r| == |s|
    ensures forall i :: 0 <= i < |s| ==> r[i] == s[i] as int
  {
    seq(|s|, i requires 0 <= i < |s| => ToByte(s[i]))
  }

  /** The string of some bytes, one cast per byte. */
  function FromBytes(b: seq<Byte>): (r: CString)
    ensures |r| == |b|
    ensures forall i :: 0 <= i < |b| ==> r[i] as int == b[i]
  {
    seq(|b|, i requires 0 <= i < |b| => FromByte(b[i]))
  }

  /** Converting a string to bytes and back gives the same string. */
  lemma StringBytesRoundTrip(s: CString)
    ensures FromBytes(ToBytes(s)) == s
  {
    var r := FromBytes(ToBytes(s));
    forall i | 0 <= i < |s|
      ensures r[i] == s[i]
    {
      assert r[i] as int == s[i] as int;
    }
  }

  /** Converting bytes to a string and back gives the same bytes. */
  lemma BytesStringRoundTrip(b: seq<Byte>)
    ensures ToBytes(FromBytes(b)) == b
  {
  }

  lemma ToBytesAppend(s: CString, t: CString)
    ensures ToBytes(s + t) == ToBytes(s) + ToBytes(t)
  {
  }

  // ----- Bits -----

  function Pow2(k: nat): (r: nat)
    ensures r >= 1
  {
    if k == 0 then 1 else 2 * Pow2(k - 1)
  }

  /** `(x >> k) & 1`: bit `k` of `x`. */
  predicate Bit(x: nat, k: nat)
  {
    if k == 0 then x % 2 == 1 else Bit(x / 2, k - 1)
  }

  /** The low `width` bits of `a ^ b`, computed from the least significant bit up. */
  function XorBits(a: nat, b: nat, width: nat): (r: nat)
    ensures r < Pow2(width)
  {
    if width == 0 then 0
    else (if a % 2 != b % 2 then 1 else 0) + 2 * XorBits(a / 2, b / 2, width - 1)
  }

  /** `a ^ b` on two `uint8_t`s. */
  function Xor(a: Byte, b: Byte): Byte
  {
    assert Pow2(8) == 256;
    XorBits(a, b, 8)
  }

  /** Bit `k` of `a ^ b` is set exactly when one of bits `k` of `a` and `b` is. */
  lemma {:induction false} XorBitsBit(a: nat, b: nat, width: nat, k: nat)
    requires k < width
    ensures Bit(XorBits(a, b, width), k) <==> Bit(a, k) != Bit(b, k)
  {
    if k > 0 {
      XorBitsBit(a / 2, b / 2, width - 1, k - 1);
    }
  }

  /** XORing twice with the same value gives back the low bits of the first. */
  lemma {:induction false} XorBitsTwice(a: nat, b: nat, width: nat)
    ensures XorBits(XorBits(a, b, width), b, width) == a % Pow2(width)
  {
    if width > 0 {
      var x := XorBits(a, b, width);
      assert x % 2 == (if a % 2 != b % 2 then 1 else 0);
      assert x / 2 == XorBits(a / 2, b / 2, width - 1);
      XorBitsTwice(a / 2, b / 2, width - 1);
      DivMod2(a, width);
    }
  }

  lemma DivMod2(a: nat, width: nat)
    requires width > 0
    ensures a % Pow2(width) == a % 2 + 2 * ((a / 2) % Pow2(width - 1))
  {
    var p := Pow2(width - 1);
    var q := (a / 2) / p;
    var r := a % 2 + 2 * ((a / 2) % p);
    assert a == q * (2 * p) + r by {
      assert a / 2 == q * p + (a / 2) % p;
      assert a == 2 * (a / 2) + a % 2;
    }
    ModUnique(a, 2 * p, q, r);
  }

  /** The remainder is the only value in range that completes a multiple of the divisor. */
  lemma ModUnique(a: nat, d: nat, q: nat, r: nat)
    requires d > 0 && a == q * d + r && r < d
    ensures a % d == r
  {
    var q', r' := a / d, a % d;
    assert a == q' * d + r';
    if q' < q {
      MulStep(q', q, d);
    } else if q < q' {
      MulStep(q, q', d);
    }
  }

  lemma MulStep(x: nat, y: nat, d: nat)
    requires x < y
    ensures x * d + d <= y * d
  {
    assert (x + 1) * d == x * d + d;
    assert (x + 1) * d <= y * d;
  }

  /** XORing a byte twice with the same key byte gives it back. */
  lemma XorTwice(a: Byte, b: Byte)
    ensures Xor(Xor(a, b), b) == a
  {
    assert Xor(Xor(a, b), b) == XorBits(XorBits(a, b, 8), b, 8);
    XorBitsTwice(a, b, 8);
    Pow2Eight();
  }

  lemma Pow2Eight()
    ensures Pow2(8) == 256
  {
  }
}
