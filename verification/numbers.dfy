/**
 Fixed-width numbers of the binary booking format.

 A price is a C++ `double`; the model keeps the eight bytes of its
 IEEE 754 binary64 image in little-endian order, which is exactly what the
 decoder's `reinterpret_cast` copies out of the stream. The via-station
 count is a two's-complement 32-bit integer, also read little-endian (the
 program reads both in host byte order; the model fixes one).
 */
module Numbers {

  newtype byte = x: int | 0 <= x < 256

  /** The byte image of a binary64 value, least significant byte first. */
  type Float64 = s: seq<byte> | |s| == 8 witness [0, 0, 0, 0, 0, 0, 0, 0]

  /**
   The 11-bit biased exponent field of a binary64 value: the low seven
   bits of the last byte followed by the high four bits of the one before.
   */
  function Exponent(d: Float64): (e: nat)
    ensures e < 0x800
  {
    (d[7] as int % 0x80) * 16 + d[6] as int / 16
  }

  /**
   `std::isfinite`: a binary64 value is finite exactly when its exponent
   field is not all ones (all-ones encodes the infinities and the NaNs).
   */
  predicate IsFinite(d: Float64)
  {
    Exponent(d) != 0x7FF
  }

  /** Exponent all ones, expressed on the two bytes that hold it. */
  lemma NonFiniteBytes(d: Float64)
    ensures !IsFinite(d) <==> (d[7] as int % 0x80 == 0x7F && d[6] >= 0xF0)
  {
  }

  /** +1.0 and the largest finite value are finite, +infinity and a quiet NaN are not. */
  lemma FiniteExamples()
    ensures IsFinite([0, 0, 0, 0, 0, 0, 0xF0, 0x3F])
    ensures IsFinite([0xFF, 0xFF, 0xFF, 0xFF, 0xFF, 0xFF, 0xEF, 0x7F])
    ensures !IsFinite([0, 0, 0, 0, 0, 0, 0xF0, 0x7F])
    ensures !IsFinite([0, 0, 0, 0, 0, 0, 0xF8, 0xFF])
  {
  }

  const TWO_31: int := 0x8000_0000
  const TWO_32: int := 0x1_0000_0000

  predicate IsInt32(n: int)
  {
    -TWO_31 <= n < TWO_31
  }

  /** 256 to the power `k`: one more than the largest value `k` bytes hold. */
  function Pow256(k: nat): (p: nat)
    ensures p >= 1
  {
    if k == 0 then 1 else 256 * Pow256(k - 1)
  }

  /** The unsigned value of little-endian bytes: the first byte is the least significant. */
  function Unsigned(b: seq<byte>): (u: nat)
    ensures u < Pow256(|b|)
  {
    if b == [] then 0 else b[0] as int + 256 * Unsigned(b[1..])
  }

  /** The `k` low-order base-256 digits of `u`, least significant first. */
  function Digits(u: nat, k: nat): (b: seq<byte>)
    ensures |b| == k
  {
    if k == 0 then [] else [(u % 256) as byte] + Digits(u / 256, k - 1)
  }

  /** Digits are read back as the number they came from, when it fits. */
  lemma {:induction false} UnsignedOfDigits(u: nat, k: nat)
    requires u < Pow256(k)
    ensures Unsigned(Digits(u, k)) == u
  {
    if k > 0 {
      var d := Digits(u, k);
      assert d[1..] == Digits(u / 256, k - 1);
      UnsignedOfDigits(u / 256, k - 1);
    }
  }

  /** The value of four bytes, weight by weight: the last byte carries the top bit. */
  lemma Unsigned4(b: seq<byte>)
    requires |b| == 4
    ensures Unsigned(b) == b[0] as int + 0x100 * b[1] as int + 0x1_0000 * b[2] as int + 0x100_0000 * b[3] as int
  {
    var b1, b2, b3 := b[1..], b[2..], b[3..];
    assert b1[1..] == b2 && b2[1..] == b3 && b3[1..] == [];
    assert Unsigned(b3) == b[3] as int;
    assert Unsigned(b2) == b[2] as int + 256 * b[3] as int;
    assert Unsigned(b1) == b[1] as int + 256 * Unsigned(b2);
  }

  /** `std::int32_t` read from four little-endian bytes (two's complement). */
  function DecodeInt32(b: seq<byte>): (n: int)
    requires |b| == 4
    ensures IsInt32(n)
    ensures n < 0 <==> b[3] >= 0x80
  {
    Unsigned4(b);
    var u := Unsigned(b);
    if u >= TWO_31 then u - TWO_32 else u
  }

  /** Little-endian two's-complement image of a 32-bit integer. */
  function EncodeInt32(n: int): (b: seq<byte>)
    requires IsInt32(n)
    ensures |b| == 4
  {
    Digits(n % TWO_32, 4)
  }

  /** The signed value is the unsigned one taken modulo 2^32: two's complement. */
  lemma DecodeInt32IsModular(b: seq<byte>)
    requires |b| == 4
    ensures DecodeInt32(b) % TWO_32 == Unsigned(b)
  {
  }

  lemma Int32RoundTrip(n: int)
    requires IsInt32(n)
    ensures DecodeInt32(EncodeInt32(n)) == n
  {
    assert Pow256(4) == TWO_32;
    UnsignedOfDigits(n % TWO_32, 4);
  }
}
