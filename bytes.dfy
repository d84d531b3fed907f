/**
 * Bytes and the fixed-width two's-complement integers that encoding/binary
 * writes and reads in big- or little-endian order.
 */
module Bytes {

  type byte = x: int | 0 <= x < 256

  /** binary.BigEndian and binary.LittleEndian. */
  datatype Endian = BigEndian | LittleEndian

  function Pow256(k: nat): (r: nat)
    ensures r >= 1
  {
    if k == 0 then 1 else 256 * Pow256(k - 1)
  }

  /** The k least significant base-256 digits of n, least significant first. */
  function DigitsLE(n: nat, k: nat): (s: seq<byte>)
    ensures |s| == k
  {
    if k == 0 then [] else [n % 256] + DigitsLE(n / 256, k - 1)
  }

  /** The unsigned value of a little-endian digit sequence. */
  function ValueLE(s: seq<byte>): (n: nat)
    ensures n < Pow256(|s|)
  {
    if s == [] then 0 else s[0] + 256 * ValueLE(s[1..])
  }

  lemma {:induction false} ValueOfDigits(n: nat, k: nat)
    requires n < Pow256(k)
    ensures ValueLE(DigitsLE(n, k)) == n
  {
    if k > 0 {
      assert n / 256 < Pow256(k - 1);
      ValueOfDigits(n / 256, k - 1);
      assert DigitsLE(n, k)[1..] == DigitsLE(n / 256, k - 1);
    }
  }

  lemma {:induction false} DigitsOfValue(s: seq<byte>)
    ensures DigitsLE(ValueLE(s), |s|) == s
  {
    if s != [] {
      var v := ValueLE(s);
      assert v % 256 == s[0] && v / 256 == ValueLE(s[1..]);
      DigitsOfValue(s[1..]);
    }
  }

  /** The k least significant base-256 digits of n, most significant first. */
  function DigitsBE(n: nat, k: nat): (s: seq<byte>)
    ensures |s| == k
  {
    if k == 0 then [] else DigitsBE(n / 256, k - 1) + [n % 256]
  }

  /** The unsigned value of a big-endian digit sequence. */
  function ValueBE(s: seq<byte>): (n: nat)
    ensures n < Pow256(|s|)
  {
    if s == [] then 0 else 256 * ValueBE(s[..|s| - 1]) + s[|s| - 1]
  }

  lemma {:induction false} ValueOfDigitsBE(n: nat, k: nat)
    requires n < Pow256(k)
    ensures ValueBE(DigitsBE(n, k)) == n
  {
    if k > 0 {
      var s := DigitsBE(n, k);
      assert n / 256 < Pow256(k - 1);
      ValueOfDigitsBE(n / 256, k - 1);
      assert s[..|s| - 1] == DigitsBE(n / 256, k - 1);
    }
  }

  lemma {:induction false} DigitsOfValueBE(s: seq<byte>)
    ensures DigitsBE(ValueBE(s), |s|) == s
  {
    if s != [] {
      var v := ValueBE(s);
      assert v % 256 == s[|s| - 1] && v / 256 == ValueBE(s[..|s| - 1]);
      DigitsOfValueBE(s[..|s| - 1]);
    }
  }

  /** The k-digit unsigned encoding of n in byte order e. */
  function Digits(n: nat, k: nat, e: Endian): (s: seq<byte>)
    ensures |s| == k
  {
    if e == LittleEndian then DigitsLE(n, k) else DigitsBE(n, k)
  }

  /** The unsigned value of s read in byte order e. */
  function Value(s: seq<byte>, e: Endian): (n: nat)
    ensures n < Pow256(|s|)
  {
    if e == LittleEndian then ValueLE(s) else ValueBE(s)
  }

  lemma ValueOfDigitsIn(n: nat, k: nat, e: Endian)
    requires n < Pow256(k)
    ensures Value(Digits(n, k, e), e) == n
  {
    if e == LittleEndian { ValueOfDigits(n, k); } else { ValueOfDigitsBE(n, k); }
  }

  lemma DigitsOfValueIn(s: seq<byte>, e: Endian)
    ensures Digits(Value(s, e), |s|, e) == s
  {
    if e == LittleEndian { DigitsOfValue(s); } else { DigitsOfValueBE(s); }
  }

  /** v is representable as a signed integer of k bytes. */
  predicate FitsSigned(v: int, k: nat)
  {
    k > 0 && -(Pow256(k) / 2) <= v < Pow256(k) / 2
  }

  /** The k-byte two's-complement encoding of v in byte order e (what binary.Write emits). */
  function EncodeInt(v: int, k: nat, e: Endian): (r: seq<byte>)
    requires FitsSigned(v, k)
    ensures |r| == k
  {
    Digits(if v < 0 then v + Pow256(k) else v, k, e)
  }

  /** The signed value of |s| bytes in byte order e (what binary.Read decodes). */
  function DecodeInt(s: seq<byte>, e: Endian): (v: int)
    requires |s| > 0
    ensures FitsSigned(v, |s|)
  {
    var u := Value(s, e);
    Pow256Even(|s|);
    if u >= Pow256(|s|) / 2 then u - Pow256(|s|) else u
  }

  lemma Pow256Even(k: nat)
    requires k > 0
    ensures Pow256(k) == 2 * (Pow256(k) / 2)
  {
    assert Pow256(k) == 2 * (128 * Pow256(k - 1));
  }

  lemma DecodeEncode(v: int, k: nat, e: Endian)
    requires FitsSigned(v, k)
    ensures DecodeInt(EncodeInt(v, k, e), e) == v
  {
    ValueOfDigitsIn(if v < 0 then v + Pow256(k) else v, k, e);
  }

  lemma EncodeDecode(s: seq<byte>, e: Endian)
    requires |s| > 0
    ensures EncodeInt(DecodeInt(s, e), |s|, e) == s
  {
    DigitsOfValueIn(s, e);
  }

  lemma Pow256Values()
    ensures Pow256(2) == 0x1_0000
    ensures Pow256(4) == 0x1_0000_0000
  {
    assert Pow256(1) == 256;
    assert Pow256(3) == 0x100_0000;
  }

  /** A signed 32-bit integer (Go int32). */
  predicate IsInt32(v: int)
  {
    -0x8000_0000 <= v < 0x8000_0000
  }

  /** A signed 16-bit integer (Go int16). */
  predicate IsInt16(v: int)
  {
    -0x8000 <= v < 0x8000
  }

  lemma FitsWidths(v: int)
    ensures FitsSigned(v, 4) <==> IsInt32(v)
    ensures FitsSigned(v, 2) <==> IsInt16(v)
  {
    Pow256Values();
  }

  /** Go's conversion int32(x): wraps x modulo 2^32 into the signed range. */
  function ToInt32(x: int): (r: int)
    ensures IsInt32(r)
    ensures (x - r) % 0x1_0000_0000 == 0
    ensures IsInt32(x) ==> r == x
  {
    (x + 0x8000_0000) % 0x1_0000_0000 - 0x8000_0000
  }

  /** binary.Write of an int32 in byte order e. */
  function EncodeInt32(v: int, e: Endian): (r: seq<byte>)
    requires IsInt32(v)
    ensures |r| == 4 && DecodeInt(r, e) == v
  {
    FitsWidths(v);
    DecodeEncode(v, 4, e);
    EncodeInt(v, 4, e)
  }

  /** binary.Write of an int16 in byte order e. */
  function EncodeInt16(v: int, e: Endian): (r: seq<byte>)
    requires IsInt16(v)
    ensures |r| == 2 && DecodeInt(r, e) == v
  {
    FitsWidths(v);
    DecodeEncode(v, 2, e);
    EncodeInt(v, 2, e)
  }

  /** Decoding four bytes always yields an int32, and the encoding of that value gives the bytes back. */
  lemma DecodeInt32(s: seq<byte>, e: Endian)
    requires |s| == 4
    ensures IsInt32(DecodeInt(s, e))
    ensures EncodeInt32(DecodeInt(s, e), e) == s
  {
    FitsWidths(DecodeInt(s, e));
    EncodeDecode(s, e);
  }

  /** Decoding two bytes always yields an int16, and the encoding of that value gives the bytes back. */
  lemma DecodeInt16(s: seq<byte>, e: Endian)
    requires |s| == 2
    ensures IsInt16(DecodeInt(s, e))
    ensures EncodeInt16(DecodeInt(s, e), e) == s
  {
    FitsWidths(DecodeInt(s, e));
    EncodeDecode(s, e);
  }

  /** The four digits of n in each byte order: little-endian is big-endian reversed. */
  lemma Digits4(n: nat)
    ensures var be := DigitsBE(n, 4);
      DigitsLE(n, 4) == [be[3], be[2], be[1], be[0]]
  {
    var n1, n2, n3 := n / 256, n / 256 / 256, n / 256 / 256 / 256;
    assert DigitsLE(n3, 1) == [n3 % 256];
    assert DigitsLE(n2, 2) == [n2 % 256, n3 % 256];
    assert DigitsLE(n1, 3) == [n1 % 256, n2 % 256, n3 % 256];
    assert DigitsLE(n, 4) == [n % 256, n1 % 256, n2 % 256, n3 % 256];
    assert DigitsBE(n3, 1) == [n3 % 256];
    assert DigitsBE(n2, 2) == [n3 % 256, n2 % 256];
    assert DigitsBE(n1, 3) == [n3 % 256, n2 % 256, n1 % 256];
    assert DigitsBE(n, 4) == [n3 % 256, n2 % 256, n1 % 256, n % 256];
  }

  /**
   * Both ends must agree on the byte order: an int32 written big-endian reads
   * back little-endian as itself only when its four bytes are a palindrome.
   */
  lemma ByteOrderMatters(v: int)
    requires IsInt32(v)
    ensures var s := EncodeInt32(v, BigEndian);
      DecodeInt(s, LittleEndian) == v ==> s == [s[3], s[2], s[1], s[0]]
  {
    var s := EncodeInt32(v, BigEndian);
    FitsWidths(v);
    if DecodeInt(s, LittleEndian) == v {
      EncodeDecode(s, LittleEndian);
      assert EncodeInt(v, 4, LittleEndian) == s;
      Digits4(if v < 0 then v + Pow256(4) else v);
    }
  }

  /**
   * An instance: the length 1 written big-endian
   * reads back little-endian as 16777216.
   */
  lemma EndianMismatch()
    ensures DecodeInt(EncodeInt32(1, BigEndian), LittleEndian) == 0x100_0000
  {
    var s := EncodeInt32(1, BigEndian);
    assert DigitsBE(1, 4) == [0, 0, 0, 1];
    assert s == [0, 0, 0, 1];
    assert ValueLE([1]) == 1;
    assert ValueLE([0, 1]) == 256;
    assert ValueLE([0, 0, 1]) == 0x1_0000;
    assert ValueLE(s) == 0x100_0000;
    Pow256Values();
  }
}
