/**
 * The endian codec of the ELF decoder (src/endianness.rs): turning a fixed
 * 2-, 4- or 8-byte array into an unsigned integer under a chosen byte order.
 *
 * The source builds each result with shifts and bitwise OR over disjoint bit
 * ranges; here each result is the equal sum `b[i] * 256^k`. Every read is
 * specified against an independent reference, the positional value of the
 * byte sequence (`LittleValue`, `BigValue`), and paired with an encoder
 * (`Write16`, `Write32`, `Write64`) so that the round trips can be stated.
 */
module EndianCodec {

  /** An unsigned 8-bit value, Rust's `u8`. */
  type byte = x: int | 0 <= x < 0x100

  /** Rust's `[u8; 2]`, `[u8; 4]` and `[u8; 8]`. */
  type Bytes2 = s: seq<byte> | |s| == 2 witness [0, 0]
  type Bytes4 = s: seq<byte> | |s| == 4 witness [0, 0, 0, 0]
  type Bytes8 = s: seq<byte> | |s| == 8 witness [0, 0, 0, 0, 0, 0, 0, 0]

  datatype Endianness = LittleEndian | BigEndian

  // ---------------------------------------------------------------------
  // Reference definitions
  // ---------------------------------------------------------------------

  /** 256^n, the number of distinct n-byte values. */
  function Pow256(n: nat): (p: nat)
    ensures p >= 1
  {
    if n == 0 then 1 else 0x100 * Pow256(n - 1)
  }

  /** The value of `s` read with its first byte least significant. */
  function LittleValue(s: seq<byte>): nat
  {
    if s == [] then 0 else s[0] + 0x100 * LittleValue(s[1..])
  }

  /** The value of `s` read with its first byte most significant. */
  function BigValue(s: seq<byte>): nat
  {
    if s == [] then 0 else s[|s| - 1] + 0x100 * BigValue(s[..|s| - 1])
  }

  /** The value of `s` under byte order `endian`. */
  function Value(s: seq<byte>, endian: Endianness): nat
  {
    match endian
    case LittleEndian => LittleValue(s)
    case BigEndian => BigValue(s)
  }

  /** The bytes of `s` in the opposite order. */
  function Reverse(s: seq<byte>): seq<byte>
  {
    seq(|s|, i requires 0 <= i < |s| => s[|s| - 1 - i])
  }

  /** The n bytes of `x`, least significant first. */
  function EncodeLittle(x: nat, n: nat): (s: seq<byte>)
    requires x < Pow256(n)
    ensures |s| == n
  {
    if n == 0 then [] else [x % 0x100] + EncodeLittle(x / 0x100, n - 1)
  }

  /** The n bytes of `x` in byte order `endian`. */
  function Encode(x: nat, n: nat, endian: Endianness): (s: seq<byte>)
    requires x < Pow256(n)
    ensures |s| == n
  {
    match endian
    case LittleEndian => EncodeLittle(x, n)
    case BigEndian => Reverse(EncodeLittle(x, n))
  }

  // ---------------------------------------------------------------------
  // Properties of the reference definitions
  // ---------------------------------------------------------------------

  /** An n-byte little-endian value fits in n bytes. */
  lemma {:induction false} LittleValueBound(s: seq<byte>)
    ensures LittleValue(s) < Pow256(|s|)
  {
    if s != [] {
      LittleValueBound(s[1..]);
    }
  }

  /** Reading big-endian is reading the reversed bytes little-endian. */
  lemma {:induction false} BigIsReversedLittle(s: seq<byte>)
    ensures BigValue(s) == LittleValue(Reverse(s))
  {
    if s != [] {
      var r := Reverse(s);
      assert r[1..] == Reverse(s[..|s| - 1]);
      BigIsReversedLittle(s[..|s| - 1]);
    }
  }

  /** Reversing twice gives the bytes back. */
  lemma ReverseReverse(s: seq<byte>)
    ensures Reverse(Reverse(s)) == s
  {
  }

  /** Whatever the byte order, an n-byte value fits in n bytes. */
  lemma ValueBound(s: seq<byte>, endian: Endianness)
    ensures Value(s, endian) < Pow256(|s|)
  {
    if endian == BigEndian {
      BigIsReversedLittle(s);
      LittleValueBound(Reverse(s));
    } else {
      LittleValueBound(s);
    }
  }

  /** Both byte orders agree on a byte sequence that reads the same backwards. */
  lemma OrdersAgreeOnPalindromes(s: seq<byte>)
    requires Reverse(s) == s
    ensures Value(s, LittleEndian) == Value(s, BigEndian)
  {
    BigIsReversedLittle(s);
  }

  /** Decoding what `EncodeLittle` wrote gives the number back. */
  lemma {:induction false} LittleValueOfEncode(x: nat, n: nat)
    requires x < Pow256(n)
    ensures LittleValue(EncodeLittle(x, n)) == x
  {
    if n > 0 {
      var s := EncodeLittle(x, n);
      assert s[1..] == EncodeLittle(x / 0x100, n - 1);
      LittleValueOfEncode(x / 0x100, n - 1);
    }
  }

  /** Encoding a little-endian value gives the bytes back. */
  lemma {:induction false} EncodeOfLittleValue(s: seq<byte>)
    ensures LittleValue(s) < Pow256(|s|)
    ensures EncodeLittle(LittleValue(s), |s|) == s
  {
    LittleValueBound(s);
    if s != [] {
      var v := LittleValue(s[1..]);
      LittleValueBound(s[1..]);
      assert LittleValue(s) % 0x100 == s[0];
      assert LittleValue(s) / 0x100 == v;
      EncodeOfLittleValue(s[1..]);
    }
  }

  /** For a fixed byte order, decoding is a left inverse of encoding. */
  lemma DecodeEncode(x: nat, n: nat, endian: Endianness)
    requires x < Pow256(n)
    ensures Value(Encode(x, n, endian), endian) == x
  {
    LittleValueOfEncode(x, n);
    if endian == BigEndian {
      var s := EncodeLittle(x, n);
      BigIsReversedLittle(Reverse(s));
      ReverseReverse(s);
    }
  }

  /** For a fixed byte order, encoding is a left inverse of decoding. */
  lemma EncodeDecode(s: seq<byte>, endian: Endianness)
    ensures Value(s, endian) < Pow256(|s|)
    ensures Encode(Value(s, endian), |s|, endian) == s
  {
    ValueBound(s, endian);
    if endian == LittleEndian {
      EncodeOfLittleValue(s);
    } else {
      var r := Reverse(s);
      BigIsReversedLittle(s);
      EncodeOfLittleValue(r);
      ReverseReverse(s);
    }
  }

  // ---------------------------------------------------------------------
  // The source's reads
  // ---------------------------------------------------------------------

  /** `read16`: a 2-byte unsigned integer in byte order `endian`. */
  function Read16(b: Bytes2, endian: Endianness): (r: nat)
    ensures r < 0x1_0000
    ensures r == Value(b, endian)
  {
    UnfoldLittle2(b);
    UnfoldBig2(b);
    match endian
    case LittleEndian => 0x100 * b[1] as int + b[0] as int
    case BigEndian => 0x100 * b[0] as int + b[1] as int
  }

  /** `read32`: a 4-byte unsigned integer in byte order `endian`. */
  function Read32(b: Bytes4, endian: Endianness): (r: nat)
    ensures r < 0x1_0000_0000
    ensures r == Value(b, endian)
  {
    UnfoldLittle4(b);
    UnfoldBig4(b);
    match endian
    case LittleEndian =>
      0x100_0000 * b[3] as int + 0x1_0000 * b[2] as int + 0x100 * b[1] as int + b[0] as int
    case BigEndian =>
      0x100_0000 * b[0] as int + 0x1_0000 * b[1] as int + 0x100 * b[2] as int + b[3] as int
  }

  /** `read64`: an 8-byte unsigned integer in byte order `endian`. */
  function Read64(b: Bytes8, endian: Endianness): (r: nat)
    ensures r < 0x1_0000_0000_0000_0000
    ensures r == Value(b, endian)
  {
    UnfoldLittle8(b);
    UnfoldBig8(b);
    match endian
    case LittleEndian =>
      0x100_0000_0000_0000 * b[7] as int + 0x1_0000_0000_0000 * b[6] as int + 0x100_0000_0000 * b[5] as int +
      0x1_0000_0000 * b[4] as int + 0x100_0000 * b[3] as int + 0x1_0000 * b[2] as int + 0x100 * b[1] as int + b[0] as int
    case BigEndian =>
      0x100_0000_0000_0000 * b[0] as int + 0x1_0000_0000_0000 * b[1] as int + 0x100_0000_0000 * b[2] as int +
      0x1_0000_0000 * b[3] as int + 0x100_0000 * b[4] as int + 0x1_0000 * b[5] as int + 0x100 * b[6] as int + b[7] as int
  }

  /** One step of `LittleValue` on the suffix of `s` from position k. */
  lemma LittleValueFrom(s: seq<byte>, k: nat)
    requires k < |s|
    ensures LittleValue(s[k..]) == s[k] as int + 0x100 * LittleValue(s[k + 1..])
  {
    assert s[k..][1..] == s[k + 1..];
  }

  /** One step of `BigValue` on the prefix of `s` up to position k. */
  lemma BigValueUpTo(s: seq<byte>, k: nat)
    requires 0 < k <= |s|
    ensures BigValue(s[..k]) == s[k - 1] as int + 0x100 * BigValue(s[..k - 1])
  {
    assert s[..k][..k - 1] == s[..k - 1];
  }

  /** The little-endian value of a 2-byte sequence, one byte at a time. */
  lemma UnfoldLittle2(b: Bytes2)
    ensures LittleValue(b) == b[0] as int + 0x100 * (b[1] as int)
  {
    assert b[0..] == b;
    assert b[2..] == [];
    LittleValueFrom(b, 1);
    LittleValueFrom(b, 0);
  }

  /** The big-endian value of a 2-byte sequence, one byte at a time. */
  lemma UnfoldBig2(b: Bytes2)
    ensures BigValue(b) == b[1] as int + 0x100 * (b[0] as int)
  {
    assert b[..2] == b;
    assert b[..0] == [];
    BigValueUpTo(b, 1);
    BigValueUpTo(b, 2);
  }

  /** The little-endian value of a 4-byte sequence, one byte at a time. */
  lemma UnfoldLittle4(b: Bytes4)
    ensures LittleValue(b) == b[0] as int + 0x100 * (b[1] as int + 0x100 * (b[2] as int + 0x100 * (b[3] as int)))
  {
    assert b[0..] == b;
    assert b[4..] == [];
    LittleValueFrom(b, 3);
    LittleValueFrom(b, 2);
    LittleValueFrom(b, 1);
    LittleValueFrom(b, 0);
  }

  /** The big-endian value of a 4-byte sequence, one byte at a time. */
  lemma UnfoldBig4(b: Bytes4)
    ensures BigValue(b) == b[3] as int + 0x100 * (b[2] as int + 0x100 * (b[1] as int + 0x100 * (b[0] as int)))
  {
    assert b[..4] == b;
    assert b[..0] == [];
    BigValueUpTo(b, 1);
    BigValueUpTo(b, 2);
    BigValueUpTo(b, 3);
    BigValueUpTo(b, 4);
  }

  /** The little-endian value of an 8-byte sequence, one byte at a time. */
  lemma UnfoldLittle8(b: Bytes8)
    ensures LittleValue(b) == b[0] as int + 0x100 * (b[1] as int + 0x100 * (b[2] as int + 0x100 * (b[3] as int + 0x100 * (b[4] as int + 0x100 * (b[5] as int + 0x100 * (b[6] as int + 0x100 * (b[7] as int)))))))
  {
    assert b[0..] == b;
    assert b[8..] == [];
    LittleValueFrom(b, 7);
    LittleValueFrom(b, 6);
    LittleValueFrom(b, 5);
    LittleValueFrom(b, 4);
    LittleValueFrom(b, 3);
    LittleValueFrom(b, 2);
    LittleValueFrom(b, 1);
    LittleValueFrom(b, 0);
  }

  /** The big-endian value of an 8-byte sequence, one byte at a time. */
  lemma UnfoldBig8(b: Bytes8)
    ensures BigValue(b) == b[7] as int + 0x100 * (b[6] as int + 0x100 * (b[5] as int + 0x100 * (b[4] as int + 0x100 * (b[3] as int + 0x100 * (b[2] as int + 0x100 * (b[1] as int + 0x100 * (b[0] as int)))))))
  {
    assert b[..8] == b;
    assert b[..0] == [];
    BigValueUpTo(b, 1);
    BigValueUpTo(b, 2);
    BigValueUpTo(b, 3);
    BigValueUpTo(b, 4);
    BigValueUpTo(b, 5);
    BigValueUpTo(b, 6);
    BigValueUpTo(b, 7);
    BigValueUpTo(b, 8);
  }

  // ---------------------------------------------------------------------
  // Matching encoders and the round trips
  // ---------------------------------------------------------------------

  /** The 2 bytes that `read16` turns back into `x`. */
  function Write16(x: nat, endian: Endianness): (b: Bytes2)
    requires x < 0x1_0000
    ensures Read16(b, endian) == x
  {
    DecodeEncode(x, 2, endian);
    Encode(x, 2, endian)
  }

  /** The 4 bytes that `read32` turns back into `x`. */
  function Write32(x: nat, endian: Endianness): (b: Bytes4)
    requires x < 0x1_0000_0000
    ensures Read32(b, endian) == x
  {
    DecodeEncode(x, 4, endian);
    Encode(x, 4, endian)
  }

  /** The 8 bytes that `read64` turns back into `x`. */
  function Write64(x: nat, endian: Endianness): (b: Bytes8)
    requires x < 0x1_0000_0000_0000_0000
    ensures Read64(b, endian) == x
  {
    DecodeEncode(x, 8, endian);
    Encode(x, 8, endian)
  }

  /** Writing what `read16` read gives the array back. */
  lemma Read16RoundTrip(b: Bytes2, endian: Endianness)
    ensures Write16(Read16(b, endian), endian) == b
  {
    EncodeDecode(b, endian);
  }

  /** Writing what `read32` read gives the array back. */
  lemma Read32RoundTrip(b: Bytes4, endian: Endianness)
    ensures Write32(Read32(b, endian), endian) == b
  {
    EncodeDecode(b, endian);
  }

  /** Writing what `read64` read gives the array back. */
  lemma Read64RoundTrip(b: Bytes8, endian: Endianness)
    ensures Write64(Read64(b, endian), endian) == b
  {
    EncodeDecode(b, endian);
  }

  /** For a fixed byte order, `read16` tells every pair of arrays apart. */
  lemma Read16Injective(a: Bytes2, b: Bytes2, endian: Endianness)
    ensures Read16(a, endian) == Read16(b, endian) <==> a == b
  {
    Read16RoundTrip(a, endian);
    Read16RoundTrip(b, endian);
  }

  /** For a fixed byte order, `read32` tells every pair of arrays apart. */
  lemma Read32Injective(a: Bytes4, b: Bytes4, endian: Endianness)
    ensures Read32(a, endian) == Read32(b, endian) <==> a == b
  {
    Read32RoundTrip(a, endian);
    Read32RoundTrip(b, endian);
  }

  /** For a fixed byte order, `read64` tells every pair of arrays apart. */
  lemma Read64Injective(a: Bytes8, b: Bytes8, endian: Endianness)
    ensures Read64(a, endian) == Read64(b, endian) <==> a == b
  {
    Read64RoundTrip(a, endian);
    Read64RoundTrip(b, endian);
  }

  /** Big-endian `read16` is little-endian `read16` of the reversed array. */
  lemma Read16Reversed(b: Bytes2)
    ensures Read16(b, BigEndian) == Read16(Reverse(b), LittleEndian)
  {
    BigIsReversedLittle(b);
  }

  /** Big-endian `read32` is little-endian `read32` of the reversed array. */
  lemma Read32Reversed(b: Bytes4)
    ensures Read32(b, BigEndian) == Read32(Reverse(b), LittleEndian)
  {
    BigIsReversedLittle(b);
  }

  /** Big-endian `read64` is little-endian `read64` of the reversed array. */
  lemma Read64Reversed(b: Bytes8)
    ensures Read64(b, BigEndian) == Read64(Reverse(b), LittleEndian)
  {
    BigIsReversedLittle(b);
  }

  /** An array of one repeated byte reads the same in both orders. */
  lemma Read64Uniform(x: byte)
    ensures Read64([x, x, x, x, x, x, x, x], LittleEndian) == Read64([x, x, x, x, x, x, x, x], BigEndian)
  {
    var b: Bytes8 := [x, x, x, x, x, x, x, x];
    assert Reverse(b) == b;
    OrdersAgreeOnPalindromes(b);
  }
}
