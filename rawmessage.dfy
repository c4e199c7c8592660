/**
 * `RawMessage`: a 14-byte Mode S extended squitter frame with its time stamp
 * in nanoseconds. The frame's first byte holds the downlink format in its
 * five high bits, bytes 1 to 3 the ICAO address of the aircraft, bytes 4 to
 * 10 the 56-bit ME payload whose five high bits are the type code, and the
 * last three bytes the parity.
 */
module RawMessages {
  import Bits
  import Hex
  import Crc
  import ByteStrings
  import Validators
  import opened Outcomes

  const LENGTH: nat := 14
  /** The downlink format of extended squitters. */
  const DF: nat := 17

  datatype Frame = Frame(timeStampNs: Bits.Long, bytes: ByteStrings.ByteString)

  /** The frames the record's constructor accepts. */
  type RawMessage = m: Frame | m.timeStampNs >= 0 && m.bytes.Size() == LENGTH
    witness Frame(0, ByteStrings.ByteString(seq(14, _ => 0)))

  /** The value of the CRC of a message, as `Crc24.crc` with the generator `0xFFF409` returns it. */
  function CrcValue(bytes: seq<Bits.UByte>): nat
  {
    Bits.Value(Crc.BitwiseCrc(Crc.GENERATOR, bytes))
  }

  /**
   * `of`: `null` unless the CRC of the bytes is zero; otherwise the record,
   * whose constructor throws on a negative time stamp or a length other
   * than 14.
   */
  function Of(timeStampNs: Bits.Long, bytes: seq<Bits.UByte>): (r: Outcome<RawMessage>)
    ensures r.Null? <==> CrcValue(bytes) != 0
    ensures r.Made? <==> CrcValue(bytes) == 0 && timeStampNs >= 0 && |bytes| == LENGTH
    ensures r.Made? ==> r.value.timeStampNs == timeStampNs && r.value.bytes.bytes == bytes
  {
    if CrcValue(bytes) != 0 then Null
    else if timeStampNs >= 0 && |bytes| == LENGTH then Made(Frame(timeStampNs, ByteStrings.ByteString(bytes)))
    else Thrown
  }

  /**
   * `size(byte0)`: the length of a frame whose first byte is `byte0`. The
   * byte is widened to a `long` with its sign before the field is
   * extracted.
   */
  function Size(byte0: Bits.UByte): (n: nat)
    ensures n == (if byte0 / 8 == DF then LENGTH else 0)
  {
    ExtractSignedByte(byte0);
    if Bits.ExtractUInt(Bits.Signed(byte0), 3, 5) == DF then LENGTH else 0
  }

  /** Only first bytes `0x88` to `0x8F` announce a frame. */
  lemma SizeRange(byte0: Bits.UByte)
    ensures Size(byte0) == LENGTH <==> 0x88 <= byte0 <= 0x8F
  {
  }

  /** `typeCode(payload)`: bits 51 to 55 of the payload. */
  function TypeCodeOf(payload: Bits.Long): (t: nat)
    ensures t < 32
  {
    Bits.Pow2Value8();
    assert Bits.Pow2(5) == 32;
    Bits.ExtractUInt(payload, 51, 5)
  }

  /** `downLinkFormat`: the five high bits of the first byte. */
  function DownLinkFormat(m: RawMessage): (df: nat)
    ensures df == m.bytes.bytes[0] / 8 && df <= 31
  {
    ExtractByte(m.bytes.ByteAt(0));
    Bits.ExtractUInt(m.bytes.ByteAt(0), 3, 5)
  }

  /** `payload`: bytes 4 to 10, big-endian. */
  function Payload(m: RawMessage): (p: Bits.Long)
    ensures p == ByteStrings.BigEndian(m.bytes.bytes[4..11])
    ensures 0 <= p < Bits.Pow2(56)
  {
    PayloadBound(m.bytes.bytes[4..11]);
    ByteStrings.BigEndian(m.bytes.bytes[4..11])
  }

  /** `typeCode()`: the type code of the payload, the five high bits of byte 4. */
  function TypeCode(m: RawMessage): (t: nat)
    ensures t == m.bytes.bytes[4] / 8 && t < 32
  {
    TypeCodeByte(m.bytes.bytes[4..11]);
    TypeCodeOf(Payload(m))
  }

  /**
   * `icaoAddress`: bytes 1 to 3 as six upper-case hexadecimal digits, which
   * read back as the 24-bit number they came from.
   */
  function IcaoAddress(m: RawMessage): (a: Validators.IcaoAddress)
    ensures |a| == 6
    ensures (forall i :: 0 <= i < 6 ==> Hex.IsHexChar(a[i])) && Hex.ValueOf(a) == ByteStrings.BigEndian(m.bytes.bytes[1..4])
  {
    var v := ByteStrings.BigEndian(m.bytes.bytes[1..4]);
    ByteStrings.BigEndianBound(m.bytes.bytes[1..4]);
    IcaoDigits(v);
    Hex.Digits(v, 6)
  }

  lemma IcaoDigits(v: nat)
    requires v < Bits.Pow2(24)
    ensures Validators.IsIcaoAddress(Hex.Digits(v, 6))
    ensures (forall i :: 0 <= i < 6 ==> Hex.IsHexChar(Hex.Digits(v, 6)[i])) && Hex.ValueOf(Hex.Digits(v, 6)) == v
  {
    Pow16Pow2(6);
    Hex.ValueOfDigits(v, 6);
    Hex.DigitsUpper(v, 6);
  }

  lemma {:induction false} Pow16Pow2(n: nat)
    ensures Hex.Pow16(n) == Bits.Pow2(4 * n)
  {
    if n > 0 {
      Pow16Pow2(n - 1);
      Bits.Pow2Add(4 * (n - 1), 4);
      Bits.Pow2Value8();
    }
  }

  // ---------------------------------------------------------------------------
  // Fields of bytes
  // ---------------------------------------------------------------------------

  /** Bits 3 to 7 of a byte widened with its sign are the five high bits of the byte. */
  lemma ExtractSignedByte(b: Bits.UByte)
    ensures Bits.ExtractUInt(Bits.Signed(b), 3, 5) == b / 8
  {
    assert Bits.Pow2(3) == 8 && Bits.Pow2(5) == 32;
    if b < 128 {
      Bits.Pow2Value8();
      Bits.ExtractUIntWhole(b, 3, 5);
    } else {
      Bits.ExtractUIntShift(Bits.Signed(b), 3, 5);
      Bits.Pow2Value64();
      var u := Bits.Unsigned64(Bits.Signed(b));
      assert u == b - 256 + Bits.TWO64;
      Bits.DivUnique(u, 8, 0x2000_0000_0000_0000 - 32 + b / 8, b % 8);
      Bits.DivUnique(u / 8, 32, 0x100_0000_0000_0000 - 1, b / 8);
    }
  }

  /** Bits 3 to 7 of an unsigned byte are its five high bits. */
  lemma ExtractByte(b: Bits.UByte)
    ensures Bits.ExtractUInt(b, 3, 5) == b / 8
  {
    Bits.Pow2Value8();
    Bits.ExtractUIntWhole(b, 3, 5);
    assert Bits.Pow2(3) == 8;
  }

  lemma PayloadBound(s: seq<Bits.UByte>)
    requires |s| == 7
    ensures ByteStrings.BigEndian(s) < Bits.Pow2(56) <= 0x8000_0000_0000_0000
  {
    ByteStrings.BigEndianBound(s);
    Bits.Pow2Value64();
    Bits.Pow2Add(56, 8);
  }

  /** A big-endian number is its first byte, shifted, plus the rest. */
  lemma {:induction false} BigEndianFirst(s: seq<Bits.UByte>)
    requires |s| >= 1
    ensures ByteStrings.BigEndian(s) == s[0] * Bits.Pow2(8 * (|s| - 1)) + ByteStrings.BigEndian(s[1..])
    decreases |s|
  {
    if |s| > 1 {
      var init, tail := s[..|s| - 1], s[1..];
      var p := Bits.Pow2(8 * (|s| - 2));
      BigEndianFirst(init);
      assert init[1..] == tail[..|tail| - 1];
      assert ByteStrings.BigEndian(tail) == 256 * ByteStrings.BigEndian(init[1..]) + s[|s| - 1];
      assert ByteStrings.BigEndian(s) == 256 * ByteStrings.BigEndian(init) + s[|s| - 1];
      Bits.Pow2Add(8 * (|s| - 2), 8);
      Bits.Pow2Value8();
      assert Bits.Pow2(8 * (|s| - 1)) == p * 256;
      assert 256 * (s[0] * p) == s[0] * (p * 256);
    }
  }

  /** The type code of a 7-byte payload is the five high bits of its first byte. */
  lemma TypeCodeByte(s: seq<Bits.UByte>)
    requires |s| == 7
    ensures ByteStrings.BigEndian(s) < 0x8000_0000_0000_0000
    ensures TypeCodeOf(ByteStrings.BigEndian(s)) == s[0] / 8
  {
    PayloadBound(s);
    var v := ByteStrings.BigEndian(s);
    var rest := ByteStrings.BigEndian(s[1..]);
    BigEndianFirst(s);
    ByteStrings.BigEndianBound(s[1..]);
    Bits.Pow2Add(51, 5);
    Bits.ExtractUIntWhole(v, 51, 5);
    Bits.DivPow2(v, 48, 3);
    Bits.DivUnique(v, Bits.Pow2(48), s[0], rest);
    assert Bits.Pow2(3) == 8;
  }
}
