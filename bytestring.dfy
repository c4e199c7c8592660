/**
 * `ByteString`: an immutable sequence of bytes read as unsigned values.
 *
 * A byte is modelled by its unsigned bit pattern (`Bits.UByte`); Java's
 * signed view is `Bits.Signed`. The Java class wraps a private copy of an
 * array; here it is a datatype over a sequence, so it is a value and
 * `equals` is equality of values.
 */
module ByteStrings {
  import Bits
  import Hex
  import opened Wrappers

  datatype ByteString = ByteString(bytes: seq<Bits.UByte>)
  {
    /** `size`: the number of bytes. */
    function Size(): nat
    {
      |bytes|
    }

    /** `byteAt`: the byte at `index` as an unsigned value. */
    function ByteAt(index: int): (b: int)
      requires 0 <= index < Size()
      ensures 0 <= b <= 255
    {
      bytes[index]
    }

    /**
     * `bytesInRange`: the bytes `fromIndex .. toIndex - 1` read as one
     * big-endian number. The accumulator is a `long`; the first requires
     * clause bounds it below `2^56`, so `<< 8` never overflows (the
     * subset type `Bits.Long` checks this at every step).
     */
    method BytesInRange(fromIndex: int, toIndex: int) returns (r: Bits.Long)
      requires toIndex - fromIndex < 8
      requires 0 <= fromIndex <= toIndex <= Size()
      ensures r == BigEndian(bytes[fromIndex..toIndex])
      ensures 0 <= r < Bits.Pow2(8 * (toIndex - fromIndex))
    {
      r := 0;
      for i := fromIndex to toIndex
        invariant r == BigEndian(bytes[fromIndex..i])
      {
        ShiftInByte(bytes[fromIndex..i], bytes[i]);
        var shifted: Bits.Long := r * 256;
        r := Bits.Or(ByteAt(i), shifted);
        assert bytes[fromIndex..i + 1] == bytes[fromIndex..i] + [bytes[i]];
      }
      BigEndianBound(bytes[fromIndex..toIndex]);
    }

    /** `equals`: same length and the same bytes at every index. */
    predicate Equals(other: ByteString)
    {
      Size() == other.Size() && forall i :: 0 <= i < Size() ==> ByteAt(i) == other.ByteAt(i)
    }

    /** `hashCode`: `Arrays.hashCode` of the (signed) bytes. */
    function HashCode(): Bits.Int
    {
      ArrayHash(bytes)
    }

    /** `toString`: two upper-case hexadecimal digits per byte. */
    function ToString(): string
    {
      HexOf(bytes)
    }
  }

  /** `new ByteString(bytes)`: the byte string holds a snapshot of the array. */
  method FromArray(a: array<Bits.UByte>) returns (b: ByteString)
    ensures b.bytes == a[..]
  {
    b := ByteString(a[..]);
  }

  /** Writing into the array after construction leaves the byte string as it was. */
  method FromArrayThenWrite(a: array<Bits.UByte>, i: nat, v: Bits.UByte) returns (b: ByteString)
    requires i < a.Length
    modifies a
    ensures b.bytes == old(a[..]) && a[..] == old(a[..])[i := v]
  {
    b := FromArray(a);
    a[i] := v;
  }

  /** A sequence of bytes read as one big-endian number. */
  function BigEndian(s: seq<Bits.UByte>): nat
  {
    if s == [] then 0 else 256 * BigEndian(s[..|s| - 1]) + s[|s| - 1]
  }

  /** The `n` low bytes of `v`, most significant first. */
  function ToBigEndian(v: nat, n: nat): (s: seq<Bits.UByte>)
    ensures |s| == n
  {
    if n == 0 then [] else ToBigEndian(v / 256, n - 1) + [v % 256]
  }

  /** `n` bytes read big-endian stay below `2^(8n)`. */
  lemma {:induction false} BigEndianBound(s: seq<Bits.UByte>)
    ensures BigEndian(s) < Bits.Pow2(8 * |s|)
    decreases |s|
  {
    if s != [] {
      BigEndianBound(s[..|s| - 1]);
      Bits.Pow2Add(8 * (|s| - 1), 8);
      Bits.Pow2Value8();
    }
  }

  /** One step of `bytesInRange`: `(acc << 8) | b` appends the byte `b`, without overflow. */
  lemma ShiftInByte(s: seq<Bits.UByte>, b: Bits.UByte)
    requires |s| < 7
    ensures 256 * BigEndian(s) < 0x100_0000_0000_0000
    ensures Bits.Or(b, 256 * BigEndian(s)) == BigEndian(s + [b])
  {
    BigEndianBound(s);
    Bits.Pow2Monotone(8 * |s|, 48);
    Bits.Pow2Value48();
    Bits.Pow2Value8();
    Bits.OrShifted(BigEndian(s), 8, b);
    assert (s + [b])[..|s|] == s;
  }

  /** Reading bytes big-endian loses nothing: writing the number back gives the bytes. */
  lemma {:induction false} BigEndianBytes(s: seq<Bits.UByte>)
    ensures ToBigEndian(BigEndian(s), |s|) == s
    decreases |s|
  {
    if s != [] {
      BigEndianBytes(s[..|s| - 1]);
      assert s == s[..|s| - 1] + [s[|s| - 1]];
    }
  }

  /** `Arrays.hashCode(byte[])`: `31 * h + b` from `h = 1`, wrapping as an `int`. */
  function ArrayHash(s: seq<Bits.UByte>): Bits.Int
  {
    if s == [] then 1 else Bits.WrapInt(31 * ArrayHash(s[..|s| - 1]) + Bits.Signed(s[|s| - 1]))
  }

  /** `equals` is equality of byte strings. */
  lemma EqualsIff(a: ByteString, b: ByteString)
    ensures a.Equals(b) <==> a == b
  {
    if a.Equals(b) {
      forall i | 0 <= i < a.Size()
        ensures a.bytes[i] == b.bytes[i]
      {
        assert a.ByteAt(i) == b.ByteAt(i);
      }
      assert a.bytes == b.bytes;
    }
  }

  /** Equal byte strings have equal hash codes. */
  lemma EqualsHashCode(a: ByteString, b: ByteString)
    requires a.Equals(b)
    ensures a.HashCode() == b.HashCode()
  {
    EqualsIff(a, b);
  }

  // ---------------------------------------------------------------------------
  // Hexadecimal form
  // ---------------------------------------------------------------------------

  /** `HexFormat.formatHex`: each byte as two digits, high digit first. */
  function HexOf(s: seq<Bits.UByte>): (h: string)
    ensures |h| == 2 * |s|
  {
    if s == [] then [] else Hex.Digits(s[0], 2) + HexOf(s[1..])
  }

  predicate AllHex(s: string)
  {
    forall i :: 0 <= i < |s| ==> Hex.IsHexChar(s[i])
  }

  /** The bytes of a string of hexadecimal character pairs. */
  function ParseHex(s: string): (bs: seq<Bits.UByte>)
    requires |s| % 2 == 0 && AllHex(s)
    ensures |bs| == |s| / 2
  {
    if s == [] then []
    else [16 * Hex.CharValue(s[0]) + Hex.CharValue(s[1])] + ParseHex(s[2..])
  }

  /**
   * `ofHexadecimalString`: `None` stands for the `IllegalArgumentException`
   * that `parseHex` throws on an odd length or a non-hexadecimal character.
   */
  function OfHexadecimalString(s: string): Option<ByteString>
  {
    if |s| % 2 == 0 && AllHex(s) then Some(ByteString(ParseHex(s))) else None
  }

  /** The string with every hexadecimal letter in upper case. */
  function UpperHex(s: string): (u: string)
    requires AllHex(s)
    ensures |u| == |s|
  {
    seq(|s|, i requires 0 <= i < |s| => Hex.ToUpper(s[i]))
  }

  /** `toString` writes `2 * size` upper-case hexadecimal digits. */
  lemma {:induction false} ToStringUpper(b: ByteString)
    ensures |b.ToString()| == 2 * b.Size()
    ensures forall i :: 0 <= i < |b.ToString()| ==> Hex.IsUpperHexChar(b.ToString()[i])
    decreases |b.bytes|
  {
    if b.bytes != [] {
      var h := b.ToString();
      var rest := ByteString(b.bytes[1..]);
      ToStringUpper(rest);
      Hex.DigitsUpper(b.bytes[0], 2);
      forall i | 0 <= i < |h|
        ensures Hex.IsUpperHexChar(h[i])
      {
        if i >= 2 {
          assert h[i] == rest.ToString()[i - 2];
        }
      }
    }
  }

  /** Parsing what `toString` writes gives back the byte string. */
  lemma {:induction false} OfHexToString(b: ByteString)
    ensures OfHexadecimalString(b.ToString()) == Some(b)
    decreases |b.bytes|
  {
    ToStringUpper(b);
    ParseHexOf(b.bytes);
  }

  lemma {:induction false} ParseHexOf(s: seq<Bits.UByte>)
    requires AllHex(HexOf(s))
    ensures ParseHex(HexOf(s)) == s
    decreases |s|
  {
    if s != [] {
      var h := HexOf(s);
      var b := s[0];
      TwoDigits(b);
      Hex.DigitValue(b / 16);
      Hex.DigitValue(b % 16);
      assert h[0] == Hex.Digit(b / 16) && h[1] == Hex.Digit(b % 16);
      assert h[2..] == HexOf(s[1..]);
      ParseHexOf(s[1..]);
    }
  }

  lemma TwoDigits(b: nat)
    requires b < 256
    ensures Hex.Digits(b, 2) == [Hex.Digit(b / 16), Hex.Digit(b % 16)]
  {
    assert b / 16 / 16 == 0 && b / 16 % 16 == b / 16;
    assert Hex.Digits(b / 16, 1) == [Hex.Digit(b / 16 % 16)];
  }

  /** Writing what was parsed gives the input with its letters in upper case. */
  lemma {:induction false} ToStringOfHex(s: string)
    requires OfHexadecimalString(s).Some?
    ensures OfHexadecimalString(s).value.ToString() == UpperHex(s)
  {
    HexOfParse(s);
  }

  lemma {:induction false} HexOfParse(s: string)
    requires |s| % 2 == 0 && AllHex(s)
    ensures HexOf(ParseHex(s)) == UpperHex(s)
    decreases |s|
  {
    if s != [] {
      var c0, c1 := Hex.CharValue(s[0]), Hex.CharValue(s[1]);
      var v := 16 * c0 + c1;
      TwoDigits(v);
      assert v / 16 == c0 && v % 16 == c1;
      Hex.CharDigit(s[0]);
      Hex.CharDigit(s[1]);
      var p, rest := ParseHex(s), s[2..];
      assert p[0] == v && p[1..] == ParseHex(rest);
      HexOfParse(rest);
      UpperHexSplit(s);
    }
  }

  lemma UpperHexSplit(s: string)
    requires |s| >= 2 && AllHex(s)
    ensures UpperHex(s) == [Hex.ToUpper(s[0]), Hex.ToUpper(s[1])] + UpperHex(s[2..])
  {
    var l, r := UpperHex(s), [Hex.ToUpper(s[0]), Hex.ToUpper(s[1])] + UpperHex(s[2..]);
    forall i | 0 <= i < |s|
      ensures l[i] == r[i]
    {
      if i >= 2 {
        assert r[i] == UpperHex(s[2..])[i - 2];
      }
    }
  }
}
