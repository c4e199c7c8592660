/**
 * `AircraftIdentificationMessage`: the category and call sign of an
 * aircraft, from an extended squitter with type code 1 to 4 (section
 * 2.2.3.2.5 of RTCA DO-260B). The eight characters of the call sign are
 * 6-bit indices into a table of upper-case letters, digits and the space.
 */
module Identifications {
  import Bits
  import Validators
  import RawMessages
  import opened Outcomes

  const CALL_SIGN_SIZE: nat := 8
  const INVALID_CHARACTER: char := '*'
  /**
   * `CHAR_TABLE`: index 1 to 26 are `A` to `Z`, 32 is the space, 48 to 57
   * are the digits. It is the source's 64-character string, written in
   * pieces of eight.
   */
  const CHAR_TABLE: string :=
    (("*ABCDEFG" + "HIJKLMNO") + ("PQRSTUVW" + "XYZ*****")) + ((" *******" + "********") + ("01234567" + "89******"))

  datatype AircraftIdentificationMessage = AircraftIdentificationMessage(
    timeStampNs: Bits.Long, icaoAddress: Validators.IcaoAddress, category: nat, callSign: Validators.CallSign)

  /** The 6-bit index of character `i` of the call sign: payload bits `42 - 6i` to `47 - 6i`. */
  function CharIndex(payload: Bits.Long, i: nat): (index: nat)
    requires i < CALL_SIGN_SIZE
    ensures index < 64
  {
    assert Bits.Pow2(6) == 64;
    Bits.ExtractUInt(payload, 42 - 6 * i, 6)
  }

  /** The eight characters of the call sign, before any check, each looked up in the table. */
  function Chars(payload: Bits.Long): (cs: string)
    ensures |cs| == CALL_SIGN_SIZE
    ensures forall i :: 0 <= i < CALL_SIGN_SIZE ==> cs[i] == TableChar(CharIndex(payload, i))
  {
    seq(CALL_SIGN_SIZE, i requires 0 <= i < CALL_SIGN_SIZE => TableChar(CharIndex(payload, i)))
  }

  /**
   * `returnCategory`: `((14 - typeCode) << 4) | CA`, both halves cast to
   * unsigned bytes, where CA is payload bits 48 to 50: the high nibble
   * encodes the type code, the low nibble is CA.
   */
  function Category(payload: Bits.Long, typeCode: nat): (c: nat)
    requires 1 <= typeCode <= 4
    ensures c / 16 == 14 - typeCode && c % 16 == Bits.ExtractUInt(payload, 48, 3)
    ensures 0xA0 <= c <= 0xD7
  {
    var partial := Bits.ExtractUInt(payload, 48, 3);
    var nibble := (14 - typeCode) * 16;
    CategoryOr(14 - typeCode, partial);
    Bits.Or(nibble % 256, partial % 256)
  }

  lemma CategoryOr(high: nat, low: nat)
    requires 10 <= high <= 13 && low < Bits.Pow2(3)
    ensures var c := Bits.Or(high * 16 % 256, low % 256);
      c == 16 * high + low && c / 16 == high && c % 16 == low
  {
    Bits.Pow2Value8();
    assert Bits.Pow2(3) == 8;
    Bits.ModSmall(high * 16, 256);
    Bits.ModSmall(low, 256);
    Bits.OrShifted(high, 4, low);
    Bits.DivUnique(16 * high + low, 16, high, low);
  }

  /** `String.stripTrailing` on these characters: the trailing spaces removed. */
  function StripTrailing(s: string): (t: string)
    ensures t <= s && (t == [] || t[|t| - 1] != ' ')
    ensures forall i :: |t| <= i < |s| ==> s[i] == ' '
  {
    if s == [] || s[|s| - 1] != ' ' then s else StripTrailing(s[..|s| - 1])
  }

  /** The result of `of`: a message, `null`, or the exception the `CallSign` constructor throws. */
  function Identification(raw: RawMessages.RawMessage): Outcome<AircraftIdentificationMessage>
  {
    var typeCode := RawMessages.TypeCode(raw);
    var payload := RawMessages.Payload(raw);
    if !(1 <= typeCode <= 4) then Null
    else if INVALID_CHARACTER in Chars(payload) then Null
    else
      var callSign := StripTrailing(Chars(payload));
      if Validators.IsCallSign(callSign) then
        Made(AircraftIdentificationMessage(raw.timeStampNs, RawMessages.IcaoAddress(raw), Category(payload, typeCode), callSign))
      else Thrown
  }

  /** The character of index `k`, as the table lays it out. */
  function TableChar(k: nat): char
  {
    if 1 <= k <= 26 then ('A' as int + k - 1) as char
    else if k == 32 then ' '
    else if 48 <= k <= 57 then ('0' as int + k - 48) as char
    else INVALID_CHARACTER
  }

  /** The table holds the 26 letters, the space and the ten digits, and `*` everywhere else. */
  lemma CharTable(k: nat)
    requires k < 64
    ensures CHAR_TABLE[k] == TableChar(k)
  {
    if k < 8 {
    } else if k < 16 {
    } else if k < 24 {
    } else if k < 32 {
    } else if k < 40 {
    } else if k < 48 {
    } else if k < 56 {
    } else {
    }
  }

  /** A message is made exactly for a type code in 1..4, no invalid character, and a call sign without inner space. */
  lemma {:induction false} IdentificationCases(raw: RawMessages.RawMessage)
    ensures var typeCode, cs := RawMessages.TypeCode(raw), Chars(RawMessages.Payload(raw));
      (Identification(raw).Null? <==> !(1 <= typeCode <= 4) || exists i :: 0 <= i < CALL_SIGN_SIZE && cs[i] == INVALID_CHARACTER) &&
      (Identification(raw).Thrown? <==> 1 <= typeCode <= 4 && INVALID_CHARACTER !in cs && ' ' in StripTrailing(cs))
  {
    var cs := Chars(RawMessages.Payload(raw));
    var t := StripTrailing(cs);
    if INVALID_CHARACTER !in cs {
      forall i | 0 <= i < |t|
        ensures t[i] == cs[i]
      {
      }
      if ' ' !in t {
        forall i | 0 <= i < |t|
          ensures Validators.IsUpperOrDigit(t[i])
        {
        }
      }
    }
  }

  /** A call sign that is made is at most eight letters and digits, the table's characters without the space. */
  lemma IdentificationCallSign(raw: RawMessages.RawMessage)
    requires Identification(raw).Made?
    ensures var cs := Identification(raw).value.callSign;
      |cs| <= 8 && forall i :: 0 <= i < |cs| ==> Validators.IsUpperOrDigit(cs[i])
  {
  }

  // ---------------------------------------------------------------------------
  // The loops of `of` and `convertToString`
  // ---------------------------------------------------------------------------

  /** `of`: fills the characters in a loop and returns `null` at the first invalid one. */
  method Of(raw: RawMessages.RawMessage) returns (r: Outcome<AircraftIdentificationMessage>)
    ensures r == Identification(raw)
  {
    var icaoAddress := RawMessages.IcaoAddress(raw);
    var typeCode := RawMessages.TypeCode(raw);
    var payload := RawMessages.Payload(raw);
    var timeStamps := raw.timeStampNs;
    var characterTable := new char[CALL_SIGN_SIZE](_ => ' ');
    if 1 <= typeCode <= 4 {
      var category := Category(payload, typeCode);
      var valid := FillCharacters(payload, characterTable);
      if !valid {
        return Null;
      }
      var callSign := ConvertToString(characterTable);
      if Validators.IsCallSign(callSign) {
        return Made(AircraftIdentificationMessage(timeStamps, icaoAddress, category, callSign));
      }
      return Thrown;
    }
    return Null;
  }

  /**
   * The loop of `of`: stores character `i` of the call sign at index `i`,
   * and stops with `false` at the first invalid one.
   */
  method FillCharacters(payload: Bits.Long, characterTable: array<char>) returns (valid: bool)
    requires characterTable.Length == CALL_SIGN_SIZE
    modifies characterTable
    ensures valid <==> INVALID_CHARACTER !in Chars(payload)
    ensures valid ==> characterTable[..] == Chars(payload)
  {
    ghost var cs := Chars(payload);
    for i := 0 to CALL_SIGN_SIZE
      invariant forall j :: 0 <= j < i ==> characterTable[j] == cs[j] && cs[j] != INVALID_CHARACTER
    {
      var index := CharIndex(payload, i);
      var c := CharAt(index);
      if c == INVALID_CHARACTER {
        return false;
      }
      characterTable[i] := c;
    }
    assert characterTable[..] == cs;
    return true;
  }

  /** `CHAR_TABLE.charAt(index)`, read through the table's layout. */
  method CharAt(index: nat) returns (c: char)
    requires index < 64
    ensures c == TableChar(index)
  {
    c := CHAR_TABLE[index];
    CharTable(index);
  }

  /** `convertToString`: appends the characters one by one, then strips the trailing spaces. */
  method ConvertToString(chars: array<char>) returns (s: string)
    ensures s == StripTrailing(chars[..])
  {
    var builder: string := [];
    for k := 0 to chars.Length
      invariant builder == chars[..k]
    {
      builder := builder + [chars[k]];
    }
    assert builder == chars[..];
    s := StripTrailing(builder);
  }
}
