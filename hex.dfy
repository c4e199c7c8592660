/**
 * Hexadecimal text, as `java.util.HexFormat.of().withUpperCase()` writes and
 * reads it: digits are written in upper case and read in either case.
 */
module Hex {

  /** The upper-case hexadecimal digit of a value below 16. */
  function Digit(d: nat): (c: char)
    requires d < 16
  {
    if d < 10 then ('0' as int + d) as char else ('A' as int + d - 10) as char
  }

  /** The characters `parseHex` accepts. */
  predicate IsHexChar(c: char)
  {
    '0' <= c <= '9' || 'A' <= c <= 'F' || 'a' <= c <= 'f'
  }

  /** The characters `withUpperCase()` writes. */
  predicate IsUpperHexChar(c: char)
  {
    '0' <= c <= '9' || 'A' <= c <= 'F'
  }

  /** The value of a hexadecimal character, in either case. */
  function CharValue(c: char): (d: nat)
    requires IsHexChar(c)
    ensures d < 16
  {
    if '0' <= c <= '9' then c as int - '0' as int
    else if 'A' <= c <= 'F' then c as int - 'A' as int + 10
    else c as int - 'a' as int + 10
  }

  /** The upper-case form of a hexadecimal character. */
  function ToUpper(c: char): (u: char)
    requires IsHexChar(c)
  {
    if 'a' <= c <= 'f' then (c as int - 'a' as int + 'A' as int) as char else c
  }

  /** Every digit is an upper-case hexadecimal character that reads back as its value. */
  lemma DigitValue(d: nat)
    requires d < 16
    ensures IsUpperHexChar(Digit(d)) && IsHexChar(Digit(d))
    ensures CharValue(Digit(d)) == d
  {
  }

  /** Reading a character and writing its value gives the character in upper case. */
  lemma CharDigit(c: char)
    requires IsHexChar(c)
    ensures Digit(CharValue(c)) == ToUpper(c)
    ensures IsUpperHexChar(ToUpper(c)) && CharValue(ToUpper(c)) == CharValue(c)
  {
  }

  /** `16^n`. */
  function Pow16(n: nat): (r: nat)
    ensures r >= 1
  {
    if n == 0 then 1 else 16 * Pow16(n - 1)
  }

  /**
   * `HexFormat.toHexDigits(v, n)`: the `n` low hexadecimal digits of `v`,
   * most significant first, padded with zeros.
   */
  function Digits(v: nat, n: nat): (s: string)
    ensures |s| == n
  {
    if n == 0 then [] else Digits(v / 16, n - 1) + [Digit(v % 16)]
  }

  /** A string of hexadecimal characters read as a number, most significant first. */
  function ValueOf(s: string): nat
    requires forall i :: 0 <= i < |s| ==> IsHexChar(s[i])
  {
    if s == [] then 0 else 16 * ValueOf(s[..|s| - 1]) + CharValue(s[|s| - 1])
  }

  /** All characters of `Digits(v, n)` are upper-case hexadecimal characters. */
  lemma {:induction false} DigitsUpper(v: nat, n: nat)
    ensures forall i :: 0 <= i < n ==> IsUpperHexChar(Digits(v, n)[i])
    decreases n
  {
    if n > 0 {
      DigitsUpper(v / 16, n - 1);
      DigitValue(v % 16);
    }
  }

  /** The `n` digits of a value below `16^n` read back as that value. */
  lemma {:induction false} ValueOfDigits(v: nat, n: nat)
    requires v < Pow16(n)
    ensures forall i :: 0 <= i < n ==> IsHexChar(Digits(v, n)[i])
    ensures ValueOf(Digits(v, n)) == v
    decreases n
  {
    DigitsUpper(v, n);
    if n > 0 {
      var s := Digits(v, n);
      assert s[..n - 1] == Digits(v / 16, n - 1);
      ValueOfDigits(v / 16, n - 1);
      DigitValue(v % 16);
    }
  }
}
