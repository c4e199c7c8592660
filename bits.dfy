/**
 * Bit-level primitives on Java's integer types.
 *
 * Java `long`, `int`, `short` and `byte` values are modelled as mathematical
 * integers restricted to their ranges. Unsigned shifts, masks and the bitwise
 * operators used by the decoder are written out on natural numbers:
 * `x >>> k` on a non-negative pattern is `x / 2^k`, `x & (2^n - 1)` is
 * `x % 2^n`, and `^` and `|` are the recursive `Xor` and `Or` below.
 */
module Bits {

  type Long = v: int | -0x8000_0000_0000_0000 <= v < 0x8000_0000_0000_0000
  type Int = v: int | -0x8000_0000 <= v < 0x8000_0000
  type Short = v: int | -0x8000 <= v < 0x8000
  /** An unsigned byte, as returned by `Byte.toUnsignedInt`. */
  type UByte = v: int | 0 <= v < 256

  const TWO32: nat := 0x1_0000_0000
  const TWO64: nat := 0x1_0000_0000_0000_0000

  function Pow2(n: nat): (r: nat)
    ensures r >= 1
  {
    if n == 0 then 1 else 2 * Pow2(n - 1)
  }

  /** Java's signed view of a byte: `(byte) b`. */
  function Signed(b: UByte): (r: int)
    ensures -128 <= r < 128
    ensures r % 256 == b
  {
    if b < 128 then b else b - 256
  }

  /** The `int` with the same low 32 bits as `x`: Java's wrap-around on `int` overflow. */
  function WrapInt(x: int): (r: Int)
    ensures (r - x) % TWO32 == 0
    ensures -0x8000_0000 <= x < 0x8000_0000 ==> r == x
  {
    var u := x % TWO32;
    if u < 0x8000_0000 then u else u - TWO32
  }

  /** The `long` with the same low 64 bits as `x`: Java's wrap-around on `long` overflow. */
  function WrapLong(x: int): (r: Long)
    ensures (r - x) % TWO64 == 0
    ensures -0x8000_0000_0000_0000 <= x < 0x8000_0000_0000_0000 ==> r == x
  {
    var u := x % TWO64;
    if u < 0x8000_0000_0000_0000 then u else u - TWO64
  }

  /** The `short` with the same low 16 bits as `x`: Java's `(short)` cast. */
  function WrapShort(x: int): (r: Short)
    ensures (r - x) % 0x1_0000 == 0
  {
    var u := x % 0x1_0000;
    if u < 0x8000 then u else u - 0x1_0000
  }

  /** The 64-bit two's-complement pattern of a `long`, read as unsigned. */
  function Unsigned64(v: Long): (r: nat)
    ensures r < TWO64
    ensures v >= 0 ==> r == v
    ensures v < 0 ==> r == v + TWO64
  {
    v % TWO64
  }

  /**
   * `Bits.extractUInt`: the `size`-bit unsigned field of `value` that starts
   * at bit `start`. The body follows the Java expression step by step:
   * unsigned shift of the 64-bit pattern, cast to `int` (low 32 bits), mask.
   */
  function ExtractUInt(value: Long, start: int, size: int): (r: nat)
    requires 0 < size < 32
    requires 0 <= start && start + size <= 64
    ensures r < Pow2(size)
  {
    Unsigned64(value) / Pow2(start) % TWO32 % Pow2(size)
  }

  /** `Bits.testBit`: whether bit `index` of the 64-bit pattern of `value` is 1. */
  function TestBit(value: Long, index: int): (b: bool)
    requires 0 <= index < 64
    ensures b <==> ExtractUInt(value, index, 1) == 1
  {
    assert Pow2(1) == 2;
    Unsigned64(value) / Pow2(index) % TWO32 % 2 == 1
  }

  // ---------------------------------------------------------------------------
  // Arithmetic facts about powers of two, division and remainder.
  // ---------------------------------------------------------------------------

  lemma {:induction false} Pow2Add(a: nat, b: nat)
    ensures Pow2(a + b) == Pow2(a) * Pow2(b)
  {
    if a > 0 { Pow2Add(a - 1, b); }
  }

  lemma {:induction false} Pow2Monotone(a: nat, b: nat)
    requires a <= b
    ensures Pow2(a) <= Pow2(b)
  {
    if a < b { Pow2Monotone(a, b - 1); }
  }

  lemma Pow2Value8()
    ensures Pow2(4) == 16 && Pow2(8) == 256
  {
  }

  lemma Pow2Value16()
    ensures Pow2(16) == 0x1_0000
  {
    Pow2Value8();
    Pow2Add(8, 8);
  }

  lemma Pow2Value32()
    ensures Pow2(32) == TWO32
  {
    Pow2Value16();
    Pow2Add(16, 16);
  }

  lemma Pow2Value48()
    ensures Pow2(48) == 0x1_0000_0000_0000
  {
    Pow2Value32();
    Pow2Value16();
    Pow2Add(32, 16);
  }

  lemma Pow2Value64()
    ensures Pow2(64) == TWO64
  {
    Pow2Value32();
    Pow2Add(32, 32);
  }

  lemma MulAtLeast(k: int, d: int)
    requires k >= 1 && d > 0
    ensures k * d >= d
  {
  }

  lemma MulMonotone(k: int, b: int, a: int)
    requires k >= b >= 0 && a > 0
    ensures k * a >= b * a
  {
  }

  /** Quotient and remainder are determined by the division equation. */
  lemma DivUnique(x: int, d: int, q: int, r: int)
    requires d > 0 && 0 <= r < d && x == q * d + r
    ensures x / d == q && x % d == r
  {
    var q0, r0 := x / d, x % d;
    assert (q - q0) * d == r0 - r;
    if q > q0 {
      MulAtLeast(q - q0, d);
    } else if q < q0 {
      MulAtLeast(q0 - q, d);
    }
  }

  lemma QuotientBound(r: nat, a: nat, b: nat)
    requires a > 0 && r < a * b
    ensures r / a < b
  {
    assert (r / a) * a <= r;
    if r / a >= b {
      MulMonotone(r / a, b, a);
    }
  }

  lemma DivDiv(x: nat, a: nat, b: nat)
    requires a > 0 && b > 0
    ensures x / a / b == x / (a * b)
  {
    var q, r := x / (a * b), x % (a * b);
    assert x == q * (a * b) + r;
    assert r == (r / a) * a + r % a;
    QuotientBound(r, a, b);
    assert x == (q * b + r / a) * a + r % a;
    DivUnique(x, a, q * b + r / a, r % a);
    DivUnique(x / a, b, q, r / a);
  }

  lemma ModMod(x: nat, a: nat, b: nat)
    requires a > 0 && b > 0
    ensures x % (a * b) % a == x % a
  {
    var q, r := x / (a * b), x % (a * b);
    assert x == (q * b) * a + r;
    assert r == (r / a) * a + r % a;
    assert x == (q * b + r / a) * a + r % a;
    DivUnique(x, a, q * b + r / a, r % a);
  }

  lemma ModDiv(x: nat, a: nat, b: nat)
    requires a > 0 && b > 0
    ensures x % (a * b) / a == x / a % b
  {
    var q, r := x / (a * b), x % (a * b);
    assert x == (q * b) * a + r;
    assert r == (r / a) * a + r % a;
    QuotientBound(r, a, b);
    assert x == (q * b + r / a) * a + r % a;
    DivUnique(x, a, q * b + r / a, r % a);
    DivUnique(x / a, b, q, r / a);
  }

  /** A value below `2^n` is its own remainder modulo `2^n`. */
  lemma ModSmall(x: nat, m: nat)
    requires 0 < m && x < m
    ensures x % m == x && x / m == 0
  {
    DivUnique(x, m, 0, x);
  }

  /** Shifting right by `a` then by `b` is shifting by `a + b`. */
  lemma DivPow2(x: nat, a: nat, b: nat)
    ensures x / Pow2(a) / Pow2(b) == x / Pow2(a + b)
  {
    Pow2Add(a, b);
    DivDiv(x, Pow2(a), Pow2(b));
  }

  /** Masking to `size < 32` bits after the cast to `int` is masking the `long`. */
  lemma ModMod32(x: nat, size: nat)
    requires size < 32
    ensures x % TWO32 % Pow2(size) == x % Pow2(size)
  {
    Pow2Value32();
    Pow2Add(size, 32 - size);
    ModMod(x, Pow2(size), Pow2(32 - size));
  }

  /**
   * The cast to `int` in `Bits.extractUInt` never matters: the field is the
   * unsigned shift of the 64-bit pattern, reduced modulo `2^size`.
   */
  lemma ExtractUIntShift(value: Long, start: int, size: int)
    requires 0 < size < 32
    requires 0 <= start && start + size <= 64
    ensures ExtractUInt(value, start, size) == Unsigned64(value) / Pow2(start) % Pow2(size)
  {
    ExtractUIntUnfold(value, start, size);
    DivNonnegative(Unsigned64(value), Pow2(start));
    ModMod32(Unsigned64(value) / Pow2(start), size);
  }

  lemma DivNonnegative(u: nat, d: nat)
    requires d > 0
    ensures u / d >= 0
  {
  }

  lemma ExtractUIntUnfold(value: Long, start: int, size: int)
    requires 0 < size < 32
    requires 0 <= start && start + size <= 64
    ensures ExtractUInt(value, start, size) == Unsigned64(value) / Pow2(start) % TWO32 % Pow2(size)
  {
  }

  /** On a non-negative value `extractUInt` is a plain shift-and-remainder. */
  lemma ExtractUIntValue(value: Long, start: int, size: int)
    requires 0 < size < 32
    requires 0 <= start && start + size <= 64
    requires value >= 0
    ensures ExtractUInt(value, start, size) == value / Pow2(start) % Pow2(size)
  {
    ExtractUIntShift(value, start, size);
  }

  /** A field that covers every bit of a small value is the value shifted. */
  lemma ExtractUIntWhole(value: Long, start: int, size: int)
    requires 0 < size < 32
    requires 0 <= start && start + size <= 64
    requires 0 <= value < Pow2(start + size)
    ensures ExtractUInt(value, start, size) == value / Pow2(start)
  {
    ExtractUIntValue(value, start, size);
    Pow2Add(start, size);
    QuotientSmall(value, Pow2(start), Pow2(size), Pow2(start + size));
  }

  /** A quotient by `a` of a value below `a * b` is unchanged by a remainder modulo `b`. */
  lemma QuotientSmall(v: nat, a: nat, b: nat, ab: nat)
    requires a > 0 && b > 0 && ab == a * b && v < ab
    ensures v / a % b == v / a
  {
    QuotientBound(v, a, b);
    ModSmall(v / a, b);
  }

  /**
   * `testBit` reads bit `index` of the 64-bit two's-complement pattern of
   * the value, bit 63 included; on a non-negative value, of the number itself.
   */
  lemma TestBitValue(value: Long, index: int)
    requires 0 <= index < 64
    ensures TestBit(value, index) <==> Unsigned64(value) / Pow2(index) % 2 == 1
    ensures value >= 0 ==> (TestBit(value, index) <==> value / Pow2(index) % 2 == 1)
  {
    ExtractUIntShift(value, index, 1);
    assert Pow2(1) == 2;
  }

  // ---------------------------------------------------------------------------
  // Bit strings: the bits of a number, most significant first.
  // ---------------------------------------------------------------------------

  function Falses(n: nat): (s: seq<bool>)
    ensures |s| == n
    ensures forall i :: 0 <= i < n ==> !s[i]
  {
    seq(n, _ => false)
  }

  /** The number a bit string denotes, most significant bit first. */
  function Value(bs: seq<bool>): nat
  {
    if bs == [] then 0 else 2 * Value(bs[..|bs| - 1]) + (if bs[|bs| - 1] then 1 else 0)
  }

  /** The `n` low bits of `v`, most significant first. */
  function FromNat(v: nat, n: nat): (bs: seq<bool>)
    ensures |bs| == n
  {
    if n == 0 then [] else FromNat(v / 2, n - 1) + [v % 2 == 1]
  }

  lemma {:induction false} ValueBound(bs: seq<bool>)
    ensures Value(bs) < Pow2(|bs|)
    decreases |bs|
  {
    if bs != [] {
      ValueBound(bs[..|bs| - 1]);
    }
  }

  /** Reading back the `n` low bits of a number below `2^n` gives the number. */
  lemma {:induction false} ValueFromNat(v: nat, n: nat)
    requires v < Pow2(n)
    ensures Value(FromNat(v, n)) == v
    decreases n
  {
    if n > 0 {
      var bs := FromNat(v, n);
      assert bs[..n - 1] == FromNat(v / 2, n - 1);
      ValueFromNat(v / 2, n - 1);
    }
  }

  /** A bit string is the `|bs|` low bits of its value. */
  lemma {:induction false} FromNatValue(bs: seq<bool>)
    ensures FromNat(Value(bs), |bs|) == bs
    decreases |bs|
  {
    if bs != [] {
      var init, last := bs[..|bs| - 1], bs[|bs| - 1];
      var v := Value(bs);
      assert v / 2 == Value(init) && (v % 2 == 1) == last;
      FromNatValue(init);
      assert bs == init + [last];
    }
  }

  lemma {:induction false} ValueFalses(k: nat)
    ensures Value(Falses(k)) == 0
    decreases k
  {
    if k > 0 {
      assert Falses(k)[..k - 1] == Falses(k - 1);
      ValueFalses(k - 1);
    }
  }

  /** Leading zeros do not change a value. */
  lemma {:induction false} ValueLeadingZeros(k: nat, x: seq<bool>)
    ensures Value(Falses(k) + x) == Value(x)
    decreases |x|
  {
    if x == [] {
      assert Falses(k) + x == Falses(k);
      ValueFalses(k);
    } else {
      assert (Falses(k) + x)[..k + |x| - 1] == Falses(k) + x[..|x| - 1];
      ValueLeadingZeros(k, x[..|x| - 1]);
    }
  }

  /** Only the all-zero string has value zero. */
  lemma {:induction false} ValueZero(bs: seq<bool>)
    ensures Value(bs) == 0 <==> bs == Falses(|bs|)
    decreases |bs|
  {
    if bs != [] {
      ValueZero(bs[..|bs| - 1]);
      if bs == Falses(|bs|) {
        assert bs[..|bs| - 1] == Falses(|bs| - 1);
      }
      if Value(bs) == 0 {
        assert bs == bs[..|bs| - 1] + [bs[|bs| - 1]];
      }
    }
  }

  /** Bit `k` of `x` (bit 0 is the least significant one). */
  function Bit(x: nat, k: nat): bool
  {
    if k == 0 then x % 2 == 1 else Bit(x / 2, k - 1)
  }

  /** Bit `k` of `x` is the parity of `x >>> k`. */
  lemma {:induction false} BitValue(x: nat, k: nat)
    ensures Bit(x, k) <==> x / Pow2(k) % 2 == 1
    decreases k
  {
    if k > 0 {
      BitValue(x / 2, k - 1);
      DivDiv(x, 2, Pow2(k - 1));
    }
  }

  /** Element `n - 1 - k` of the `n`-bit string of `v` is bit `k` of `v`. */
  lemma {:induction false} FromNatBit(v: nat, n: nat, k: nat)
    requires k < n
    ensures FromNat(v, n)[n - 1 - k] == Bit(v, k)
    decreases k
  {
    if k > 0 {
      assert FromNat(v, n)[n - 1 - k] == FromNat(v / 2, n - 1)[n - 2 - (k - 1)];
      FromNatBit(v / 2, n - 1, k - 1);
    }
  }

  lemma {:induction false} BitZero(k: nat)
    ensures !Bit(0, k)
    decreases k
  {
    if k > 0 { BitZero(k - 1); }
  }

  /** Two numbers below `2^n` with the same `n` low bits are equal. */
  lemma {:induction false} SameBits(x: nat, y: nat, n: nat)
    requires x < Pow2(n) && y < Pow2(n)
    requires forall k :: 0 <= k < n ==> Bit(x, k) == Bit(y, k)
    ensures x == y
    decreases n
  {
    if n > 0 {
      assert Bit(x, 0) == Bit(y, 0);
      forall k | 0 <= k < n - 1
        ensures Bit(x / 2, k) == Bit(y / 2, k)
      {
        assert Bit(x, k + 1) == Bit(y, k + 1);
      }
      SameBits(x / 2, y / 2, n - 1);
    }
  }

  /** A number below `2^n` has no bit at or above `n`. */
  lemma {:induction false} HighBit(x: nat, n: nat, k: nat)
    requires x < Pow2(n) && n <= k
    ensures !Bit(x, k)
    decreases k
  {
    if x == 0 {
      BitZero(k);
    } else {
      HighBit(x / 2, n - 1, k - 1);
    }
  }

  /** `x >>> k` on a non-negative pattern. */
  function Shr(x: nat, k: nat): nat
  {
    DivNonnegative(x, Pow2(k));
    x / Pow2(k)
  }

  /** Bit `k` of `v >>> i` is bit `i + k` of `v`. */
  lemma {:induction false} ShiftBit(v: nat, i: nat, k: nat)
    ensures Bit(Shr(v, i), k) == Bit(v, i + k)
    decreases i
  {
    if i > 0 {
      DivDiv(v, 2, Pow2(i - 1));
      assert Shr(v, i) == Shr(v / 2, i - 1);
      ShiftBit(v / 2, i - 1, k);
    }
  }

  // ---------------------------------------------------------------------------
  // Bitwise operators on natural numbers.
  // ---------------------------------------------------------------------------

  /** `a ^ b` on non-negative values, defined bit by bit from the least significant end. */
  function Xor(a: nat, b: nat): nat
    decreases a + b
  {
    if a == 0 && b == 0 then 0 else 2 * Xor(a / 2, b / 2) + (a % 2 + b % 2) % 2
  }

  /** `a | b` on non-negative values. */
  function Or(a: nat, b: nat): nat
    decreases a + b
  {
    if a == 0 && b == 0 then 0
    else 2 * Or(a / 2, b / 2) + (if a % 2 == 1 || b % 2 == 1 then 1 else 0)
  }

  lemma XorStep(a: nat, b: nat)
    ensures Xor(a, b) / 2 == Xor(a / 2, b / 2)
    ensures Xor(a, b) % 2 == (a % 2 + b % 2) % 2
  {
  }

  /** Bit `k` of `a ^ b` is the exclusive or of bit `k` of `a` and of `b`. */
  lemma {:induction false} XorBit(a: nat, b: nat, k: nat)
    ensures Bit(Xor(a, b), k) == (Bit(a, k) != Bit(b, k))
    decreases k
  {
    XorStep(a, b);
    if k > 0 {
      XorBit(a / 2, b / 2, k - 1);
    }
  }

  lemma {:induction false} XorZero(a: nat)
    ensures Xor(a, 0) == a && Xor(0, a) == a
    decreases a
  {
    if a != 0 { XorZero(a / 2); }
  }

  lemma {:induction false} XorBound(a: nat, b: nat, n: nat)
    requires a < Pow2(n) && b < Pow2(n)
    ensures Xor(a, b) < Pow2(n)
    decreases n
  {
    if n > 0 && (a != 0 || b != 0) {
      XorBound(a / 2, b / 2, n - 1);
    }
  }

  lemma {:induction false} OrBound(a: nat, b: nat, n: nat)
    requires a < Pow2(n) && b < Pow2(n)
    ensures Or(a, b) < Pow2(n)
    decreases n
  {
    if n > 0 && (a != 0 || b != 0) {
      OrBound(a / 2, b / 2, n - 1);
    }
  }

  /** `(a << k) | b` is `a * 2^k + b` when `b` fits in the `k` low bits. */
  lemma {:induction false} OrShifted(a: nat, k: nat, b: nat)
    requires b < Pow2(k)
    ensures Or(a * Pow2(k), b) == a * Pow2(k) + b
    ensures Or(b, a * Pow2(k)) == a * Pow2(k) + b
    decreases k
  {
    if k == 0 {
      assert b == 0;
      OrZero(a);
    } else {
      var x := a * Pow2(k);
      assert x == 2 * (a * Pow2(k - 1));
      assert x % 2 == 0 && x / 2 == a * Pow2(k - 1);
      OrShifted(a, k - 1, b / 2);
      if x != 0 || b != 0 {
        assert Or(x, b) == 2 * Or(x / 2, b / 2) + b % 2;
        assert Or(b, x) == 2 * Or(b / 2, x / 2) + b % 2;
      }
    }
  }

  lemma {:induction false} OrZero(a: nat)
    ensures Or(a, 0) == a && Or(0, a) == a
    decreases a
  {
    if a != 0 { OrZero(a / 2); }
  }
}
