/**
 * The Mode S parity check of ICAO Annex 10 Volume IV, section 3.1.2.3.3: a
 * 24-bit CRC with generator 0xFFF409.
 *
 * The register is a Java `int`. It is modelled as its 32 bits, most
 * significant first (`w[31 - k]` is bit `k`), so that `<<` drops the bits
 * that leave the word exactly as Java does, `^` is a pointwise exclusive or
 * and `& 0xFFFFFF` clears the eight high bits. `Value` reads such a bit
 * string back as a number.
 *
 * The reference algorithm shifts the message in one bit at a time, most
 * significant bit first, followed by 24 zero bits; the fast algorithm
 * consumes a byte per step through a 256-entry table built from the
 * reference algorithm, then flushes with three zero bytes.
 */
module Crc {
  import Bits

  /** A Java `int` as its 32 bits. */
  type Word = w: seq<bool> | |w| == 32 witness Bits.Falses(32)

  const ZERO: Word := Bits.Falses(32)
  const GENERATOR: Word := Bits.FromNat(0xFFF409, 32)
  const CRC_LENGTH: nat := 24

  /** The bits of an unsigned byte, most significant first. */
  function ByteBits(b: Bits.UByte): (bits: seq<bool>)
    ensures |bits| == 8
  {
    Bits.FromNat(b, 8)
  }

  /** `(w << k) | v` for a `k`-bit value `v` given as its bits. */
  function ShiftIn(w: Word, bits: seq<bool>): Word
    requires |bits| <= 32
  {
    w[|bits|..] + bits
  }

  /** `a ^ b` on two `int`s. */
  function Xor(a: Word, b: Word): Word
  {
    seq(32, i requires 0 <= i < 32 => a[i] != b[i])
  }

  /** `MASK & w` with `MASK = 0xFFFFFF`: the eight high bits cleared. */
  function Masked(w: Word): Word
  {
    Bits.Falses(8) + w[8..]
  }

  /** `Bits.extractUInt(crc, 23, 1) == 1`: bit 23 of the register. */
  function Top(w: Word): bool
  {
    w[8]
  }

  /** `Bits.extractUInt(crc, 16, 8)`: bits 16..23 of the register, the table index. */
  function Index(w: Word): (r: nat)
    ensures r < 256
  {
    Bits.ValueBound(w[8..16]);
    Bits.Pow2Value8();
    Bits.Value(w[8..16])
  }

  // ---------------------------------------------------------------------------
  // Reference (bitwise) CRC
  // ---------------------------------------------------------------------------

  /** One iteration of the inner loop of `crc_bitwise`, with its table `{0, g}`. */
  function BitStep(g: Word, crc: Word, bit: bool): Word
  {
    Xor(ShiftIn(crc, [bit]), if Top(crc) then g else ZERO)
  }

  /** The register after shifting in `bits`, first element first. */
  function Feed(g: Word, crc: Word, bits: seq<bool>): Word
    decreases |bits|
  {
    if bits == [] then crc else Feed(g, BitStep(g, crc, bits[0]), bits[1..])
  }

  /** The bits of a message, byte by byte, each most significant bit first. */
  function MessageBits(m: seq<Bits.UByte>): (bits: seq<bool>)
    ensures |bits| == 8 * |m|
  {
    if m == [] then [] else MessageBits(m[..|m| - 1]) + ByteBits(m[|m| - 1])
  }

  /** The value `crc_bitwise(g, m)` returns: the message then 24 zero bits, masked. */
  function BitwiseCrc(g: Word, m: seq<Bits.UByte>): Word
  {
    Masked(Feed(g, ZERO, MessageBits(m) + Bits.Falses(CRC_LENGTH)))
  }

  /** `crc_bitwise`, with its two nested loops and its flush loop. */
  method CrcBitwise(g: Word, bytes: seq<Bits.UByte>) returns (r: Word)
    ensures r == BitwiseCrc(g, bytes)
  {
    var table := [ZERO, g];
    var crc := ZERO;
    for i := 0 to |bytes|
      invariant crc == Feed(g, ZERO, MessageBits(bytes[..i]))
    {
      var bits := ByteBits(bytes[i]);
      var bit := 7;
      assert MessageBits(bytes[..i]) + bits[..0] == MessageBits(bytes[..i]);
      while bit >= 0
        invariant -1 <= bit <= 7
        invariant crc == Feed(g, ZERO, MessageBits(bytes[..i]) + bits[..7 - bit])
      {
        var index := if Top(crc) then 1 else 0;
        FeedPrefixStep(g, crc, MessageBits(bytes[..i]), bits, 7 - bit);
        crc := Xor(ShiftIn(crc, [bits[7 - bit]]), table[index]);
        bit := bit - 1;
      }
      assert bits[..8] == bits;
      MessageBitsSnoc(bytes, i);
    }
    assert bytes[..|bytes|] == bytes;
    assert MessageBits(bytes) + Bits.Falses(CRC_LENGTH)[..0] == MessageBits(bytes);
    for j := 0 to CRC_LENGTH
      invariant crc == Feed(g, ZERO, MessageBits(bytes) + Bits.Falses(CRC_LENGTH)[..j])
    {
      FeedPrefixStep(g, crc, MessageBits(bytes), Bits.Falses(CRC_LENGTH), j);
      crc := Xor(ShiftIn(crc, [false]), table[if Top(crc) then 1 else 0]);
    }
    assert Bits.Falses(CRC_LENGTH)[..CRC_LENGTH] == Bits.Falses(CRC_LENGTH);
    r := Masked(crc);
  }

  /** `buildTable`: entry `i` is the bitwise CRC of the one-byte message `[i]`. */
  method BuildTable(g: Word) returns (table: array<Word>)
    ensures fresh(table) && table.Length == 256
    ensures forall i :: 0 <= i < 256 ==> table[i] == BitwiseCrc(g, [i as Bits.UByte])
  {
    table := new Word[256](_ => ZERO);
    for i := 0 to 256
      invariant forall k :: 0 <= k < i ==> table[k] == BitwiseCrc(g, [k as Bits.UByte])
    {
      table[i] := CrcBitwise(g, [i as Bits.UByte]);
    }
  }

  /** The table-driven CRC computer of `Crc24`. */
  class Crc24 {
    const generator: Word
    const table: array<Word>

    ghost predicate Valid()
      reads this, table
    {
      table.Length == 256 &&
      forall i :: 0 <= i < 256 ==> table[i] == BitwiseCrc(generator, [i as Bits.UByte])
    }

    constructor (generator: Word)
      ensures this.generator == generator && Valid()
    {
      var t := BuildTable(generator);
      this.generator := generator;
      table := t;
    }

    /** `crc`: one table step per byte, then three flush steps; equal to `crc_bitwise`. */
    method Crc(bytes: seq<Bits.UByte>) returns (r: Word)
      requires Valid()
      ensures r == BitwiseCrc(generator, bytes)
    {
      var crc := ZERO;
      for i := 0 to |bytes|
        invariant Masked(crc) == Masked(Feed(generator, ZERO, MessageBits(bytes[..i])))
      {
        var bits := ByteBits(bytes[i]);
        TableLoopStep(generator, crc, MessageBits(bytes[..i]), bits);
        MessageBitsSnoc(bytes, i);
        crc := Xor(ShiftIn(crc, bits), table[Index(crc)]);
      }
      assert bytes[..|bytes|] == bytes;
      assert MessageBits(bytes) + Bits.Falses(0) == MessageBits(bytes);
      for j := 0 to CRC_LENGTH / 8
        invariant Masked(crc) == Masked(Feed(generator, ZERO, MessageBits(bytes) + Bits.Falses(8 * j)))
      {
        TableLoopStep(generator, crc, MessageBits(bytes) + Bits.Falses(8 * j), Bits.Falses(8));
        assert MessageBits(bytes) + Bits.Falses(8 * j) + Bits.Falses(8) == MessageBits(bytes) + Bits.Falses(8 * (j + 1));
        crc := Xor(ShiftIn(crc, Bits.Falses(8)), table[Index(crc)]);
      }
      assert Bits.Falses(8 * (CRC_LENGTH / 8)) == Bits.Falses(CRC_LENGTH);
      r := Masked(crc);
    }
  }

  // ---------------------------------------------------------------------------
  // Bit strings and numbers
  // ---------------------------------------------------------------------------

  /** Both CRC functions return values in `[0, 2^24)`. */
  lemma CrcRange(g: Word, m: seq<Bits.UByte>)
    ensures Bits.Value(BitwiseCrc(g, m)) < Bits.Pow2(CRC_LENGTH)
  {
    var w := Feed(g, ZERO, MessageBits(m) + Bits.Falses(CRC_LENGTH));
    assert Masked(w) == Bits.Falses(8) + w[8..];
    Bits.ValueLeadingZeros(8, w[8..]);
    Bits.ValueBound(w[8..]);
  }

  // ---------------------------------------------------------------------------
  // Properties of the reference CRC
  // ---------------------------------------------------------------------------

  lemma {:induction false} FeedAppend(g: Word, crc: Word, xs: seq<bool>, ys: seq<bool>)
    ensures Feed(g, crc, xs + ys) == Feed(g, Feed(g, crc, xs), ys)
    decreases |xs|
  {
    if xs == [] {
      assert xs + ys == ys;
    } else {
      assert (xs + ys)[0] == xs[0];
      assert (xs + ys)[1..] == xs[1..] + ys;
      FeedAppend(g, BitStep(g, crc, xs[0]), xs[1..], ys);
    }
  }

  /** Shifting in element `t` of `bits` extends the fed prefix by one. */
  lemma FeedPrefixStep(g: Word, crc: Word, prefix: seq<bool>, bits: seq<bool>, t: nat)
    requires t < |bits|
    requires crc == Feed(g, ZERO, prefix + bits[..t])
    ensures BitStep(g, crc, bits[t]) == Feed(g, ZERO, prefix + bits[..t + 1])
  {
    FeedAppend(g, ZERO, prefix + bits[..t], [bits[t]]);
    assert [bits[t]][1..] == [];
    assert prefix + bits[..t] + [bits[t]] == prefix + bits[..t + 1];
  }

  lemma MessageBitsSnoc(m: seq<Bits.UByte>, i: nat)
    requires i < |m|
    ensures MessageBits(m[..i + 1]) == MessageBits(m[..i]) + ByteBits(m[i])
  {
    assert m[..i + 1][..i] == m[..i];
  }

  /** One step of the table-driven loop, against a reference register `acc`. */
  lemma TableLoopStep(g: Word, crc: Word, prefix: seq<bool>, bits: seq<bool>)
    requires |bits| == 8
    requires Masked(crc) == Masked(Feed(g, ZERO, prefix))
    ensures Masked(Xor(ShiftIn(crc, bits), BitwiseCrc(g, [Index(crc) as Bits.UByte])))
         == Masked(Feed(g, ZERO, prefix + bits))
  {
    TableStep(g, crc, bits);
    FeedLowAgree(g, crc, Feed(g, ZERO, prefix), bits);
    FeedAppend(g, ZERO, prefix, bits);
  }

  lemma FeedSnoc(g: Word, crc: Word, xs: seq<bool>, x: bool)
    ensures Feed(g, crc, xs + [x]) == BitStep(g, Feed(g, crc, xs), x)
  {
    FeedAppend(g, crc, xs, [x]);
    assert [x][1..] == [];
  }

  lemma ZeroStep(g: Word)
    ensures BitStep(g, ZERO, false) == ZERO
  {
    assert ShiftIn(ZERO, [false]) == ZERO;
  }

  lemma {:induction false} FeedZerosFromZero(g: Word, n: nat)
    ensures Feed(g, ZERO, Bits.Falses(n)) == ZERO
    decreases n
  {
    if n > 0 {
      ZeroStep(g);
      assert Bits.Falses(n)[1..] == Bits.Falses(n - 1);
      FeedZerosFromZero(g, n - 1);
    }
  }

  /** The CRC of the empty message is 0, and so is `table[0]`. */
  lemma EmptyCrc(g: Word)
    ensures BitwiseCrc(g, []) == ZERO
    ensures BitwiseCrc(g, [0]) == ZERO
  {
    assert MessageBits([]) + Bits.Falses(CRC_LENGTH) == Bits.Falses(CRC_LENGTH);
    FeedZerosFromZero(g, CRC_LENGTH);
    assert ByteBits(0) == Bits.Falses(8);
    assert [0 as Bits.UByte][..0] == [];
    assert MessageBits([0]) + Bits.Falses(CRC_LENGTH) == Bits.Falses(8 + CRC_LENGTH);
    FeedZerosFromZero(g, 8 + CRC_LENGTH);
  }

  // One bit step is linear over XOR (the CRC is a linear code).

  lemma BitStepLinear(g: Word, a: Word, c: Word, x: bool, y: bool)
    ensures BitStep(g, Xor(a, c), x != y) == Xor(BitStep(g, a, x), BitStep(g, c, y))
  {
    var l, r := BitStep(g, Xor(a, c), x != y), Xor(BitStep(g, a, x), BitStep(g, c, y));
    forall i | 0 <= i < 32
      ensures l[i] == r[i]
    {
    }
  }

  /** Feeding bits into `a ^ c` is feeding zeros into `a` and the bits into `c`. */
  lemma {:induction false} FeedLinear(g: Word, a: Word, c: Word, bits: seq<bool>)
    ensures Feed(g, Xor(a, c), bits) == Xor(Feed(g, a, Bits.Falses(|bits|)), Feed(g, c, bits))
    decreases |bits|
  {
    if bits != [] {
      BitStepLinear(g, a, c, false, bits[0]);
      assert Bits.Falses(|bits|)[1..] == Bits.Falses(|bits| - 1);
      FeedLinear(g, BitStep(g, a, false), BitStep(g, c, bits[0]), bits[1..]);
    }
  }

  // Only the low 24 bits of the register matter.

  lemma BitStepLowAgree(g: Word, a: Word, b: Word, x: bool)
    requires Masked(a) == Masked(b)
    ensures Masked(BitStep(g, a, x)) == Masked(BitStep(g, b, x))
  {
    forall i | 8 <= i < 32
      ensures a[i] == b[i]
    {
      assert Masked(a)[i] == Masked(b)[i];
    }
    var l, r := Masked(BitStep(g, a, x)), Masked(BitStep(g, b, x));
    forall i | 0 <= i < 32
      ensures l[i] == r[i]
    {
    }
  }

  /** Two registers that agree on their low 24 bits keep agreeing. */
  lemma {:induction false} FeedLowAgree(g: Word, a: Word, b: Word, bits: seq<bool>)
    requires Masked(a) == Masked(b)
    ensures Masked(Feed(g, a, bits)) == Masked(Feed(g, b, bits))
    decreases |bits|
  {
    if bits != [] {
      BitStepLowAgree(g, a, b, bits[0]);
      FeedLowAgree(g, BitStep(g, a, bits[0]), BitStep(g, b, bits[0]), bits[1..]);
    }
  }

  lemma XorZeroWord(w: Word)
    ensures Xor(w, ZERO) == w
  {
    var r := Xor(w, ZERO);
    forall i | 0 <= i < 32
      ensures r[i] == w[i]
    {
    }
  }

  // While bits 16..23 are clear the register just shifts, with no reduction.

  lemma {:induction false} FeedNoReduction(g: Word, a: Word, bits: seq<bool>)
    requires |bits| <= 8
    requires forall k :: 8 <= k < 8 + |bits| ==> !a[k]
    ensures Feed(g, a, bits) == ShiftIn(a, bits)
    decreases |bits|
  {
    if bits != [] {
      var s := BitStep(g, a, bits[0]);
      assert !Top(a);
      XorZeroWord(ShiftIn(a, [bits[0]]));
      assert s == a[1..] + [bits[0]];
      forall k | 8 <= k < 8 + |bits| - 1
        ensures !s[k]
      {
        assert s[k] == a[k + 1];
      }
      FeedNoReduction(g, s, bits[1..]);
      assert s[|bits| - 1..] == a[|bits|..] + [bits[0]];
      assert [bits[0]] + bits[1..] == bits;
    }
  }

  /** The table entry for `v`, before its last eight zero bits: `v << 16`. */
  function HighByte(bits: seq<bool>): Word
    requires |bits| == 8
  {
    Bits.Falses(8) + bits + Bits.Falses(16)
  }

  lemma DropFalses(n: nat, k: nat)
    requires k <= n
    ensures Bits.Falses(n)[k..] == Bits.Falses(n - k)
  {
  }

  lemma DropAppend(p: seq<bool>, q: seq<bool>, k: nat)
    requires k <= |p|
    ensures (p + q)[k..] == p[k..] + q
  {
  }

  /** Shifting the bits of a byte into an empty register, then two zero bytes, gives `v << 16`. */
  lemma ByteIntoZero(g: Word, b: seq<bool>)
    requires |b| == 8
    ensures Feed(g, ZERO, b + Bits.Falses(16)) == HighByte(b)
  {
    var w0 := ShiftIn(ZERO, b);
    DropFalses(32, 8);
    assert w0 == Bits.Falses(24) + b;
    var w1 := ShiftIn(w0, Bits.Falses(8));
    DropAppend(Bits.Falses(24), b, 8);
    DropFalses(24, 8);
    assert w1 == Bits.Falses(16) + b + Bits.Falses(8);
    var w2 := ShiftIn(w1, Bits.Falses(8));
    DropAppend(Bits.Falses(16), b + Bits.Falses(8), 8);
    DropFalses(16, 8);
    assert w2 == Bits.Falses(8) + (b + Bits.Falses(8)) + Bits.Falses(8);
    assert w2 == HighByte(b);
    FeedNoReduction(g, ZERO, b);
    FeedNoReduction(g, w0, Bits.Falses(8));
    FeedNoReduction(g, w1, Bits.Falses(8));
    assert Bits.Falses(16) == Bits.Falses(8) + Bits.Falses(8);
    assert b + Bits.Falses(16) == b + Bits.Falses(8) + Bits.Falses(8);
    FeedAppend(g, ZERO, b + Bits.Falses(8), Bits.Falses(8));
    FeedAppend(g, ZERO, b, Bits.Falses(8));
  }

  /** Table entry `v` is eight zero-bit steps applied to `v << 16`. */
  lemma TableEntryShape(g: Word, v: Bits.UByte)
    ensures BitwiseCrc(g, [v]) == Masked(Feed(g, HighByte(ByteBits(v)), Bits.Falses(8)))
  {
    var b := ByteBits(v);
    assert [v][..0] == [];
    assert MessageBits([v]) == b;
    ByteIntoZero(g, b);
    assert Bits.Falses(CRC_LENGTH) == Bits.Falses(16) + Bits.Falses(8);
    assert b + Bits.Falses(CRC_LENGTH) == b + Bits.Falses(16) + Bits.Falses(8);
    FeedAppend(g, ZERO, b + Bits.Falses(16), Bits.Falses(8));
  }

  /** The low 24 bits of a register split into bits 16..23 and bits 0..15. */
  lemma SplitRegister(r: Word)
    ensures Masked(r) == Xor(HighByte(r[8..16]), Bits.Falses(16) + r[16..])
  {
    var l, s := Masked(r), Xor(HighByte(r[8..16]), Bits.Falses(16) + r[16..]);
    forall i | 0 <= i < 32
      ensures l[i] == s[i]
    {
    }
  }

  lemma AssembleStep(r: Word, bits: seq<bool>, x: Word)
    requires |bits| == 8
    ensures Masked(Xor(ShiftIn(r, bits), Masked(x)))
         == Masked(Xor(x, ShiftIn(Bits.Falses(16) + r[16..], bits)))
  {
    var lo := Bits.Falses(16) + r[16..];
    var l, s := Masked(Xor(ShiftIn(r, bits), Masked(x))), Masked(Xor(x, ShiftIn(lo, bits)));
    forall i | 0 <= i < 32
      ensures l[i] == s[i]
    {
      if 8 <= i {
        assert Masked(x)[i] == x[i];
        assert l[i] == (ShiftIn(r, bits)[i] != x[i]);
        assert s[i] == (x[i] != ShiftIn(lo, bits)[i]);
      }
      if 8 <= i < 24 {
        assert ShiftIn(r, bits)[i] == r[i + 8];
        assert ShiftIn(lo, bits)[i] == lo[i + 8] == r[i + 8];
      } else if 24 <= i {
        assert ShiftIn(r, bits)[i] == bits[i - 24] == ShiftIn(lo, bits)[i];
      }
    }
  }

  /**
   * One step of the table-driven loop agrees, on the low 24 bits, with eight
   * bit steps of the reference algorithm, whatever the high bits of `r` hold.
   */
  lemma TableStep(g: Word, r: Word, bits: seq<bool>)
    requires |bits| == 8
    ensures Masked(Xor(ShiftIn(r, bits), BitwiseCrc(g, [Index(r) as Bits.UByte])))
         == Masked(Feed(g, r, bits))
  {
    var hi, lo := HighByte(r[8..16]), Bits.Falses(16) + r[16..];
    assert ByteBits(Index(r)) == r[8..16] by {
      Bits.FromNatValue(r[8..16]);
    }
    TableEntryShape(g, Index(r));
    assert Masked(Masked(r)) == Masked(r);
    FeedLowAgree(g, r, Masked(r), bits);
    SplitRegister(r);
    FeedLinear(g, hi, lo, bits);
    FeedNoReduction(g, lo, bits);
    AssembleStep(r, bits, Feed(g, hi, Bits.Falses(8)));
  }
}
