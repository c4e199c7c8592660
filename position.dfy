/**
 * `AirbornePositionMessage`: the altitude and the CPR coordinates of an
 * airborne position squitter (type codes 9 to 18 and 20 to 22, section
 * 2.2.3.2.3 of RTCA DO-260B). The altitude is in feet: either a multiple of
 * 25 feet (Q bit set) or a Gillham code, whose bits are interleaved and
 * Gray-coded.
 */
module AirbornePositions {
  import Bits
  import Validators
  import RawMessages
  import opened Wrappers

  const START_INDEX_ALT: nat := 36
  const SIZE_ALTITUDE: nat := 12
  const START_INDEX_FORMAT: nat := 34
  const SIZE_LAT_LON_CPR: nat := 17
  /** `2^17`: the CPR coordinates are 17-bit fractions of one. */
  const CPR_SCALE: nat := 0x2_0000
  const INVALID_VALUES: set<nat> := {0, 5, 6}

  // ---------------------------------------------------------------------------
  // Disentangling: the twelve bits read in the order of the Gillham code
  // ---------------------------------------------------------------------------

  /** The `index` array of `disentangling`: bit `k`, then `k - 2` and `k - 4`, for each `k`. */
  const INDEX: seq<nat> := [4, 10, 5, 11]

  /** The bits `disentangling` reads, most significant first. */
  const ORDER: seq<nat> := [4, 2, 0, 10, 8, 6, 5, 3, 1, 11, 9, 7]

  /** The order that undoes `ORDER`: gathering the bits of `Gather(x, ORDER)` in this order gives `x` back. */
  const INVERSE: seq<nat> := [2, 8, 1, 7, 0, 6, 5, 11, 4, 10, 3, 9]

  /** Bits `order[0]`, `order[1]`, ... of `x`, packed most significant first. */
  function Gather(x: nat, order: seq<nat>): nat
    decreases |order|
  {
    if order == [] then 0
    else 2 * Gather(x, order[..|order| - 1]) + BitAt(x, order[|order| - 1])
  }

  /** Bit 0 of `2g + b` is `b`, and the higher bits are those of `g`. */
  lemma BitOfDouble(g: nat, b: nat, k: nat)
    requires b < 2
    ensures Bits.Bit(2 * g + b, 0) == (b == 1)
    ensures Bits.Bit(2 * g + b, k + 1) == Bits.Bit(g, k)
  {
    assert (2 * g + b) / 2 == g;
  }

  /** `Gather` has `|order|` bits, and bit `|order| - 1 - p` of it is bit `order[p]` of `x`. */
  lemma {:induction false} GatherBits(x: nat, order: seq<nat>)
    ensures Gather(x, order) < Bits.Pow2(|order|)
    ensures forall p :: 0 <= p < |order| ==> Bits.Bit(Gather(x, order), |order| - 1 - p) == Bits.Bit(x, order[p])
    decreases |order|
  {
    if order != [] {
      var n := |order|;
      var init := order[..n - 1];
      var g := Gather(x, init);
      var b := BitAt(x, order[n - 1]);
      GatherBits(x, init);
      assert Gather(x, order) == 2 * g + b;
      forall p | 0 <= p < n
        ensures Bits.Bit(2 * g + b, n - 1 - p) == Bits.Bit(x, order[p])
      {
        if p < n - 1 {
          BitOfDouble(g, b, n - 2 - p);
          assert init[p] == order[p];
        } else {
          BitOfDouble(g, b, 0);
          Bits.ShiftBit(x, order[n - 1], 0);
        }
      }
    }
  }

  /** `disentangling`, as a value: the twelve bits in the order of `ORDER`. */
  function Disentangled(altitude: nat): nat
  {
    Gather(altitude, ORDER)
  }

  /** The inverse reordering. */
  function Entangled(d: nat): nat
  {
    Gather(d, INVERSE)
  }

  /** `ORDER` and `INVERSE` are inverse permutations of the bit positions 0 to 11, mirrored. */
  lemma OrderInverse(p: nat)
    requires p < 12
    ensures ORDER[p] < 12 && INVERSE[11 - ORDER[p]] == 11 - p
    ensures INVERSE[p] < 12 && ORDER[11 - INVERSE[p]] == 11 - p
  {
    if p < 6 {
    } else {
    }
  }

  /** Bit `11 - p` of the disentangled value is bit `ORDER[p]` of the altitude: the order 4, 2, 0, 10, 8, 6, 5, 3, 1, 11, 9, 7 read from the most significant bit. */
  lemma DisentangledBits(altitude: nat)
    ensures Disentangled(altitude) < Bits.Pow2(12)
    ensures forall p :: 0 <= p < 12 ==> Bits.Bit(Disentangled(altitude), 11 - p) == Bits.Bit(altitude, ORDER[p])
  {
    GatherBits(altitude, ORDER);
  }

  /** Disentangling is a bijection on 12-bit values: `Entangled` undoes it, both ways round. */
  lemma DisentanglingBijection(a: nat, d: nat)
    requires a < Bits.Pow2(12) && d < Bits.Pow2(12)
    ensures Entangled(Disentangled(a)) == a
    ensures Disentangled(Entangled(d)) == d
  {
    var da := Disentangled(a);
    GatherBits(a, ORDER);
    GatherBits(da, INVERSE);
    forall k | 0 <= k < 12
      ensures Bits.Bit(Entangled(da), k) == Bits.Bit(a, k)
    {
      var q := 11 - k;
      OrderInverse(q);
      assert Bits.Bit(Entangled(da), 11 - q) == Bits.Bit(da, INVERSE[q]);
      assert Bits.Bit(da, 11 - (11 - INVERSE[q])) == Bits.Bit(a, ORDER[11 - INVERSE[q]]);
    }
    Bits.SameBits(Entangled(da), a, 12);
    var ed := Entangled(d);
    GatherBits(d, INVERSE);
    GatherBits(ed, ORDER);
    forall k | 0 <= k < 12
      ensures Bits.Bit(Disentangled(ed), k) == Bits.Bit(d, k)
    {
      var p := 11 - k;
      OrderInverse(p);
      assert Bits.Bit(Disentangled(ed), 11 - p) == Bits.Bit(ed, ORDER[p]);
      assert Bits.Bit(ed, 11 - (11 - ORDER[p])) == Bits.Bit(d, INVERSE[11 - ORDER[p]]);
    }
    Bits.SameBits(Disentangled(ed), d, 12);
  }

  /** The position in `ORDER` of the bit read by the iteration over `INDEX[m]` at `j = 2 * jj`. */
  lemma LoopOrder(m: nat, jj: nat)
    requires m < 4 && jj < 3
    ensures 3 * m + jj < 12 && ORDER[3 * m + jj] == INDEX[m] - 2 * jj
  {
  }

  /** `disentangling`: for each `k` of `INDEX`, the inner loop shifts in bits `k`, `k - 2` and `k - 4`. */
  method Disentangling(altitude: nat) returns (result: nat)
    ensures result == Disentangled(altitude)
  {
    result := 0;
    var index := INDEX;
    for m := 0 to |index|
      invariant result == Gather(altitude, ORDER[..3 * m])
    {
      result := ShiftInGroup(altitude, index[m], result);
      LoopOrder(m, 0);
      LoopOrder(m, 1);
      LoopOrder(m, 2);
      GatherStep(altitude, ORDER, 3 * m);
      GatherStep(altitude, ORDER, 3 * m + 1);
      GatherStep(altitude, ORDER, 3 * m + 2);
    }
    assert ORDER[..12] == ORDER;
  }

  /** Bit `k` of `altitude`, as `(altitude >> k) & 1`. */
  function BitAt(altitude: nat, k: nat): nat
  {
    Bits.Shr(altitude, k) % 2
  }

  /** The inner loop of `disentangling`, over `j = 0, 2, 4`: shifts in bits `k`, `k - 2` and `k - 4`. */
  method ShiftInGroup(altitude: nat, k: nat, result0: nat) returns (result: nat)
    requires k >= 4
    ensures result == 2 * (2 * (2 * result0 + BitAt(altitude, k)) + BitAt(altitude, k - 2)) + BitAt(altitude, k - 4)
  {
    result := result0;
    var j := 0;
    while j <= |INDEX|
      invariant j == 0 || j == 2 || j == 4 || j == 6
      invariant j == 0 ==> result == result0
      invariant j == 2 ==> result == 2 * result0 + BitAt(altitude, k)
      invariant j == 4 ==> result == 2 * (2 * result0 + BitAt(altitude, k)) + BitAt(altitude, k - 2)
      invariant j == 6 ==> result == 2 * (2 * (2 * result0 + BitAt(altitude, k)) + BitAt(altitude, k - 2)) + BitAt(altitude, k - 4)
    {
      var temp := Bits.Shr(altitude, k - j) % 2;
      ShiftIn(result, temp);
      result := Bits.Or(result * 2, temp);
      j := j + 2;
    }
  }

  /** Reading one more bit of `order` shifts it in at the least significant end. */
  lemma GatherStep(x: nat, order: seq<nat>, i: nat)
    requires i < |order|
    ensures Gather(x, order[..i + 1]) == 2 * Gather(x, order[..i]) + BitAt(x, order[i])
  {
    assert order[..i + 1][..i] == order[..i];
  }

  /** `(result << 1) | temp` for a single bit `temp`. */
  lemma ShiftIn(result: nat, temp: nat)
    requires temp < 2
    ensures Bits.Or(result * 2, temp) == 2 * result + temp
  {
    assert Bits.Pow2(1) == 2;
    Bits.OrShifted(result, 1, temp);
  }

  // ---------------------------------------------------------------------------
  // Gray code
  // ---------------------------------------------------------------------------

  /** `decoderGrayCode(value, n)`: the exclusive or of `value >> i` for `i < n`, in loop order. */
  function GrayDecoded(value: nat, n: nat): nat
  {
    if n == 0 then 0 else Bits.Xor(Bits.Shr(value, n - 1), GrayDecoded(value, n - 1))
  }

  /** The reflected binary code of `b`: `b ^ (b >> 1)`. */
  function GrayCode(b: nat): nat
  {
    Bits.Xor(b, Bits.Shr(b, 1))
  }

  /** The exclusive or of bits `t` to `t + n - 1` of `v`. */
  function Parity(v: nat, t: nat, n: nat): bool
  {
    if n == 0 then false else Bits.Bit(v, t + n - 1) != Parity(v, t, n - 1)
  }

  /** `decoderGrayCode`. */
  method DecoderGrayCode(value: nat, index: nat) returns (decoded: nat)
    ensures decoded == GrayDecoded(value, index)
  {
    decoded := 0;
    for i := 0 to index
      invariant decoded == GrayDecoded(value, i)
    {
      decoded := Bits.Xor(Bits.Shr(value, i), decoded);
    }
  }

  lemma {:induction false} GrayDecodedBit(v: nat, n: nat, t: nat)
    ensures Bits.Bit(GrayDecoded(v, n), t) == Parity(v, t, n)
    decreases n
  {
    if n == 0 {
      Bits.BitZero(t);
    } else {
      GrayDecodedBit(v, n - 1, t);
      Bits.XorBit(Bits.Shr(v, n - 1), GrayDecoded(v, n - 1), t);
      Bits.ShiftBit(v, n - 1, t);
    }
  }

  lemma GrayCodeBit(b: nat, t: nat)
    ensures Bits.Bit(GrayCode(b), t) == (Bits.Bit(b, t) != Bits.Bit(b, t + 1))
  {
    Bits.XorBit(b, Bits.Shr(b, 1), t);
    Bits.ShiftBit(b, 1, t);
  }

  /** Over the reflected code, the parities telescope. */
  lemma {:induction false} GrayCodeParity(b: nat, t: nat, n: nat)
    ensures Parity(GrayCode(b), t, n) == (Bits.Bit(b, t) != Bits.Bit(b, t + n))
    decreases n
  {
    if n > 0 {
      GrayCodeParity(b, t, n - 1);
      GrayCodeBit(b, t + n - 1);
    }
  }

  lemma {:induction false} ParityFirst(v: nat, t: nat, n: nat)
    ensures Parity(v, t, n + 1) == (Bits.Bit(v, t) != Parity(v, t + 1, n))
    decreases n
  {
    if n > 0 {
      ParityFirst(v, t, n - 1);
    }
  }

  lemma ShrAtMost(v: nat, i: nat)
    ensures Bits.Shr(v, i) <= v
  {
    var d := Bits.Pow2(i);
    assert Bits.Shr(v, i) == v / d;
    Bits.MulAtLeast(if v / d == 0 then 1 else v / d, d);
  }

  lemma {:induction false} GrayDecodedBound(v: nat, n: nat, m: nat)
    requires v < Bits.Pow2(m)
    ensures GrayDecoded(v, n) < Bits.Pow2(m)
    decreases n
  {
    if n > 0 {
      GrayDecodedBound(v, n - 1, m);
      ShrAtMost(v, n - 1);
      Bits.XorBound(Bits.Shr(v, n - 1), GrayDecoded(v, n - 1), m);
    }
  }

  /** `decoderGrayCode(b ^ (b >> 1), n) == b` for every `b < 2^n`. */
  lemma GrayRoundTrip(b: nat, n: nat)
    requires b < Bits.Pow2(n)
    ensures GrayDecoded(GrayCode(b), n) == b
  {
    ShrAtMost(b, 1);
    Bits.XorBound(b, Bits.Shr(b, 1), n);
    GrayDecodedBound(GrayCode(b), n, n);
    forall t | 0 <= t < n
      ensures Bits.Bit(GrayDecoded(GrayCode(b), n), t) == Bits.Bit(b, t)
    {
      GrayDecodedBit(GrayCode(b), n, t);
      GrayCodeParity(b, t, n);
      Bits.HighBit(b, n, t + n);
    }
    Bits.SameBits(GrayDecoded(GrayCode(b), n), b, n);
  }

  /** The other way round: every `n`-bit value is the reflected code of its decoding. */
  lemma GrayCodeOfDecoded(g: nat, n: nat)
    requires g < Bits.Pow2(n)
    ensures GrayCode(GrayDecoded(g, n)) == g
  {
    var d := GrayDecoded(g, n);
    GrayDecodedBound(g, n, n);
    ShrAtMost(d, 1);
    Bits.XorBound(d, Bits.Shr(d, 1), n);
    forall t | 0 <= t < n
      ensures Bits.Bit(GrayCode(d), t) == Bits.Bit(g, t)
    {
      GrayCodeBit(d, t);
      GrayDecodedBit(g, n, t);
      GrayDecodedBit(g, n, t + 1);
      ParityFirst(g, t, n - 1);
      assert Parity(g, t + 1, n) == (Bits.Bit(g, t + n) != Parity(g, t + 1, n - 1));
      Bits.HighBit(g, n, t + n);
    }
    Bits.SameBits(GrayCode(d), g, n);
  }

  // ---------------------------------------------------------------------------
  // Altitude
  // ---------------------------------------------------------------------------

  /** `reflectedNonReflectedAltitude`, in feet: the 100-foot count is reflected when the 500-foot count is odd. */
  function ReflectedNonReflectedAltitude(parity: nat, valueLsb: int, valueMsb: int): (r: int)
    ensures (r + 1300) % 100 == 0
    ensures 1 <= valueLsb <= 5 ==> -1200 + 500 * valueMsb <= r <= -800 + 500 * valueMsb
  {
    if parity == 1 then -1300 + (6 - valueLsb) * 100 + valueMsb * 500
    else -1300 + valueLsb * 100 + valueMsb * 500
  }

  /**
   * `altitudeCalculator`, in feet, for the 12-bit altitude field; `None`
   * stands for `NaN`. The Q bit (bit 4) chooses between the two encodings.
   */
  function AltitudeFeet(altitude: nat): (r: Option<int>)
    requires altitude < 0x1000
    ensures Bits.TestBit(altitude, 4) ==> r == Some(QAltitude(altitude))
    ensures !Bits.TestBit(altitude, 4) ==> r == GillhamAltitude(altitude)
  {
    if Bits.TestBit(altitude, 4) then Some(QAltitude(altitude)) else GillhamAltitude(altitude)
  }

  /** The branch of `altitudeCalculator` for the Q bit set: the other eleven bits count 25-foot steps from -1000 feet. */
  function QAltitude(altitude: nat): (feet: int)
    requires altitude < 0x1000
    ensures feet == -1000 + 25 * (altitude / 32 * 16 + altitude % 16)
  {
    AltitudeFields(altitude);
    var leftSideOfQ := Bits.ExtractUInt(altitude, 5, 17);
    var rightSideOfQ := Bits.ExtractUInt(altitude, 0, 4);
    var newAltitude := Bits.Or(leftSideOfQ * 16, rightSideOfQ);
    -1000 + newAltitude * 25
  }

  /**
   * The branch of `altitudeCalculator` for the Q bit clear: a Gillham code.
   * The disentangled bits split into a 3-bit group of 100-foot steps and a
   * 9-bit group of 500-foot steps, each Gray-coded; the 100-foot group is
   * reflected when the 500-foot count is odd.
   */
  function GillhamAltitude(altitude: nat): (r: Option<int>)
    requires altitude < 0x1000
    ensures var lsb := GrayDecoded(Disentangled(altitude) % 8, 3);
      var msb := GrayDecoded(Disentangled(altitude) / 8, 9);
      var lsb' := if lsb == 7 then 5 else lsb;
      (r.None? <==> lsb in INVALID_VALUES) &&
      (r.Some? ==> r.value == -1300 + 100 * (if msb % 2 == 1 then 6 - lsb' else lsb') + 500 * msb)
  {
    AltitudeFields(altitude);
    var disentangledAltitude := Disentangled(altitude);
    var threeLeastSignificantBits := Bits.ExtractUInt(disentangledAltitude, 0, 3);
    var nineMostSignificantBits := Bits.ExtractUInt(disentangledAltitude, 3, 9);
    var decodedLsb := GrayDecoded(threeLeastSignificantBits, 3);
    var decodedMsb := GrayDecoded(nineMostSignificantBits, 9);
    var parityOfDecodedMsb := Bits.ExtractUInt(decodedMsb, 0, 1);
    if decodedLsb !in INVALID_VALUES then
      var lsb := if decodedLsb == 7 then 5 else decodedLsb;
      Some(ReflectedNonReflectedAltitude(parityOfDecodedMsb, lsb, decodedMsb))
    else None
  }

  /** The fields `altitudeCalculator` extracts, as arithmetic on the 12-bit value. */
  lemma AltitudeFields(altitude: nat)
    requires altitude < 0x1000
    ensures Bits.ExtractUInt(altitude, 5, 17) == altitude / 32
    ensures Bits.ExtractUInt(altitude, 0, 4) == altitude % 16
    ensures Bits.Or(altitude / 32 * 16, altitude % 16) == altitude / 32 * 16 + altitude % 16
    ensures Disentangled(altitude) < 0x1000
    ensures Bits.ExtractUInt(Disentangled(altitude), 0, 3) == Disentangled(altitude) % 8
    ensures Bits.ExtractUInt(Disentangled(altitude), 3, 9) == Disentangled(altitude) / 8
    ensures GrayDecoded(Disentangled(altitude) / 8, 9) < Bits.Pow2(9)
    ensures Bits.ExtractUInt(GrayDecoded(Disentangled(altitude) / 8, 9), 0, 1) == GrayDecoded(Disentangled(altitude) / 8, 9) % 2
  {
    Bits.Pow2Value8();
    Bits.Pow2Value16();
    assert Bits.Pow2(5) == 32 && Bits.Pow2(3) == 8 && Bits.Pow2(1) == 2 && Bits.Pow2(0) == 1;
    assert Bits.Pow2(12) == 0x1000;
    Bits.Pow2Monotone(12, 22);
    Bits.ExtractUIntWhole(altitude, 5, 17);
    Bits.ExtractUIntValue(altitude, 0, 4);
    Bits.OrShifted(altitude / 32, 4, altitude % 16);
    var d := Disentangled(altitude);
    DisentangledBits(altitude);
    Bits.ExtractUIntValue(d, 0, 3);
    Bits.ExtractUIntWhole(d, 3, 9);
    var msb := GrayDecoded(d / 8, 9);
    assert d / 8 < Bits.Pow2(9);
    GrayDecodedBound(d / 8, 9, 9);
    Bits.ExtractUIntValue(msb, 0, 1);
  }

  /** With the Q bit set, the altitude is a multiple of 25 feet in `[-1000, 50175]`. */
  lemma QAltitudeRange(altitude: nat)
    requires altitude < 0x1000
    ensures var a := QAltitude(altitude);
      -1000 <= a <= 50175 && (a + 1000) % 25 == 0
  {
    var n := altitude / 32 * 16 + altitude % 16;
    assert altitude / 32 < 128;
    assert 0 <= n < 2048;
    assert QAltitude(altitude) + 1000 == n * 25;
    Bits.DivUnique(QAltitude(altitude) + 1000, 25, n, 0);
  }

  /** A Gillham altitude is on the 100-foot grid, from -1200 feet up. */
  lemma GillhamAltitudeRange(altitude: nat)
    requires altitude < 0x1000 && GillhamAltitude(altitude).Some?
    ensures var a := GillhamAltitude(altitude).value;
      -1200 <= a && (a + 1300) % 100 == 0
  {
    var d := Disentangled(altitude);
    var lsb := GrayDecoded(d % 8, 3);
    var msb := GrayDecoded(d / 8, 9);
    assert Bits.Pow2(3) == 8;
    GrayDecodedBound(d % 8, 3, 3);
    Grid(lsb, msb, GillhamAltitude(altitude).value);
  }

  /** The arithmetic of `GillhamAltitudeRange`: the reflected 100-foot count lies in 1 to 5. */
  lemma Grid(lsb: nat, msb: nat, a: int)
    requires lsb < 8 && lsb !in INVALID_VALUES
    requires var lsb' := if lsb == 7 then 5 else lsb;
      a == -1300 + 100 * (if msb % 2 == 1 then 6 - lsb' else lsb') + 500 * msb
    ensures -1200 <= a && (a + 1300) % 100 == 0
  {
    var lsb' := if lsb == 7 then 5 else lsb;
    var steps := if msb % 2 == 1 then 6 - lsb' else lsb';
    assert 1 <= steps <= 5;
    Bits.DivUnique(100 * steps + 500 * msb, 100, steps + 5 * msb, 0);
  }

  // ---------------------------------------------------------------------------
  // The message
  // ---------------------------------------------------------------------------

  /** The record, with the altitude in feet and the CPR coordinates `x`, `y` as exact fractions. */
  datatype AirbornePositionMessage = AirbornePositionMessage(
    timeStampNs: int, icaoAddress: Validators.IcaoAddress, altitude: int, parity: int, x: real, y: real)

  /** The validity conditions of the record's constructor. */
  predicate ConstructorAccepts(m: AirbornePositionMessage)
  {
    m.timeStampNs >= 0 && (m.parity == 0 || m.parity == 1) && 0.0 <= m.x < 1.0 && 0.0 <= m.y < 1.0
  }

  /** `getLongitude_Cpr` / `getLatitude_Cpr`: a 17-bit field read as a fraction of `2^17`. */
  function Normalized(cpr: nat): (c: real)
    requires cpr < CPR_SCALE
    ensures 0.0 <= c < 1.0
  {
    cpr as real / CPR_SCALE as real
  }

  /** `of`: `None` stands for `null`. */
  function Of(raw: RawMessages.RawMessage): (r: Option<AirbornePositionMessage>)
    ensures var typeCode := RawMessages.TypeCode(raw);
      var payload := RawMessages.Payload(raw);
      var altitude := payload / 0x10_0000_0000 % 0x1000;
      (r.Some? <==> (9 <= typeCode <= 18 || 20 <= typeCode <= 22) && AltitudeFeet(altitude).Some?) &&
      (r.Some? ==>
        r.value.timeStampNs == raw.timeStampNs && r.value.icaoAddress == RawMessages.IcaoAddress(raw) &&
        r.value.altitude == AltitudeFeet(altitude).value &&
        r.value.parity == payload / 0x4_0000_0000 % 2 &&
        r.value.x == Normalized(payload % CPR_SCALE) &&
        r.value.y == Normalized(payload / CPR_SCALE % CPR_SCALE) &&
        ConstructorAccepts(r.value))
  {
    var icaoAddress := RawMessages.IcaoAddress(raw);
    var typeCode := RawMessages.TypeCode(raw);
    var payload := RawMessages.Payload(raw);
    PayloadFields(payload);
    var altitude := Bits.ExtractUInt(payload, START_INDEX_ALT, SIZE_ALTITUDE);
    var format := Bits.ExtractUInt(payload, START_INDEX_FORMAT, 1);
    if (9 <= typeCode <= 18) || (20 <= typeCode <= 22) then
      var calculatedAltitude := AltitudeFeet(altitude);
      if calculatedAltitude.Some? then
        var lonCpr := Bits.ExtractUInt(payload, 0, SIZE_LAT_LON_CPR);
        var latCpr := Bits.ExtractUInt(payload, 17, SIZE_LAT_LON_CPR);
        Some(AirbornePositionMessage(raw.timeStampNs, icaoAddress, calculatedAltitude.value, format,
          Normalized(lonCpr), Normalized(latCpr)))
      else None
    else None
  }

  /** The fields `of` extracts from the payload, as arithmetic. */
  lemma PayloadFields(payload: Bits.Long)
    requires payload >= 0
    ensures Bits.ExtractUInt(payload, START_INDEX_ALT, SIZE_ALTITUDE) == payload / 0x10_0000_0000 % 0x1000
    ensures Bits.ExtractUInt(payload, START_INDEX_FORMAT, 1) == payload / 0x4_0000_0000 % 2
    ensures Bits.ExtractUInt(payload, 0, SIZE_LAT_LON_CPR) == payload % CPR_SCALE
    ensures Bits.ExtractUInt(payload, 17, SIZE_LAT_LON_CPR) == payload / CPR_SCALE % CPR_SCALE
  {
    Bits.Pow2Value32();
    Bits.Pow2Value16();
    assert Bits.Pow2(4) == 16 && Bits.Pow2(2) == 4 && Bits.Pow2(1) == 2 && Bits.Pow2(0) == 1;
    Bits.Pow2Add(32, 4);
    Bits.Pow2Add(32, 2);
    Bits.Pow2Add(16, 1);
    assert Bits.Pow2(12) == 0x1000;
    Bits.ExtractUIntValue(payload, START_INDEX_ALT, SIZE_ALTITUDE);
    Bits.ExtractUIntValue(payload, START_INDEX_FORMAT, 1);
    Bits.ExtractUIntValue(payload, 0, SIZE_LAT_LON_CPR);
    Bits.ExtractUIntValue(payload, 17, SIZE_LAT_LON_CPR);
  }
}
