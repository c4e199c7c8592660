/**
 * `AirborneVelocityMessage`: the speed and the direction of an aircraft,
 * from an airborne velocity squitter (type code 19, section 2.2.3.2.6 of
 * RTCA DO-260B). Subtypes 1 and 2 give ground speed as north-south and
 * east-west components and a track; subtypes 3 and 4 give airspeed and a
 * heading. Subtypes 2 and 4 count speed in units of 4 knots.
 *
 * `Math.hypot` and `Math.atan2` have no model here: they and `Math.PI` are
 * supplied as a `Trigonometry` value. Speeds are in knots; the conversion to
 * metres per second is left out.
 */
module AirborneVelocities {
  import Bits
  import Validators
  import RawMessages
  import opened Wrappers
  import opened Outcomes

  const START_SUBTYPE: nat := 48
  const SIZE_SUBTYPE: nat := 3
  const START_FIELDS: nat := 21
  const SIZE_FIELDS: nat := 22
  /** `scalb(hdg, -10)`: the heading is counted in 1024ths of a turn. */
  const HEADING_STEPS: nat := 1024

  /** The floating-point functions the decoder calls, taken as given. */
  datatype Trigonometry = Trigonometry(hypot: (int, int) -> real, atan2: (int, int) -> real, pi: real)

  /** What the source relies on without checking: a non-negative norm, an angle of the first quadrant, a positive `PI`. */
  ghost predicate WellBehaved(t: Trigonometry)
  {
    t.pi > 0.0 &&
    forall a: int, b: int {:trigger t.hypot(a, b)} {:trigger t.atan2(a, b)} :: 0 <= a && 0 <= b ==>
      t.hypot(a, b) >= 0.0 && 0.0 <= t.atan2(a, b) <= t.pi / 2.0
  }

  datatype AirborneVelocityMessage = AirborneVelocityMessage(
    timeStampNs: int, icaoAddress: Validators.IcaoAddress, speed: real, trackOrHeading: real)

  /** The validity conditions of the record's constructor. */
  predicate ConstructorAccepts(m: AirborneVelocityMessage)
  {
    m.timeStampNs >= 0 && m.speed >= 0.0 && m.trackOrHeading >= 0.0
  }

  function Abs(x: int): nat
  {
    if x < 0 then -x else x
  }

  /** The 10-bit speed field `VNS` (or `AS`), bits 0 to 9 of the 22 bits. */
  function Vns(value: Bits.Long): nat
    requires 0 <= value
  {
    Bits.ExtractUInt(value, 0, 10)
  }

  /** The 10-bit field `VEW` (or `HDG`), bits 11 to 20 of the 22 bits. */
  function Vew(value: Bits.Long): nat
    requires 0 <= value
  {
    Bits.ExtractUInt(value, 11, 10)
  }

  /** `getGroundSpeedNorm`, in knots; `None` stands for `NaN`. */
  function GroundSpeedNorm(value: Bits.Long, t: Trigonometry): (r: Option<real>)
    requires 0 <= value
    ensures r.None? <==> Vns(value) == 0 || Vew(value) == 0
    ensures r.Some? ==> r.value == t.hypot(Vns(value) - 1, Vew(value) - 1)
  {
    var vns := Vns(value);
    var vew := Vew(value);
    if vns == 0 || vew == 0 then None else Some(t.hypot(vns - 1, vew - 1))
  }

  /** `getAirSpeedNorm`, in knots: `AS - 1`, with `AS == 0` read as no information. */
  function AirSpeedNorm(value: Bits.Long): (r: Option<real>)
    requires 0 <= value
    ensures r.None? <==> Vns(value) == 0
    ensures r.Some? ==> r.value == (Vns(value) - 1) as real && r.value >= 0.0
  {
    var airspeed := Vns(value);
    if airspeed == 0 then None else Some((airspeed - 1) as real)
  }

  /** The unit of the speed fields in knots: 4 for the supersonic subtypes 2 and 4, 1 otherwise. */
  function Multiple(subType: nat): real
  {
    if subType == 2 || subType == 4 then 4.0 else 1.0
  }

  /** `calculateSpeedNorm`: the norm of subtype 1 to 4, counted in units of `Multiple(subType)` knots. */
  function SpeedNorm(value: Bits.Long, subType: nat, t: Trigonometry): (r: Option<real>)
    requires 0 <= value
    ensures !(1 <= subType <= 4) ==> r.None?
    ensures subType == 1 || subType == 2 ==>
      (r.Some? <==> GroundSpeedNorm(value, t).Some?) &&
      (r.Some? ==> r.value == Multiple(subType) * GroundSpeedNorm(value, t).value)
    ensures subType == 3 || subType == 4 ==>
      (r.Some? <==> AirSpeedNorm(value).Some?) &&
      (r.Some? ==> r.value == Multiple(subType) * AirSpeedNorm(value).value)
  {
    var multiple := 1.0;
    if subType == 1 || subType == 2 then
      var groundSpeed := GroundSpeedNorm(value, t);
      if groundSpeed.None? then None
      else
        var multiple := if subType == 2 then 4.0 else multiple;
        Some(multiple * groundSpeed.value)
    else if subType == 3 || subType == 4 then
      var airSpeedNorm := AirSpeedNorm(value);
      if airSpeedNorm.None? then None
      else
        var multiple := if subType == 4 then 4.0 else multiple;
        Some(multiple * airSpeedNorm.value)
    else None
  }

  /** `calculateHeading`, in radians: `HDG / 1024` of a turn when the status bit `SH` (bit 21) is set. */
  function CalculateHeading(value: Bits.Long, t: Trigonometry): (r: Option<real>)
    requires 0 <= value
    ensures r.None? <==> Bits.ExtractUInt(value, 21, 1) == 0
    ensures r.Some? ==> r.value == Vew(value) as real / HEADING_STEPS as real * 2.0 * t.pi
  {
    ExtractBit(value, 21);
    var sh := Bits.ExtractUInt(value, 21, 1);
    if sh == 1 then
      var hdg := Vew(value);
      Some(hdg as real / HEADING_STEPS as real * 2.0 * t.pi)
    else None
  }

  lemma ExtractBit(value: Bits.Long, index: nat)
    requires index < 63
    ensures Bits.ExtractUInt(value, index, 1) == 0 || Bits.ExtractUInt(value, index, 1) == 1
  {
    assert Bits.Pow2(1) == 2;
  }

  /**
   * `calculateTrack`: the angle `atan2(|vns|, |vew|)` placed in the quadrant
   * given by the direction bits `DNS` (bit 10) and `DEW` (bit 21).
   */
  function CalculateTrack(value: Bits.Long, directionNs: nat, directionEw: nat, t: Trigonometry): (r: real)
    requires 0 <= value
    ensures WellBehaved(t) ==> 0.0 <= r <= 2.0 * t.pi
    ensures WellBehaved(t) && directionEw == 0 && directionNs == 0 ==> 0.0 <= r <= t.pi * 0.5
    ensures WellBehaved(t) && directionEw == 0 && directionNs == 1 ==> t.pi * 0.5 <= r <= t.pi
    ensures WellBehaved(t) && directionEw == 1 && directionNs == 1 ==> t.pi <= r <= t.pi * 1.5
    ensures WellBehaved(t) && directionEw == 1 && directionNs == 0 ==> t.pi * 1.5 <= r <= 2.0 * t.pi
  {
    var vns := Vns(value) - 1;
    var vew := Vew(value) - 1;
    Quadrant(t.atan2(Abs(vns), Abs(vew)), directionNs, directionEw, t.pi)
  }

  /**
   * The four-way quadrant rule of `calculateTrack`: `angle` is measured from
   * the east-west axis; the track, clockwise from north, lies in the quadrant
   * the direction bits name (east and north for 0, west and south for 1).
   */
  function Quadrant(angle: real, directionNs: nat, directionEw: nat, pi: real): (r: real)
    ensures 0.0 <= angle <= pi * 0.5 && directionEw == 0 && directionNs == 0 ==> 0.0 <= r <= pi * 0.5
    ensures 0.0 <= angle <= pi * 0.5 && directionEw == 0 && directionNs == 1 ==> pi * 0.5 <= r <= pi
    ensures 0.0 <= angle <= pi * 0.5 && directionEw == 1 && directionNs == 1 ==> pi <= r <= pi * 1.5
    ensures 0.0 <= angle <= pi * 0.5 && directionEw == 1 && directionNs == 0 ==> pi * 1.5 <= r <= 2.0 * pi
  {
    if directionEw == 1 && directionNs == 1 then pi * 1.5 - angle
    else if directionEw == 1 && directionNs == 0 then pi * 1.5 + angle
    else if directionEw == 0 && directionNs == 1 then pi * 0.5 + angle
    else pi * 0.5 - angle
  }

  /** An angle of the first quadrant gives a track in `[0, 2 pi]`. */
  lemma QuadrantRange(angle: real, directionNs: nat, directionEw: nat, pi: real)
    requires pi > 0.0 && 0.0 <= angle <= pi / 2.0
    ensures 0.0 <= Quadrant(angle, directionNs, directionEw, pi) <= 2.0 * pi
  {
  }

  /** `getTrackOrHeading`: the track for subtypes 1 and 2, the heading otherwise. */
  function TrackOrHeading(value: Bits.Long, subType: nat, t: Trigonometry): (r: Option<real>)
    requires 0 <= value
    ensures subType == 1 || subType == 2 ==>
      r == Some(CalculateTrack(value, Bits.ExtractUInt(value, 10, 1), Bits.ExtractUInt(value, 21, 1), t))
    ensures !(subType == 1 || subType == 2) ==> r == CalculateHeading(value, t)
  {
    if subType == 1 || subType == 2 then
      var eastWest := Bits.ExtractUInt(value, 21, 1);
      var northSouth := Bits.ExtractUInt(value, 10, 1);
      Some(CalculateTrack(value, northSouth, eastWest, t))
    else
      var angle := CalculateHeading(value, t);
      if angle.None? then None else angle
  }

  /** The subtype, payload bits 48 to 50. */
  function SubType(raw: RawMessages.RawMessage): (s: nat)
    ensures s < 8
    ensures s == RawMessages.Payload(raw) / Bits.Pow2(START_SUBTYPE) % 8
  {
    assert Bits.Pow2(3) == 8;
    Bits.ExtractUIntValue(RawMessages.Payload(raw), START_SUBTYPE, SIZE_SUBTYPE);
    Bits.ExtractUInt(RawMessages.Payload(raw), START_SUBTYPE, SIZE_SUBTYPE)
  }

  /** The 22 bits of speed and direction, payload bits 21 to 42. */
  function Fields(raw: RawMessages.RawMessage): (f: Bits.Long)
    ensures 0 <= f < 0x40_0000
  {
    assert Bits.Pow2(22) == 0x40_0000 by {
      Bits.Pow2Value16();
      assert Bits.Pow2(6) == 64;
      Bits.Pow2Add(16, 6);
    }
    Bits.ExtractUInt(RawMessages.Payload(raw), START_FIELDS, SIZE_FIELDS)
  }

  /** `of`: a message when both the speed and the direction are known; the constructor may still refuse one. */
  function Of(raw: RawMessages.RawMessage, t: Trigonometry): (r: Outcome<AirborneVelocityMessage>)
    ensures var speed, direction := SpeedNorm(Fields(raw), SubType(raw), t), TrackOrHeading(Fields(raw), SubType(raw), t);
      (r.Null? <==> speed.None? || direction.None?) &&
      (r.Made? <==> speed.Some? && direction.Some? &&
                    ConstructorAccepts(AirborneVelocityMessage(raw.timeStampNs, RawMessages.IcaoAddress(raw), speed.value, direction.value))) &&
      (r.Made? ==> r.value == AirborneVelocityMessage(raw.timeStampNs, RawMessages.IcaoAddress(raw), speed.value, direction.value))
  {
    var timeStamps := raw.timeStampNs;
    var icaoAddress := RawMessages.IcaoAddress(raw);
    var subType := SubType(raw);
    var twentyTwoBits := Fields(raw);
    var speedNorm := SpeedNorm(twentyTwoBits, subType, t);
    var trackOrHeading := TrackOrHeading(twentyTwoBits, subType, t);
    if speedNorm.Some? && trackOrHeading.Some? then
      var m := AirborneVelocityMessage(timeStamps, icaoAddress, speedNorm.value, trackOrHeading.value);
      if ConstructorAccepts(m) then Made(m) else Thrown
    else Null
  }

  // ---------------------------------------------------------------------------
  // Accept and reject rules
  // ---------------------------------------------------------------------------

  /** A subtype outside 1 to 4 gives `null`. */
  lemma SubTypeRejected(raw: RawMessages.RawMessage, t: Trigonometry)
    requires !(1 <= SubType(raw) <= 4)
    ensures Of(raw, t).Null?
  {
  }

  /** For ground speed, a zero `VNS` or `VEW` gives `null`; for airspeed, a zero `AS` or a clear `SH` bit does. */
  lemma MissingFieldsRejected(raw: RawMessages.RawMessage, t: Trigonometry)
    ensures var f, s := Fields(raw), SubType(raw);
      ((s == 1 || s == 2) && (Vns(f) == 0 || Vew(f) == 0) ==> Of(raw, t).Null?) &&
      ((s == 3 || s == 4) && (Vns(f) == 0 || Bits.ExtractUInt(f, 21, 1) == 0) ==> Of(raw, t).Null?)
  {
  }

  /** The supersonic subtypes report four times the speed of the subsonic ones for the same fields. */
  lemma SupersonicSpeed(value: Bits.Long, t: Trigonometry)
    requires 0 <= value
    ensures SpeedNorm(value, 2, t).Some? <==> SpeedNorm(value, 1, t).Some?
    ensures SpeedNorm(value, 2, t).Some? ==> SpeedNorm(value, 2, t).value == 4.0 * SpeedNorm(value, 1, t).value
    ensures SpeedNorm(value, 4, t).Some? <==> SpeedNorm(value, 3, t).Some?
    ensures SpeedNorm(value, 4, t).Some? ==> SpeedNorm(value, 4, t).value == 4.0 * SpeedNorm(value, 3, t).value
  {
  }

  /** A heading `HDG / 1024` of a turn lies in `[0, 2 pi)`. */
  lemma HeadingRange(value: Bits.Long, t: Trigonometry)
    requires 0 <= value && t.pi > 0.0 && CalculateHeading(value, t).Some?
    ensures 0.0 <= CalculateHeading(value, t).value < 2.0 * t.pi
  {
    var h := Vew(value) as real / HEADING_STEPS as real;
    assert Bits.Pow2(10) == HEADING_STEPS;
    assert 0.0 <= h < 1.0;
    assert CalculateHeading(value, t).value == h * (2.0 * t.pi);
  }

  /** With well-behaved trigonometry the constructor accepts every message `of` builds: `of` never throws. */
  lemma NeverThrows(raw: RawMessages.RawMessage, t: Trigonometry)
    requires WellBehaved(t)
    ensures !Of(raw, t).Thrown?
  {
    var f, s := Fields(raw), SubType(raw);
    if 1 <= s <= 4 && SpeedNorm(f, s, t).Some? && TrackOrHeading(f, s, t).Some? {
      if s == 1 || s == 2 {
        var vns, vew := Vns(f) - 1, Vew(f) - 1;
        assert t.hypot(vns, vew) >= 0.0;
        var angle := t.atan2(Abs(vns), Abs(vew));
        QuadrantRange(angle, Bits.ExtractUInt(f, 10, 1), Bits.ExtractUInt(f, 21, 1), t.pi);
      } else {
        HeadingRange(f, t);
      }
    }
  }
}
