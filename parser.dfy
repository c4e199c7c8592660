/**
 * `MessageParser.parse`: hands a raw message to the factory its type code
 * names, and returns `null` for every other type code. When the chosen
 * factory returns `null` so does `parse`; no other factory is tried.
 */
module MessageParsers {
  import RawMessages
  import Identifications
  import AirbornePositions
  import AirborneVelocities
  import opened Wrappers
  import opened Outcomes
  import opened Messages

  predicate IsIdentificationCode(typeCode: nat)
  {
    1 <= typeCode <= 4
  }

  predicate IsPositionCode(typeCode: nat)
  {
    9 <= typeCode <= 18 || 20 <= typeCode <= 22
  }

  const TYPE_CODE_VELOCITY: nat := 19

  /** The outcome of the identification factory, as a `Message`. */
  function FromIdentification(o: Outcome<Identifications.AircraftIdentificationMessage>): (r: Outcome<Message>)
    ensures r.Null? <==> o.Null?
    ensures r.Thrown? <==> o.Thrown?
    ensures r.Made? ==> r == Made(Identification(o.value))
  {
    match o
    case Made(m) => Made(Identification(m))
    case Null => Null
    case Thrown => Thrown
  }

  /** The outcome of the velocity factory, as a `Message`. */
  function FromVelocity(o: Outcome<AirborneVelocities.AirborneVelocityMessage>): (r: Outcome<Message>)
    ensures r.Null? <==> o.Null?
    ensures r.Thrown? <==> o.Thrown?
    ensures r.Made? ==> r == Made(Velocity(o.value))
  {
    match o
    case Made(m) => Made(Velocity(m))
    case Null => Null
    case Thrown => Thrown
  }

  /**
   * `parse`: `Null` stands for `null` and `Thrown` for an exception escaping
   * a factory. The position factory never throws.
   */
  function Parse(raw: RawMessages.RawMessage, t: AirborneVelocities.Trigonometry): (r: Outcome<Message>)
    ensures var typeCode := RawMessages.TypeCode(raw);
      (IsIdentificationCode(typeCode) ==> r == FromIdentification(Identifications.Identification(raw))) &&
      (IsPositionCode(typeCode) ==>
        r == if AirbornePositions.Of(raw).Some? then Made(Position(AirbornePositions.Of(raw).value)) else Null) &&
      (typeCode == TYPE_CODE_VELOCITY ==> r == FromVelocity(AirborneVelocities.Of(raw, t))) &&
      (!IsIdentificationCode(typeCode) && !IsPositionCode(typeCode) && typeCode != TYPE_CODE_VELOCITY ==> r.Null?)
  {
    var typeCode := RawMessages.TypeCode(raw);
    if IsIdentificationCode(typeCode) then
      FromIdentification(Identifications.Identification(raw))
    else if IsPositionCode(typeCode) then
      var m := AirbornePositions.Of(raw);
      if m.Some? then Made(Position(m.value)) else Null
    else if typeCode == TYPE_CODE_VELOCITY then
      FromVelocity(AirborneVelocities.Of(raw, t))
    else Null
  }

  /** A parsed message carries the raw message's time stamp and address, and its kind follows the type code. */
  lemma ParsedMessage(raw: RawMessages.RawMessage, t: AirborneVelocities.Trigonometry)
    requires Parse(raw, t).Made?
    ensures var m, typeCode := Parse(raw, t).value, RawMessages.TypeCode(raw);
      m.TimeStampNs() == raw.timeStampNs && m.IcaoAddress() == RawMessages.IcaoAddress(raw) &&
      (m.Identification? <==> IsIdentificationCode(typeCode)) &&
      (m.Position? <==> IsPositionCode(typeCode)) &&
      (m.Velocity? <==> typeCode == TYPE_CODE_VELOCITY)
  {
    var typeCode := RawMessages.TypeCode(raw);
    if IsIdentificationCode(typeCode) {
      Identifications.IdentificationCases(raw);
      var o := Identifications.Identification(raw);
      assert o.Made?;
    }
  }

  /** Type codes 0, 5 to 8 and 23 to 31 give `null`; the type code itself never exceeds 31. */
  lemma UnknownTypeCodes(raw: RawMessages.RawMessage, t: AirborneVelocities.Trigonometry)
    ensures var typeCode := RawMessages.TypeCode(raw);
      typeCode <= 31 &&
      (typeCode == 0 || 5 <= typeCode <= 8 || 23 <= typeCode ==> Parse(raw, t).Null?)
  {
  }

  /** Only the identification factory can throw: positions never do, and velocities not with well-behaved trigonometry. */
  lemma OnlyIdentificationThrows(raw: RawMessages.RawMessage, t: AirborneVelocities.Trigonometry)
    requires AirborneVelocities.WellBehaved(t)
    ensures Parse(raw, t).Thrown? ==> IsIdentificationCode(RawMessages.TypeCode(raw))
  {
    AirborneVelocities.NeverThrows(raw, t);
  }
}
