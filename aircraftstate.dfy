/**
 * `ObservableAircraftState`: the state of one aircraft as shown on screen,
 * filled in by the state accumulator through its setters. The JavaFX
 * properties are plain fields and `NaN` is `None`. Besides the latest
 * values it keeps a trajectory: a point is appended when the position
 * changes and the altitude is known, and an altitude arriving with the
 * same message time stamp as the last point replaces that point's
 * altitude.
 */
module ObservableAircraftStates {
  import Validators
  import WakeTurbulence
  import Geo
  import opened Wrappers

  /** `AircraftData`: what the aircraft database knows about one aircraft. */
  datatype AircraftData = AircraftData(
    registration: Validators.AircraftRegistration, typeDesignator: Validators.AircraftTypeDesignator,
    model: string, description: Validators.AircraftDescription,
    wakeTurbulenceCategory: WakeTurbulence.WakeTurbulenceCategory)

  /** `AirbornePos`: one point of the trajectory, with the altitude in feet. */
  datatype AirbornePos = AirbornePos(position: Geo.GeoPos, altitude: int)

  /** The values of all the modifiable fields of the state, at one moment. */
  datatype Fields = Fields(
    lastMessageTimeStampNs: int, category: int, callSign: Option<Validators.CallSign>,
    position: Option<Geo.GeoPos>, altitude: Option<int>, velocity: Option<real>, trackOrHeading: Option<real>,
    trajectory: seq<AirbornePos>, lastMessageAddedInTrajectory: int)

  /** The fields of a new state: every value unknown and the trajectory empty. */
  const INITIAL: Fields := Fields(0, 0, None, None, None, None, None, [], 0)

  /** A trajectory only ever holds points with a known altitude, and its last point is at the current position. */
  predicate Consistent(f: Fields)
  {
    f.trajectory != [] ==>
      f.position.Some? && f.altitude.Some? && f.trajectory[|f.trajectory| - 1].position == f.position.value
  }

  /** `setPosition`: the position changes, and the point (position, altitude) is appended when the altitude is known. */
  function WithPosition(f: Fields, position: Geo.GeoPos): Fields
  {
    var f := if f.altitude.Some?
      then f.(trajectory := f.trajectory + [AirbornePos(position, f.altitude.value)],
              lastMessageAddedInTrajectory := f.lastMessageTimeStampNs)
      else f;
    f.(position := Some(position))
  }

  /**
   * `setAltitude`: the altitude changes; with a known position, an empty
   * trajectory gets its first point, and a last point added for the same
   * message time stamp gets the new altitude.
   */
  function WithAltitude(f: Fields, altitude: int): Fields
  {
    var f' :=
      if f.position.None? then f
      else if f.trajectory == [] then
        f.(trajectory := [AirbornePos(f.position.value, altitude)],
           lastMessageAddedInTrajectory := f.lastMessageTimeStampNs)
      else if f.lastMessageTimeStampNs == f.lastMessageAddedInTrajectory then
        f.(trajectory := f.trajectory[|f.trajectory| - 1 := AirbornePos(f.position.value, altitude)])
      else f;
    f'.(altitude := Some(altitude))
  }

  /**
   * `setPosition` always sets the position; it appends a point, stamped with
   * the last message time, exactly when the altitude is known, and changes
   * nothing else.
   */
  lemma SetPositionRule(f: Fields, position: Geo.GeoPos)
    ensures var r := WithPosition(f, position);
      r.position == Some(position) &&
      (f.altitude.Some? ==>
        r.trajectory == f.trajectory + [AirbornePos(position, f.altitude.value)] &&
        r.lastMessageAddedInTrajectory == f.lastMessageTimeStampNs) &&
      (f.altitude.None? ==>
        r.trajectory == f.trajectory && r.lastMessageAddedInTrajectory == f.lastMessageAddedInTrajectory) &&
      r == f.(position := r.position, trajectory := r.trajectory,
              lastMessageAddedInTrajectory := r.lastMessageAddedInTrajectory)
  {
  }

  /**
   * `setAltitude` always sets the altitude; with a known position it starts
   * an empty trajectory, or replaces a last point added for the same message
   * time stamp, and otherwise leaves the trajectory alone.
   */
  lemma SetAltitudeRule(f: Fields, altitude: int)
    ensures var r := WithAltitude(f, altitude);
      r.altitude == Some(altitude) &&
      (f.position.Some? && f.trajectory == [] ==>
        r.trajectory == [AirbornePos(f.position.value, altitude)] &&
        r.lastMessageAddedInTrajectory == f.lastMessageTimeStampNs) &&
      (f.position.Some? && f.trajectory != [] && f.lastMessageTimeStampNs == f.lastMessageAddedInTrajectory ==>
        r.trajectory == f.trajectory[..|f.trajectory| - 1] + [AirbornePos(f.position.value, altitude)] &&
        r.lastMessageAddedInTrajectory == f.lastMessageAddedInTrajectory) &&
      (f.position.None? || (f.trajectory != [] && f.lastMessageTimeStampNs != f.lastMessageAddedInTrajectory) ==>
        r.trajectory == f.trajectory && r.lastMessageAddedInTrajectory == f.lastMessageAddedInTrajectory) &&
      r == f.(altitude := r.altitude, trajectory := r.trajectory,
              lastMessageAddedInTrajectory := r.lastMessageAddedInTrajectory)
  {
  }

  /** Both trajectory setters keep the state consistent and never shorten the trajectory. */
  lemma SettersKeepConsistent(f: Fields, position: Geo.GeoPos, altitude: int)
    requires Consistent(f)
    ensures Consistent(WithPosition(f, position)) && Consistent(WithAltitude(f, altitude))
    ensures |WithPosition(f, position).trajectory| >= |f.trajectory|
    ensures |WithAltitude(f, altitude).trajectory| >= |f.trajectory|
  {
  }

  /** Replacing the last point keeps the trajectory's length and every earlier point. */
  lemma ReplaceKeepsLength(f: Fields, altitude: int)
    requires f.position.Some? && f.trajectory != [] && f.lastMessageTimeStampNs == f.lastMessageAddedInTrajectory
    ensures var t := WithAltitude(f, altitude).trajectory;
      |t| == |f.trajectory| && t[..|t| - 1] == f.trajectory[..|t| - 1] &&
      t[|t| - 1] == AirbornePos(f.position.value, altitude)
  {
  }

  class ObservableAircraftState {
    const icaoAddress: Validators.IcaoAddress
    const aircraftData: Option<AircraftData>
    var lastMessageTimeStampNs: int
    var category: int
    var callSign: Option<Validators.CallSign>
    var position: Option<Geo.GeoPos>
    var altitude: Option<int>
    var velocity: Option<real>
    var trackOrHeading: Option<real>
    var trajectory: seq<AirbornePos>
    var lastMessageAddedInTrajectory: int

    /** The modifiable fields, as one value. */
    function Current(): Fields
      reads this
    {
      Fields(lastMessageTimeStampNs, category, callSign, position, altitude, velocity, trackOrHeading,
             trajectory, lastMessageAddedInTrajectory)
    }

    ghost predicate Valid()
      reads this
    {
      Consistent(Current())
    }

    /** The constructor; the address is a non-null value by its type, and the aircraft data may be absent. */
    constructor (icaoAddress: Validators.IcaoAddress, aircraftData: Option<AircraftData>)
      ensures this.icaoAddress == icaoAddress && this.aircraftData == aircraftData
      ensures Current() == INITIAL && Valid()
    {
      this.icaoAddress := icaoAddress;
      this.aircraftData := aircraftData;
      lastMessageTimeStampNs := 0;
      category := 0;
      callSign := None;
      position := None;
      altitude := None;
      velocity := None;
      trackOrHeading := None;
      trajectory := [];
      lastMessageAddedInTrajectory := 0;
    }

    method SetLastMessageTimeStampNs(timeStampsNs: int)
      modifies this
      ensures Current() == old(Current()).(lastMessageTimeStampNs := timeStampsNs)
      ensures old(Valid()) ==> Valid()
    {
      lastMessageTimeStampNs := timeStampsNs;
    }

    method SetCategory(category: int)
      modifies this
      ensures Current() == old(Current()).(category := category)
      ensures old(Valid()) ==> Valid()
    {
      this.category := category;
    }

    method SetCallSign(callSign: Validators.CallSign)
      modifies this
      ensures Current() == old(Current()).(callSign := Some(callSign))
      ensures old(Valid()) ==> Valid()
    {
      this.callSign := Some(callSign);
    }

    method SetPosition(position: Geo.GeoPos)
      modifies this
      ensures Current() == WithPosition(old(Current()), position)
      ensures old(Valid()) ==> Valid()
    {
      if altitude.Some? {
        trajectory := trajectory + [AirbornePos(position, altitude.value)];
        lastMessageAddedInTrajectory := lastMessageTimeStampNs;
      }
      this.position := Some(position);
      if old(Valid()) {
        SettersKeepConsistent(old(Current()), position, 0);
      }
    }

    method SetAltitude(altitude: int)
      modifies this
      ensures Current() == WithAltitude(old(Current()), altitude)
      ensures old(Valid()) ==> Valid()
    {
      if position.Some? {
        if trajectory == [] {
          trajectory := trajectory + [AirbornePos(position.value, altitude)];
          lastMessageAddedInTrajectory := lastMessageTimeStampNs;
        } else if lastMessageTimeStampNs == lastMessageAddedInTrajectory {
          trajectory := trajectory[|trajectory| - 1 := AirbornePos(position.value, altitude)];
        }
      }
      this.altitude := Some(altitude);
      if old(Valid()) {
        SettersKeepConsistent(old(Current()), Geo.Position(0, 0), altitude);
      }
    }

    method SetVelocity(velocity: real)
      modifies this
      ensures Current() == old(Current()).(velocity := Some(velocity))
      ensures old(Valid()) ==> Valid()
    {
      this.velocity := Some(velocity);
    }

    method SetTrackOrHeading(trackOrHeading: real)
      modifies this
      ensures Current() == old(Current()).(trackOrHeading := Some(trackOrHeading))
      ensures old(Valid()) ==> Valid()
    {
      this.trackOrHeading := Some(trackOrHeading);
    }
  }
}
