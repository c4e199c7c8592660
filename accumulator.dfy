/**
 * `AircraftStateAccumulator`: turns the messages of one aircraft into calls
 * to the setters of its state. It remembers the last even and the last odd
 * position message, and asks the CPR decoder for a position whenever a new
 * position message can be paired with one of the other parity received at
 * most 10 s before it.
 *
 * The sink is the `ObservableAircraftState` the rest of the program uses,
 * and `CprDecoder.decodePosition` is a function parameter.
 */
module AircraftStateAccumulators {
  import Geo
  import AirbornePositions
  import opened Wrappers
  import opened Messages
  import opened ObservableAircraftStates

  /** The pairing window, 10 s in nanoseconds. */
  const PRECISION: int := 10_000_000_000
  const EVEN: int := 0
  const ODD: int := 1

  /** `CprDecoder.decodePosition(x0, y0, x1, y1, mostRecent)`, taken as given; `None` is `null`. */
  type CprDecoder = (real, real, real, real, int) -> Option<Geo.GeoPos>

  /** The remembered messages, `lastEvenMessage` and `lastOddMessage`. */
  datatype Memo = Memo(lastEven: Option<AirbornePositions.AirbornePositionMessage>,
                       lastOdd: Option<AirbornePositions.AirbornePositionMessage>)

  /** The arguments of one call to the decoder. */
  datatype CprQuery = CprQuery(x0: real, y0: real, x1: real, y1: real, mostRecent: int)

  /** The memo after a message: a position message takes the place of the last one of its parity. */
  function Remember(memo: Memo, m: Message): Memo
  {
    match m
    case Position(apm) => if apm.parity == ODD then memo.(lastOdd := Some(apm)) else memo.(lastEven := Some(apm))
    case _ => memo
  }

  /**
   * The decoder call `update` makes for the position message `apm`, given
   * the memo that already holds `apm`: the even message's coordinates come
   * first, and the most recent parity is that of `apm`.
   */
  function Query(memo: Memo, apm: AirbornePositions.AirbornePositionMessage): Option<CprQuery>
  {
    if memo.lastEven.Some? && memo.lastOdd.Some? then
      if apm.parity == ODD && apm.timeStampNs - memo.lastEven.value.timeStampNs <= PRECISION then
        Some(CprQuery(memo.lastEven.value.x, memo.lastEven.value.y, apm.x, apm.y, ODD))
      else if apm.parity == EVEN && apm.timeStampNs - memo.lastOdd.value.timeStampNs <= PRECISION then
        Some(CprQuery(apm.x, apm.y, memo.lastOdd.value.x, memo.lastOdd.value.y, EVEN))
      else None
    else None
  }

  /** The fields of the state after `update(m)`, from the memo and the fields before it. */
  function NextFields(memo: Memo, f: Fields, m: Message, decode: CprDecoder): Fields
  {
    var f := f.(lastMessageTimeStampNs := m.TimeStampNs());
    match m
    case Identification(aim) => f.(category := aim.category, callSign := Some(aim.callSign))
    case Velocity(avm) => f.(velocity := Some(avm.speed), trackOrHeading := Some(avm.trackOrHeading))
    case Position(apm) =>
      var f := WithAltitude(f, apm.altitude);
      var query := Query(Remember(memo, m), apm);
      if query.Some? then
        var q := query.value;
        var decoded := decode(q.x0, q.y0, q.x1, q.y1, q.mostRecent);
        if decoded.Some? then WithPosition(f, decoded.value) else f
      else f
  }

  // ---------------------------------------------------------------------------
  // What an update does
  // ---------------------------------------------------------------------------

  /** Identification and velocity messages leave the memo alone; a position message replaces only the memo of its own parity. */
  lemma MemoRule(memo: Memo, m: Message)
    ensures !m.Position? ==> Remember(memo, m) == memo
    ensures m.Position? && m.apm.parity == ODD ==>
      Remember(memo, m).lastOdd == Some(m.apm) && Remember(memo, m).lastEven == memo.lastEven
    ensures m.Position? && m.apm.parity == EVEN ==>
      Remember(memo, m).lastEven == Some(m.apm) && Remember(memo, m).lastOdd == memo.lastOdd
  {
  }

  /**
   * A position message of parity `p` is paired exactly when a message of the
   * other parity is remembered and is at most 10 s older (a newer one
   * qualifies too); the decoder gets the even coordinates as `(x0, y0)`, the
   * odd ones as `(x1, y1)`, and `p` as the most recent parity.
   */
  lemma PairingRule(memo: Memo, apm: AirbornePositions.AirbornePositionMessage)
    requires apm.parity == EVEN || apm.parity == ODD
    ensures var other := if apm.parity == ODD then memo.lastEven else memo.lastOdd;
      var query := Query(Remember(memo, Position(apm)), apm);
      (query.Some? <==> other.Some? && apm.timeStampNs - other.value.timeStampNs <= PRECISION) &&
      (query.Some? ==>
        var even := if apm.parity == EVEN then apm else other.value;
        var odd := if apm.parity == ODD then apm else other.value;
        query.value == CprQuery(even.x, even.y, odd.x, odd.y, apm.parity))
  {
  }

  /** Every update first records the message's time stamp, and no update forgets it. */
  lemma TimeStampRecorded(memo: Memo, f: Fields, m: Message, decode: CprDecoder)
    ensures NextFields(memo, f, m, decode).lastMessageTimeStampNs == m.TimeStampNs()
  {
  }

  /** An identification message sets only the category and the call sign. */
  lemma IdentificationSets(memo: Memo, f: Fields, m: Message, decode: CprDecoder)
    requires m.Identification?
    ensures NextFields(memo, f, m, decode) ==
      f.(lastMessageTimeStampNs := m.TimeStampNs(), category := m.aim.category, callSign := Some(m.aim.callSign))
  {
  }

  /** A velocity message sets only the velocity and the track or heading. */
  lemma VelocitySets(memo: Memo, f: Fields, m: Message, decode: CprDecoder)
    requires m.Velocity?
    ensures NextFields(memo, f, m, decode) ==
      f.(lastMessageTimeStampNs := m.TimeStampNs(), velocity := Some(m.avm.speed),
         trackOrHeading := Some(m.avm.trackOrHeading))
  {
  }

  /**
   * A position message always sets the altitude and leaves the category, call
   * sign, velocity and track alone; the position changes only to what the
   * decoder returned for the pairing, and stays when it returns `null`.
   */
  lemma PositionSets(memo: Memo, f: Fields, m: Message, decode: CprDecoder)
    requires m.Position?
    ensures var r := NextFields(memo, f, m, decode);
      var query := Query(Remember(memo, m), m.apm);
      r.altitude == Some(m.apm.altitude) &&
      r.category == f.category && r.callSign == f.callSign &&
      r.velocity == f.velocity && r.trackOrHeading == f.trackOrHeading &&
      (r.position == f.position ||
        (query.Some? && r.position ==
          decode(query.value.x0, query.value.y0, query.value.x1, query.value.y1, query.value.mostRecent))) &&
      (query.None? ==> r.position == f.position)
  {
  }

  /** An update keeps the state's trajectory consistent with its position. */
  lemma NextFieldsConsistent(memo: Memo, f: Fields, m: Message, decode: CprDecoder)
    requires Consistent(f)
    ensures Consistent(NextFields(memo, f, m, decode))
  {
    if m.Position? {
      var f1 := f.(lastMessageTimeStampNs := m.TimeStampNs());
      SettersKeepConsistent(f1, Geo.Position(0, 0), m.apm.altitude);
      var f2 := WithAltitude(f1, m.apm.altitude);
      var query := Query(Remember(memo, m), m.apm);
      if query.Some? {
        var q := query.value;
        var decoded := decode(q.x0, q.y0, q.x1, q.y1, q.mostRecent);
        if decoded.Some? {
          SettersKeepConsistent(f2, decoded.value, 0);
        }
      }
    }
  }

  class AircraftStateAccumulator {
    var lastEvenMessage: Option<AirbornePositions.AirbornePositionMessage>
    var lastOddMessage: Option<AirbornePositions.AirbornePositionMessage>
    const stateSetter: ObservableAircraftState

    function CurrentMemo(): Memo
      reads this
    {
      Memo(lastEvenMessage, lastOddMessage)
    }

    /** The constructor: a non-null sink, no remembered message. */
    constructor (stateSetter: ObservableAircraftState)
      ensures this.stateSetter == stateSetter && CurrentMemo() == Memo(None, None)
    {
      this.stateSetter := stateSetter;
      lastEvenMessage := None;
      lastOddMessage := None;
    }

    /** `update`: the calls to the sink's setters, in the source's order. */
    method Update(message: Message, decode: CprDecoder)
      modifies this, stateSetter
      ensures CurrentMemo() == Remember(old(CurrentMemo()), message)
      ensures stateSetter.Current() == NextFields(old(CurrentMemo()), old(stateSetter.Current()), message, decode)
      ensures old(stateSetter.Valid()) ==> stateSetter.Valid()
    {
      stateSetter.SetLastMessageTimeStampNs(message.TimeStampNs());
      match message {
        case Identification(aim) =>
          stateSetter.SetCategory(aim.category);
          stateSetter.SetCallSign(aim.callSign);
        case Position(apm) =>
          stateSetter.SetAltitude(apm.altitude);
          if apm.parity == ODD {
            lastOddMessage := Some(apm);
          } else {
            lastEvenMessage := Some(apm);
          }
          if lastEvenMessage.Some? && lastOddMessage.Some? {
            if apm.parity == ODD && apm.timeStampNs - lastEvenMessage.value.timeStampNs <= PRECISION {
              var x0 := lastEvenMessage.value.x;
              var y0 := lastEvenMessage.value.y;
              var x1 := apm.x;
              var y1 := apm.y;
              var decodedPosition := decode(x0, y0, x1, y1, ODD);
              if decodedPosition.Some? {
                stateSetter.SetPosition(decodedPosition.value);
              }
            } else if apm.parity == EVEN && apm.timeStampNs - lastOddMessage.value.timeStampNs <= PRECISION {
              var x0 := apm.x;
              var y0 := apm.y;
              var x1 := lastOddMessage.value.x;
              var y1 := lastOddMessage.value.y;
              var decodedPosition := decode(x0, y0, x1, y1, EVEN);
              if decodedPosition.Some? {
                stateSetter.SetPosition(decodedPosition.value);
              }
            }
          }
        case Velocity(avm) =>
          stateSetter.SetVelocity(avm.speed);
          stateSetter.SetTrackOrHeading(avm.trackOrHeading);
      }
    }
  }
}
