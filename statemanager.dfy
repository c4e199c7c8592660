/**
 * `AircraftStateManager`: one state accumulator per aircraft address, the
 * set of the states that have a position, and the time stamp of the last
 * message. `purge` drops the states not heard from in the minute before
 * that message, from the set and from the table; aircraft that never got
 * a position are never in the set, so their table entries stay.
 *
 * The aircraft database lookup is a function parameter.
 */
module AircraftStateManagers {
  import Validators
  import opened Wrappers
  import opened Messages
  import opened ObservableAircraftStates
  import opened AircraftStateAccumulators

  /** One minute in nanoseconds. */
  const ONE_MINUTE_IN_NANOSECONDS: int := 60_000_000_000

  /** `AircraftDatabase.get`, taken as given: `None` when the address is not in the database. */
  type AircraftDatabase = Validators.IcaoAddress -> Option<AircraftData>

  class AircraftStateManager {
    var table: map<Validators.IcaoAddress, AircraftStateAccumulator>
    var states: set<ObservableAircraftState>
    var lastTimeStampNs: int
    const database: AircraftDatabase
    /** The accumulators of the table and their states. */
    ghost var Repr: set<object>

    /**
     * Each accumulator's state carries its key (so no two keys share an
     * accumulator or a state), every state is consistent, and `states` holds exactly the table's states
     * that have a position.
     */
    ghost predicate Valid()
      reads this, Repr
    {
      (forall k :: k in table ==> table[k] in Repr && table[k].stateSetter in Repr) &&
      (forall k :: k in table ==> table[k].stateSetter.icaoAddress == k) &&
      (forall k :: k in table ==> table[k].stateSetter.Valid()) &&
      (forall s :: s in states ==> s.icaoAddress in table && table[s.icaoAddress].stateSetter == s) &&
      (forall k :: k in table ==> (table[k].stateSetter in states <==> table[k].stateSetter.position.Some?))
    }

    /** `Valid()`, except that the state of `icao` may have a position and be missing from `states`. */
    ghost predicate TableValid(icao: Validators.IcaoAddress)
      reads this, Repr
    {
      (forall k :: k in table ==> table[k] in Repr && table[k].stateSetter in Repr) &&
      (forall k :: k in table ==> table[k].stateSetter.icaoAddress == k) &&
      (forall k :: k in table ==> table[k].stateSetter.Valid()) &&
      (forall s :: s in states ==> s.icaoAddress in table && table[s.icaoAddress].stateSetter == s) &&
      (forall k :: k in table && k != icao ==> (table[k].stateSetter in states <==> table[k].stateSetter.position.Some?)) &&
      (icao in table && table[icao].stateSetter in states ==> table[icao].stateSetter.position.Some?)
    }

    constructor (database: AircraftDatabase)
      ensures Valid() && this.database == database
      ensures table == map[] && states == {} && lastTimeStampNs == 0
    {
      this.database := database;
      table := map[];
      states := {};
      Repr := {};
      lastTimeStampNs := 0;
    }

    /**
     * `updateWithMessage`: the accumulator of the message's sender, reused or
     * made for a new state, gets the message; its state joins `states` once
     * it has a position. Every other accumulator and state is left alone.
     */
    method UpdateWithMessage(message: Message, decode: CprDecoder)
      requires Valid()
      modifies this, Repr
      ensures Valid() && old(Repr) <= Repr && fresh(Repr - old(Repr))
      ensures var icao := message.IcaoAddress();
        icao in table &&
        (icao in old(table) ==> table == old(table)) &&
        (icao !in old(table) ==>
          table == old(table)[icao := table[icao]] && fresh(table[icao]) && fresh(table[icao].stateSetter) &&
          table[icao].stateSetter.icaoAddress == icao && table[icao].stateSetter.aircraftData == database(icao))
      ensures var icao := message.IcaoAddress();
        icao in old(table) ==>
          table[icao].CurrentMemo() == Remember(old(table[icao].CurrentMemo()), message) &&
          table[icao].stateSetter.Current() ==
            NextFields(old(table[icao].CurrentMemo()), old(table[icao].stateSetter.Current()), message, decode)
      ensures var icao := message.IcaoAddress();
        icao !in old(table) ==>
          table[icao].CurrentMemo() == Remember(Memo(None, None), message) &&
          table[icao].stateSetter.Current() == NextFields(Memo(None, None), INITIAL, message, decode)
      ensures var icao := message.IcaoAddress();
        forall k :: k in old(table) && k != icao ==>
          table[k].CurrentMemo() == old(table[k].CurrentMemo()) &&
          table[k].stateSetter.Current() == old(table[k].stateSetter.Current())
      ensures var s := table[message.IcaoAddress()].stateSetter;
        states == old(states) + (if s.position.Some? then {s} else {})
      ensures lastTimeStampNs == message.TimeStampNs()
    {
      var icaoAddress := message.IcaoAddress();
      var aircraftData := database(icaoAddress);
      if icaoAddress in table {
        UpdateExisting(icaoAddress, message, decode);
      } else {
        UpdateNew(icaoAddress, aircraftData, message, decode);
      }
      lastTimeStampNs := message.TimeStampNs();
    }

    /** `updateWithMessage` for an aircraft already in the table. */
    method UpdateExisting(icao: Validators.IcaoAddress, message: Message, decode: CprDecoder)
      requires Valid() && icao in table
      modifies this, table[icao], table[icao].stateSetter
      ensures Valid() && table == old(table) && Repr == old(Repr) && lastTimeStampNs == old(lastTimeStampNs)
      ensures table[icao].CurrentMemo() == Remember(old(table[icao].CurrentMemo()), message)
      ensures table[icao].stateSetter.Current() ==
        NextFields(old(table[icao].CurrentMemo()), old(table[icao].stateSetter.Current()), message, decode)
      ensures forall k :: k in table && k != icao ==>
          table[k].CurrentMemo() == old(table[k].CurrentMemo()) &&
          table[k].stateSetter.Current() == old(table[k].stateSetter.Current())
      ensures var s := table[icao].stateSetter;
        states == old(states) + (if s.position.Some? then {s} else {})
    {
      UpdateKnown(icao, message, decode);
      Join(icao);
    }

    /** `updateWithMessage` for an aircraft not yet in the table. */
    method UpdateNew(icao: Validators.IcaoAddress, aircraftData: Option<AircraftData>, message: Message,
                     decode: CprDecoder)
      requires Valid() && icao !in table
      modifies this
      ensures icao in table && Valid() && table == old(table)[icao := table[icao]]
      ensures fresh(table[icao]) && fresh(table[icao].stateSetter) && Repr == old(Repr) + {table[icao], table[icao].stateSetter}
      ensures table[icao].stateSetter.icaoAddress == icao && table[icao].stateSetter.aircraftData == aircraftData
      ensures table[icao].CurrentMemo() == Remember(Memo(None, None), message)
      ensures table[icao].stateSetter.Current() == NextFields(Memo(None, None), INITIAL, message, decode)
      ensures forall k :: k in old(table) ==>
          table[k].CurrentMemo() == old(table[k].CurrentMemo()) &&
          table[k].stateSetter.Current() == old(table[k].stateSetter.Current())
      ensures var s := table[icao].stateSetter;
        states == old(states) + (if s.position.Some? then {s} else {})
      ensures lastTimeStampNs == old(lastTimeStampNs)
    {
      AddAircraft(icao, aircraftData);
      UpdateExisting(icao, message, decode);
    }

    /** The state of `icao` joins `states` if it now has a position. */
    method Join(icao: Validators.IcaoAddress)
      requires TableValid(icao) && icao in table
      modifies this
      ensures Valid() && table == old(table) && Repr == old(Repr) && lastTimeStampNs == old(lastTimeStampNs)
      ensures var s := table[icao].stateSetter;
        states == old(states) + (if s.position.Some? then {s} else {})
    {
      var accumulator := table[icao];
      if accumulator.stateSetter.position.Some? {
        states := states + {accumulator.stateSetter};
      }
    }

    /** The known accumulator of `icao` gets the message; `states` may now miss its state. */
    method UpdateKnown(icao: Validators.IcaoAddress, message: Message, decode: CprDecoder)
      requires Valid() && icao in table
      modifies table[icao], table[icao].stateSetter
      ensures TableValid(icao) && Repr == old(Repr)
      ensures table[icao].CurrentMemo() == Remember(old(table[icao].CurrentMemo()), message)
      ensures table[icao].stateSetter.Current() ==
        NextFields(old(table[icao].CurrentMemo()), old(table[icao].stateSetter.Current()), message, decode)
      ensures forall k :: k in table && k != icao ==>
          table[k].CurrentMemo() == old(table[k].CurrentMemo()) &&
          table[k].stateSetter.Current() == old(table[k].stateSetter.Current())
    {
      var accumulator := table[icao];
      accumulator.Update(message, decode);
      assert forall k :: k in table && k != icao ==> table[k] != accumulator && table[k].stateSetter != accumulator.stateSetter;
    }

    /** A new accumulator, around a new state for `icao`, joins the table. */
    method AddAircraft(icao: Validators.IcaoAddress, aircraftData: Option<AircraftData>)
      requires Valid() && icao !in table
      modifies this
      ensures icao in table && Valid() && table == old(table)[icao := table[icao]]
      ensures fresh(table[icao]) && fresh(table[icao].stateSetter) && Repr == old(Repr) + {table[icao], table[icao].stateSetter}
      ensures table[icao].stateSetter.icaoAddress == icao && table[icao].stateSetter.aircraftData == aircraftData
      ensures table[icao].CurrentMemo() == Memo(None, None) && table[icao].stateSetter.Current() == INITIAL
      ensures states == old(states) && lastTimeStampNs == old(lastTimeStampNs)
    {
      var state := new ObservableAircraftState(icao, aircraftData);
      var accumulator := new AircraftStateAccumulator(state);
      table := table[icao := accumulator];
      Repr := Repr + {accumulator, state};
    }

    /** A state is stale once the last message is a minute or more younger than its own last message. */
    predicate Stale(s: ObservableAircraftState)
      reads this, s
    {
      lastTimeStampNs - s.lastMessageTimeStampNs >= ONE_MINUTE_IN_NANOSECONDS
    }

    /** `purge`: `removeIf` on `states`, whose test also removes the table entry of each stale state. */
    method Purge()
      requires Valid()
      modifies this
      ensures Valid()
      ensures states == set s | s in old(states) && !Stale(s)
      ensures forall k :: k in table <==> k in old(table) && !(old(table)[k].stateSetter in old(states) && Stale(old(table)[k].stateSetter))
      ensures forall k :: k in table ==> table[k] == old(table)[k]
      ensures lastTimeStampNs == old(lastTimeStampNs)
    {
      var stale := set s | s in states && Stale(s);
      var removed := set s | s in stale :: s.icaoAddress;
      table := map k | k in table && k !in removed :: table[k];
      states := states - stale;
    }
  }

  /** An aircraft in the table without a position survives every purge. */
  lemma NoPositionNoPurge(m: AircraftStateManager, k: Validators.IcaoAddress)
    requires m.Valid() && k in m.table && m.table[k].stateSetter.position.None?
    ensures m.table[k].stateSetter !in m.states
  {
  }
}
