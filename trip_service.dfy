/**
 * The registration engine: assigning a client to a trip, removing the
 * assignment, and listing a client's trips newest first. Each call is one
 * atomic step over the store; `Assign` and `Remove` are those steps as
 * functions, and the class `TripService` performs them on a `Database`.
 */
module TripService {
  import opened Wrappers
  import opened Store

  /** The failures a call can raise, one per exception class, plus the untyped ones. */
  datatype TripError =
    | ClientNotFound(clientId: int)
    | TripNotFound(tripId: int)
    | MaxParticipants(tripId: int)
    | RegistrationNotFound(clientId: int, tripId: int)
    | Unclassified(message: string)

  /** The message of the plain exception raised for a pair that is already registered. */
  const AlreadyRegisteredMessage := "Client is already registered for this trip."

  /** One row of a client's trip list: the joined Trip columns and the registration's dates. */
  datatype ClientTrip = ClientTrip(tripId: int, trip: Trip, registeredAt: int, paymentDate: Option<int>)

  function View(r: Registration, trip: Trip): ClientTrip {
    ClientTrip(r.tripId, trip, r.registeredAt, r.paymentDate)
  }

  /** The guards of an assignment, in the order they run, then the insert. */
  function Assign(s: Tables, clientId: int, tripId: int, now: int): (r: Transition<Outcome<TripError>>)
    ensures r.result.Fail? ==> r.after == s
    ensures r.after.clients == s.clients && r.after.nextClientId == s.nextClientId && r.after.trips == s.trips
  {
    if clientId !in s.clients then Transition(s, Fail(ClientNotFound(clientId)))
    else if tripId !in s.trips then Transition(s, Fail(TripNotFound(tripId)))
    else if Registered(s.registrations, clientId, tripId) then Transition(s, Fail(Unclassified(AlreadyRegisteredMessage)))
    else if Occupancy(s.registrations, tripId) >= s.trips[tripId].maxPeople then Transition(s, Fail(MaxParticipants(tripId)))
    else Transition(s.(registrations := s.registrations + [Registration(clientId, tripId, now, None)]), Pass)
  }

  /** The existence guard of a removal, then the delete. */
  function Remove(s: Tables, clientId: int, tripId: int): (r: Transition<Outcome<TripError>>)
    ensures r.result.Fail? ==> r.after == s
    ensures r.after.clients == s.clients && r.after.nextClientId == s.nextClientId && r.after.trips == s.trips
  {
    if !Registered(s.registrations, clientId, tripId) then Transition(s, Fail(RegistrationNotFound(clientId, tripId)))
    else Transition(s.(registrations := WithoutPair(s.registrations, clientId, tripId)), Pass)
  }

  /**
   * The rows the client-trips query selects, in table order: the client's
   * registrations inner-joined with Trip.
   */
  function ClientTripsOf(rows: seq<Registration>, trips: map<int, Trip>, clientId: int): (r: seq<ClientTrip>)
    ensures |r| <= |rows|
    ensures forall x :: x in r <==>
      exists reg :: reg in rows && reg.clientId == clientId && reg.tripId in trips && x == View(reg, trips[reg.tripId])
  {
    if rows == [] then []
    else
      var last := rows[|rows| - 1];
      ClientTripsOf(rows[..|rows| - 1], trips, clientId)
        + (if last.clientId == clientId && last.tripId in trips then [View(last, trips[last.tripId])] else [])
  }

  /** ORDER BY RegisteredAt DESC. */
  predicate NewestFirst(s: seq<ClientTrip>) {
    forall i, j :: 0 <= i < j < |s| ==> s[i].registeredAt >= s[j].registeredAt
  }

  /** Puts one fetched row into its place in a list already ordered newest first. */
  function InsertNewestFirst(sorted: seq<ClientTrip>, x: ClientTrip): (r: seq<ClientTrip>)
    requires NewestFirst(sorted)
    ensures NewestFirst(r)
    ensures multiset(r) == multiset(sorted) + multiset{x}
    ensures r != [] && (r[0] == x || (sorted != [] && r[0] == sorted[0]))
  {
    if sorted == [] || sorted[0].registeredAt <= x.registeredAt then [x] + sorted
    else
      assert sorted == [sorted[0]] + sorted[1..];
      [sorted[0]] + InsertNewestFirst(sorted[1..], x)
  }

  /** A missing client is reported before a missing trip; a missing trip before anything else. */
  lemma AssignGuardOrder(s: Tables, clientId: int, tripId: int, now: int)
    ensures clientId !in s.clients ==> Assign(s, clientId, tripId, now).result == Fail(ClientNotFound(clientId))
    ensures clientId in s.clients && tripId !in s.trips ==>
              Assign(s, clientId, tripId, now).result == Fail(TripNotFound(tripId))
  {
  }

  /**
   * A pair already registered raises the plain exception, never
   * MaxParticipants, even on a full trip, and the table stays as it was.
   */
  lemma AssignDuplicate(s: Tables, clientId: int, tripId: int, now: int)
    requires clientId in s.clients && tripId in s.trips
    requires Registered(s.registrations, clientId, tripId)
    ensures Assign(s, clientId, tripId, now) == Transition(s, Fail(Unclassified(AlreadyRegisteredMessage)))
  {
  }

  /**
   * Past the first three guards, the call raises MaxParticipants exactly when
   * the trip's occupancy has reached MaxPeople (so always when MaxPeople <= 0),
   * and then changes nothing.
   */
  lemma AssignCapacity(s: Tables, clientId: int, tripId: int, now: int)
    requires clientId in s.clients && tripId in s.trips
    requires !Registered(s.registrations, clientId, tripId)
    ensures (Assign(s, clientId, tripId, now).result == Fail(MaxParticipants(tripId)))
              == (Occupancy(s.registrations, tripId) >= s.trips[tripId].maxPeople)
    ensures Assign(s, clientId, tripId, now).result.Pass?
              == (Occupancy(s.registrations, tripId) < s.trips[tripId].maxPeople)
  {
  }

  /** A successful assignment is possible exactly when every guard passes. */
  lemma AssignSucceedsExactly(s: Tables, clientId: int, tripId: int, now: int)
    ensures Assign(s, clientId, tripId, now).result.Pass? <==>
              clientId in s.clients && tripId in s.trips && !Registered(s.registrations, clientId, tripId)
              && Occupancy(s.registrations, tripId) < s.trips[tripId].maxPeople
  {
  }

  /**
   * A successful assignment appends exactly the row (client, trip, now, NULL):
   * the trip gains one seat taken and every other trip keeps its occupancy.
   */
  lemma AssignSuccess(s: Tables, clientId: int, tripId: int, now: int)
    requires Assign(s, clientId, tripId, now).result.Pass?
    ensures Assign(s, clientId, tripId, now).after.registrations
              == s.registrations + [Registration(clientId, tripId, now, None)]
    ensures forall t :: Occupancy(Assign(s, clientId, tripId, now).after.registrations, t)
              == Occupancy(s.registrations, t) + (if t == tripId then 1 else 0)
  {
    forall t ensures Occupancy(s.registrations + [Registration(clientId, tripId, now, None)], t)
                       == Occupancy(s.registrations, t) + (if t == tripId then 1 else 0)
    {
      OccupancyAppend(s.registrations, Registration(clientId, tripId, now, None), t);
    }
  }

  /** Whatever an assignment raises or does, pair uniqueness and capacity survive it; they need nothing else to hold. */
  lemma AssignPreservesBookingRules(s: Tables, clientId: int, tripId: int, now: int)
    requires UniquePairs(s.registrations) && WithinCapacity(s)
    ensures UniquePairs(Assign(s, clientId, tripId, now).after.registrations)
    ensures WithinCapacity(Assign(s, clientId, tripId, now).after)
  {
    var r := Assign(s, clientId, tripId, now);
    if r.result.Pass? {
      var x := Registration(clientId, tripId, now, None);
      AppendKeepsUnique(s.registrations, x);
      AssignSuccess(s, clientId, tripId, now);
      assert WithinCapacity(r.after);
    }
  }

  /** Whatever an assignment raises or does, pair uniqueness, capacity and referential integrity survive it. */
  lemma AssignPreservesConsistency(s: Tables, clientId: int, tripId: int, now: int)
    requires Consistent(s)
    ensures Consistent(Assign(s, clientId, tripId, now).after)
  {
    AssignPreservesBookingRules(s, clientId, tripId, now);
  }

  /** Removing a pair that has no row raises RegistrationNotFound and changes nothing. */
  lemma RemoveMissing(s: Tables, clientId: int, tripId: int)
    requires !Registered(s.registrations, clientId, tripId)
    ensures Remove(s, clientId, tripId) == Transition(s, Fail(RegistrationNotFound(clientId, tripId)))
  {
  }

  /**
   * Removing a registered pair from a table with unique pairs deletes exactly
   * that one row, keeps the others in order (the client's other trips among
   * them), frees one seat of the trip and leaves other trips' occupancy alone.
   */
  lemma RemoveExisting(s: Tables, clientId: int, tripId: int)
    requires UniquePairs(s.registrations)
    requires Registered(s.registrations, clientId, tripId)
    ensures Remove(s, clientId, tripId).result == Pass
    ensures exists k :: 0 <= k < |s.registrations| && IsPair(s.registrations[k], clientId, tripId)
              && Remove(s, clientId, tripId).after.registrations == s.registrations[..k] + s.registrations[k + 1..]
    ensures Occupancy(Remove(s, clientId, tripId).after.registrations, tripId) + 1 == Occupancy(s.registrations, tripId)
    ensures forall t :: t != tripId ==>
              Occupancy(Remove(s, clientId, tripId).after.registrations, t) == Occupancy(s.registrations, t)
  {
    WithoutUniquePair(s.registrations, clientId, tripId);
    WithoutUniquePairOccupancy(s.registrations, clientId, tripId);
    forall t | t != tripId
      ensures Occupancy(WithoutPair(s.registrations, clientId, tripId), t) == Occupancy(s.registrations, t)
    {
      WithoutPairOccupancy(s.registrations, clientId, tripId, t);
    }
  }

  /** Whatever a removal raises or does, pair uniqueness and capacity survive it; they need nothing else to hold. */
  lemma RemovePreservesBookingRules(s: Tables, clientId: int, tripId: int)
    requires UniquePairs(s.registrations) && WithinCapacity(s)
    ensures UniquePairs(Remove(s, clientId, tripId).after.registrations)
    ensures WithinCapacity(Remove(s, clientId, tripId).after)
  {
    var r := Remove(s, clientId, tripId);
    if r.result.Pass? {
      WithoutPairKeepsUnique(s.registrations, clientId, tripId);
      forall t | t in s.trips
        ensures Occupancy(r.after.registrations, t) <= s.trips[t].maxPeople
      {
        WithoutPairOccupancy(s.registrations, clientId, tripId, t);
      }
    }
  }

  /** Whatever a removal raises or does, pair uniqueness, capacity and referential integrity survive it. */
  lemma RemovePreservesConsistency(s: Tables, clientId: int, tripId: int)
    requires Consistent(s)
    ensures Consistent(Remove(s, clientId, tripId).after)
  {
    RemovePreservesBookingRules(s, clientId, tripId);
  }

  /**
   * Assigning and then removing the same pair gives back the table exactly as
   * it was, and the same assignment can then succeed again at any time.
   */
  lemma AssignRemoveRoundTrip(s: Tables, clientId: int, tripId: int, now: int, later: int)
    requires Assign(s, clientId, tripId, now).result.Pass?
    ensures Remove(Assign(s, clientId, tripId, now).after, clientId, tripId) == Transition(s, Pass)
    ensures Assign(Remove(Assign(s, clientId, tripId, now).after, clientId, tripId).after, clientId, tripId, later).result.Pass?
  {
    var x := Registration(clientId, tripId, now, None);
    var rows := s.registrations + [x];
    assert x in rows;
    WithoutAbsentPair(s.registrations, clientId, tripId);
    assert WithoutPair(rows, clientId, tripId) == s.registrations by {
      AppendedPairDeleted(s.registrations, x);
    }
  }

  /** Deleting the pair of a row appended after rows that do not hold that pair gives back those rows. */
  lemma {:induction false} AppendedPairDeleted(rows: seq<Registration>, x: Registration)
    requires !Registered(rows, x.clientId, x.tripId)
    ensures WithoutPair(rows + [x], x.clientId, x.tripId) == rows
  {
    if rows == [] {
      assert rows + [x] == [x];
    } else {
      assert rows[0] in rows;
      assert !Registered(rows[1..], x.clientId, x.tripId) by {
        forall r | r in rows[1..] ensures !IsPair(r, x.clientId, x.tripId) {
          assert r in rows;
        }
      }
      assert (rows + [x])[1..] == rows[1..] + [x];
      AppendedPairDeleted(rows[1..], x);
      assert rows == [rows[0]] + rows[1..];
    }
  }

  /** Assigning the same pair twice: success, then the plain exception; the trip gains one seat taken, not two. */
  lemma AssignTwice(s: Tables, clientId: int, tripId: int, now: int, later: int)
    requires Assign(s, clientId, tripId, now).result.Pass?
    ensures Assign(Assign(s, clientId, tripId, now).after, clientId, tripId, later).result
              == Fail(Unclassified(AlreadyRegisteredMessage))
    ensures Occupancy(Assign(Assign(s, clientId, tripId, now).after, clientId, tripId, later).after.registrations, tripId)
              == Occupancy(s.registrations, tripId) + 1
  {
    var x := Registration(clientId, tripId, now, None);
    assert x in s.registrations + [x];
    AssignSuccess(s, clientId, tripId, now);
  }

  /** Assignments of several clients to one trip, one call after the other. */
  function AssignInTurn(s: Tables, clientIds: seq<int>, tripId: int, now: int): (r: Transition<seq<Outcome<TripError>>>)
    ensures |r.result| == |clientIds|
    decreases |clientIds|
  {
    if clientIds == [] then Transition(s, [])
    else
      var first := Assign(s, clientIds[0], tripId, now);
      var rest := AssignInTurn(first.after, clientIds[1..], tripId, now);
      Transition(rest.after, [first.result] + rest.result)
  }

  /**
   * Distinct existing clients, none registered yet, assigned in turn to a
   * trip with K free seats: exactly the first K succeed, every later one
   * raises MaxParticipants, and the trip ends with min(occupancy + N, MaxPeople)
   * seats taken, never more than MaxPeople.
   */
  lemma {:induction false} AssignInTurnFillsTrip(s: Tables, clientIds: seq<int>, tripId: int, now: int)
    requires tripId in s.trips
    requires Occupancy(s.registrations, tripId) <= s.trips[tripId].maxPeople
    requires forall i, j :: 0 <= i < j < |clientIds| ==> clientIds[i] != clientIds[j]
    requires forall c :: c in clientIds ==> c in s.clients && !Registered(s.registrations, c, tripId)
    ensures forall i :: 0 <= i < |clientIds| ==>
              AssignInTurn(s, clientIds, tripId, now).result[i]
                == if Occupancy(s.registrations, tripId) + i < s.trips[tripId].maxPeople then Pass
                   else Fail(MaxParticipants(tripId))
    ensures Occupancy(AssignInTurn(s, clientIds, tripId, now).after.registrations, tripId)
              == if Occupancy(s.registrations, tripId) + |clientIds| <= s.trips[tripId].maxPeople
                 then Occupancy(s.registrations, tripId) + |clientIds|
                 else s.trips[tripId].maxPeople
    decreases |clientIds|
  {
    if clientIds != [] {
      var c := clientIds[0];
      var rest := clientIds[1..];
      assert c in clientIds;
      var first := Assign(s, c, tripId, now);
      var occ := Occupancy(s.registrations, tripId);
      var occ' := Occupancy(first.after.registrations, tripId);
      if first.result.Pass? {
        AssignSuccess(s, c, tripId, now);
        assert occ' == occ + 1;
      }
      forall d | d in rest
        ensures d in first.after.clients && !Registered(first.after.registrations, d, tripId)
      {
        var j :| 0 <= j < |rest| && rest[j] == d;
        assert clientIds[j + 1] == d;
        assert d in clientIds;
      }
      assert forall i, j :: 0 <= i < j < |rest| ==> rest[i] != rest[j] by {
        forall i, j | 0 <= i < j < |rest| ensures rest[i] != rest[j] {
          assert rest[i] == clientIds[i + 1] && rest[j] == clientIds[j + 1];
        }
      }
      AssignInTurnFillsTrip(first.after, rest, tripId, now);
      var r := AssignInTurn(s, clientIds, tripId, now);
      forall i | 0 <= i < |clientIds|
        ensures r.result[i] == if occ + i < s.trips[tripId].maxPeople then Pass else Fail(MaxParticipants(tripId))
      {
        if i > 0 {
          assert r.result[i] == AssignInTurn(first.after, rest, tripId, now).result[i - 1];
        }
      }
    }
  }

  /** The client-trips query is empty exactly when the client has no registration for an existing trip. */
  lemma ClientTripsEmpty(rows: seq<Registration>, trips: map<int, Trip>, clientId: int)
    ensures (ClientTripsOf(rows, trips, clientId) == [])
              == (forall reg :: reg in rows && reg.clientId == clientId ==> reg.tripId !in trips)
  {
    var r := ClientTripsOf(rows, trips, clientId);
    if r != [] {
      assert r[0] in r;
    } else {
      forall reg | reg in rows && reg.clientId == clientId
        ensures reg.tripId in trips ==> View(reg, trips[reg.tripId]) in r
      {
      }
    }
  }

  /** The query over one more row of the table selects at most that row more, at the end. */
  lemma ClientTripsOfPrefix(rows: seq<Registration>, trips: map<int, Trip>, clientId: int, i: nat)
    requires i < |rows|
    ensures ClientTripsOf(rows[..i + 1], trips, clientId)
              == ClientTripsOf(rows[..i], trips, clientId)
                 + (if rows[i].clientId == clientId && rows[i].tripId in trips
                    then [View(rows[i], trips[rows[i].tripId])] else [])
  {
    assert rows[..i + 1][..i] == rows[..i];
  }

  /** The services' view of one database. */
  class TripService {
    const db: Database

    constructor (db: Database)
      ensures this.db == db
    {
      this.db := db;
    }

    /**
     * Lists the client's trips, newest registration first; ties come in any
     * order. Fails with ClientNotFound for an unknown client.
     */
    method GetClientTrips(clientId: int) returns (result: Result<seq<ClientTrip>, TripError>)
      ensures result.Failure? <==> clientId !in db.clients
      ensures result.Failure? ==> result.error == ClientNotFound(clientId)
      ensures result.Success? ==> NewestFirst(result.value)
      ensures result.Success? ==>
                multiset(result.value) == multiset(ClientTripsOf(db.registrations, db.trips, clientId))
    {
      if clientId !in db.clients {
        return Failure(ClientNotFound(clientId));
      }
      var rows := db.registrations;
      var trips := db.trips;
      // The store evaluates ORDER BY RegisteredAt DESC; each fetched row
      // goes to its place in the list that is being built.
      var clientTrips: seq<ClientTrip> := [];
      var i := 0;
      while i < |rows|
        invariant 0 <= i <= |rows|
        invariant NewestFirst(clientTrips)
        invariant multiset(clientTrips) == multiset(ClientTripsOf(rows[..i], trips, clientId))
      {
        var reg := rows[i];
        ClientTripsOfPrefix(rows, trips, clientId, i);
        if reg.clientId == clientId && reg.tripId in trips {
          clientTrips := InsertNewestFirst(clientTrips, View(reg, trips[reg.tripId]));
        }
        i := i + 1;
      }
      assert rows[..|rows|] == rows;
      return Success(clientTrips);
    }

    /**
     * Registers the client for the trip at time `now`, or raises the first
     * guard that fails. `Assign` is its specification: the guards below are
     * its guards, run against the live tables.
     */
    method AssignClientToTrip(clientId: int, tripId: int, now: int) returns (result: Outcome<TripError>)
      modifies db`registrations
      ensures Transition(db.Snapshot(), result) == Assign(old(db.Snapshot()), clientId, tripId, now)
    {
      if clientId !in db.clients {
        return Fail(ClientNotFound(clientId));
      }
      if tripId !in db.trips {
        return Fail(TripNotFound(tripId));
      }
      if Registered(db.registrations, clientId, tripId) {
        return Fail(Unclassified(AlreadyRegisteredMessage));
      }
      var maxPeople := db.trips[tripId].maxPeople;
      var currentParticipants := Occupancy(db.registrations, tripId);
      if currentParticipants >= maxPeople {
        return Fail(MaxParticipants(tripId));
      }
      db.registrations := db.registrations + [Registration(clientId, tripId, now, None)];
      return Pass;
    }

    /**
     * Deletes the client's registration for the trip, or raises
     * RegistrationNotFound. `Remove` is its specification.
     */
    method RemoveClientFromTrip(clientId: int, tripId: int) returns (result: Outcome<TripError>)
      modifies db`registrations
      ensures Transition(db.Snapshot(), result) == Remove(old(db.Snapshot()), clientId, tripId)
    {
      if !Registered(db.registrations, clientId, tripId) {
        return Fail(RegistrationNotFound(clientId, tripId));
      }
      var before := db.registrations;
      db.registrations := WithoutPair(before, clientId, tripId);
      var affectedRows := |before| - |db.registrations|;
      // The existence check just passed, so the delete always hits a row.
      WithoutRegisteredShrinks(before, clientId, tripId);
      assert affectedRows > 0;
      return Pass;
    }
  }

  /** A delete of a registered pair removes at least one row. */
  lemma {:induction false} WithoutRegisteredShrinks(rows: seq<Registration>, clientId: int, tripId: int)
    requires Registered(rows, clientId, tripId)
    ensures |WithoutPair(rows, clientId, tripId)| < |rows|
  {
    if !IsPair(rows[0], clientId, tripId) {
      assert Registered(rows[1..], clientId, tripId) by {
        var r :| r in rows && IsPair(r, clientId, tripId);
        assert r in rows[1..];
      }
      WithoutRegisteredShrinks(rows[1..], clientId, tripId);
    }
  }
}
