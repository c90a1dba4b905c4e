/**
 * The relational tables that the trip and client services share (Client, Trip,
 * Client_Trip), seen as values, with the derived occupancy of a trip and the
 * invariants the booking rules protect.
 */
module Store {
  import opened Wrappers

  /** A row of the Client table (without its key); Telephone and Pesel are nullable. */
  datatype Client = Client(firstName: string, lastName: string, email: string,
                           telephone: Option<string>, pesel: Option<string>)

  /** A row of the Trip table (without its key); dates are tick counts. */
  datatype Trip = Trip(name: string, description: Option<string>,
                       dateFrom: int, dateTo: int, maxPeople: int)

  /** A row of the Client_Trip table. */
  datatype Registration = Registration(clientId: int, tripId: int,
                                       registeredAt: int, paymentDate: Option<int>)

  /**
   * The whole database. `nextClientId` is the identity counter of the Client
   * table: the key the next inserted client receives.
   */
  datatype Tables = Tables(clients: map<int, Client>, nextClientId: int,
                           trips: map<int, Trip>, registrations: seq<Registration>)

  /** The state after one service call, and what the call returned or raised. */
  datatype Transition<R> = Transition(after: Tables, result: R)

  predicate IsPair(r: Registration, clientId: int, tripId: int) {
    r.clientId == clientId && r.tripId == tripId
  }

  /** `SELECT 1 FROM Client_Trip WHERE IdClient = @IdClient AND IdTrip = @IdTrip` finds a row. */
  predicate Registered(rows: seq<Registration>, clientId: int, tripId: int) {
    exists r :: r in rows && IsPair(r, clientId, tripId)
  }

  /** `SELECT COUNT(*) FROM Client_Trip WHERE IdTrip = @IdTrip`: the occupancy of a trip. */
  function Occupancy(rows: seq<Registration>, tripId: int): (n: nat)
    ensures n <= |rows|
    ensures n > 0 <==> exists r :: r in rows && r.tripId == tripId
  {
    if rows == [] then 0
    else (if rows[0].tripId == tripId then 1 else 0) + Occupancy(rows[1..], tripId)
  }

  /** `DELETE FROM Client_Trip WHERE IdClient = @IdClient AND IdTrip = @IdTrip`: every row of the pair goes. */
  function WithoutPair(rows: seq<Registration>, clientId: int, tripId: int): (r: seq<Registration>)
    ensures |r| <= |rows|
    ensures forall x :: x in r <==> x in rows && !IsPair(x, clientId, tripId)
  {
    if rows == [] then []
    else if IsPair(rows[0], clientId, tripId) then WithoutPair(rows[1..], clientId, tripId)
    else [rows[0]] + WithoutPair(rows[1..], clientId, tripId)
  }

  /** I1: at most one registration per (client, trip) pair. */
  predicate UniquePairs(rows: seq<Registration>) {
    forall i, j :: 0 <= i < j < |rows| ==> !IsPair(rows[j], rows[i].clientId, rows[i].tripId)
  }

  /** I2: no trip holds more registrations than its MaxPeople. */
  predicate WithinCapacity(s: Tables) {
    forall tripId :: tripId in s.trips ==> Occupancy(s.registrations, tripId) <= s.trips[tripId].maxPeople
  }

  /** I3: every registration refers to an existing client and an existing trip. */
  predicate ReferencesExist(s: Tables) {
    forall r :: r in s.registrations ==> r.clientId in s.clients && r.tripId in s.trips
  }

  /** The identity counter is ahead of every key already used in the Client table. */
  predicate IdentityAhead(s: Tables) {
    forall id :: id in s.clients ==> id < s.nextClientId
  }

  predicate Consistent(s: Tables) {
    UniquePairs(s.registrations) && WithinCapacity(s) && ReferencesExist(s) && IdentityAhead(s)
  }

  /** Appending a row raises the occupancy of its own trip by one and of no other trip. */
  lemma {:induction false} OccupancyAppend(rows: seq<Registration>, x: Registration, tripId: int)
    ensures Occupancy(rows + [x], tripId) == Occupancy(rows, tripId) + (if x.tripId == tripId then 1 else 0)
  {
    if rows == [] {
      assert rows + [x] == [x];
    } else {
      assert (rows + [x])[1..] == rows[1..] + [x];
      OccupancyAppend(rows[1..], x, tripId);
    }
  }

  /** Appending a row whose pair is not yet registered keeps I1. */
  lemma AppendKeepsUnique(rows: seq<Registration>, x: Registration)
    requires UniquePairs(rows)
    requires !Registered(rows, x.clientId, x.tripId)
    ensures UniquePairs(rows + [x])
  {
    var rows' := rows + [x];
    forall i, j | 0 <= i < j < |rows'|
      ensures !IsPair(rows'[j], rows'[i].clientId, rows'[i].tripId)
    {
      if j == |rows| {
        assert rows'[i] in rows;
      }
    }
  }

  /** Deleting a pair that has no row changes nothing. */
  lemma {:induction false} WithoutAbsentPair(rows: seq<Registration>, clientId: int, tripId: int)
    requires !Registered(rows, clientId, tripId)
    ensures WithoutPair(rows, clientId, tripId) == rows
  {
    if rows != [] {
      assert rows[0] in rows;
      assert !Registered(rows[1..], clientId, tripId) by {
        forall r | r in rows[1..] ensures !IsPair(r, clientId, tripId) {
          assert r in rows;
        }
      }
      WithoutAbsentPair(rows[1..], clientId, tripId);
      assert rows == [rows[0]] + rows[1..];
    }
  }

  /** Deleting one pair leaves the occupancy of every other trip as it was, and never raises one. */
  lemma {:induction false} WithoutPairOccupancy(rows: seq<Registration>, clientId: int, tripId: int, other: int)
    ensures Occupancy(WithoutPair(rows, clientId, tripId), other) <= Occupancy(rows, other)
    ensures other != tripId ==> Occupancy(WithoutPair(rows, clientId, tripId), other) == Occupancy(rows, other)
  {
    if rows != [] {
      WithoutPairOccupancy(rows[1..], clientId, tripId, other);
      if !IsPair(rows[0], clientId, tripId) {
        var rest := WithoutPair(rows[1..], clientId, tripId);
        assert ([rows[0]] + rest)[1..] == rest;
      }
    }
  }

  /** Deleting a pair keeps I1 (the result is a subsequence of the table). */
  lemma {:induction false} WithoutPairKeepsUnique(rows: seq<Registration>, clientId: int, tripId: int)
    requires UniquePairs(rows)
    ensures UniquePairs(WithoutPair(rows, clientId, tripId))
  {
    if rows != [] {
      UniqueTail(rows);
      WithoutPairKeepsUnique(rows[1..], clientId, tripId);
      if !IsPair(rows[0], clientId, tripId) {
        var rest := WithoutPair(rows[1..], clientId, tripId);
        var r := [rows[0]] + rest;
        forall i, j | 0 <= i < j < |r|
          ensures !IsPair(r[j], r[i].clientId, r[i].tripId)
        {
          if i == 0 {
            assert r[j] in rest;
          } else {
            assert r[i] == rest[i - 1] && r[j] == rest[j - 1];
          }
        }
      }
    }
  }

  /** The rows after the first of a table with I1 keep I1, and none of them repeats the first row's pair. */
  lemma UniqueTail(rows: seq<Registration>)
    requires UniquePairs(rows) && rows != []
    ensures UniquePairs(rows[1..])
    ensures !Registered(rows[1..], rows[0].clientId, rows[0].tripId)
  {
  }

  /** A row deleted at position k of the tail is deleted at position k + 1 of the whole table. */
  lemma DeletionShift(rows: seq<Registration>, clientId: int, tripId: int, k: nat)
    requires rows != [] && !IsPair(rows[0], clientId, tripId) && k < |rows| - 1
    requires WithoutPair(rows[1..], clientId, tripId) == rows[1..][..k] + rows[1..][k + 1..]
    ensures WithoutPair(rows, clientId, tripId) == rows[..k + 1] + rows[k + 2..]
  {
  }

  /**
   * Under I1, deleting a registered pair removes exactly one row, the one of
   * that pair, and keeps every other row in its order.
   */
  lemma {:induction false} WithoutUniquePair(rows: seq<Registration>, clientId: int, tripId: int)
    requires UniquePairs(rows)
    requires Registered(rows, clientId, tripId)
    ensures exists k :: 0 <= k < |rows| && IsPair(rows[k], clientId, tripId)
                        && WithoutPair(rows, clientId, tripId) == rows[..k] + rows[k + 1..]
  {
    var rest := rows[1..];
    UniqueTail(rows);
    if IsPair(rows[0], clientId, tripId) {
      WithoutAbsentPair(rest, clientId, tripId);
      assert rows[..0] + rows[0 + 1..] == rest;
    } else {
      assert Registered(rest, clientId, tripId) by {
        var r :| r in rows && IsPair(r, clientId, tripId);
        assert r in rest;
      }
      WithoutUniquePair(rest, clientId, tripId);
      var k :| 0 <= k < |rest| && IsPair(rest[k], clientId, tripId)
               && WithoutPair(rest, clientId, tripId) == rest[..k] + rest[k + 1..];
      DeletionShift(rows, clientId, tripId, k);
      assert IsPair(rows[k + 1], clientId, tripId);
    }
  }

  /** Under I1, deleting a registered pair frees exactly one seat of its trip. */
  lemma {:induction false} WithoutUniquePairOccupancy(rows: seq<Registration>, clientId: int, tripId: int)
    requires UniquePairs(rows)
    requires Registered(rows, clientId, tripId)
    ensures Occupancy(WithoutPair(rows, clientId, tripId), tripId) + 1 == Occupancy(rows, tripId)
  {
    var rest := rows[1..];
    UniqueTail(rows);
    if IsPair(rows[0], clientId, tripId) {
      WithoutAbsentPair(rest, clientId, tripId);
    } else {
      assert Registered(rest, clientId, tripId) by {
        var r :| r in rows && IsPair(r, clientId, tripId);
        assert r in rest;
      }
      WithoutUniquePairOccupancy(rest, clientId, tripId);
      var w := WithoutPair(rest, clientId, tripId);
      assert ([rows[0]] + w)[1..] == w;
    }
  }

  /**
   * The database as mutable tables. The services hold a reference to it and
   * change one table per call.
   */
  class Database {
    var clients: map<int, Client>
    var nextClientId: int
    var trips: map<int, Trip>
    var registrations: seq<Registration>

    /** Opens the database in the given state. */
    constructor (initial: Tables)
      ensures Snapshot() == initial
    {
      clients := initial.clients;
      nextClientId := initial.nextClientId;
      trips := initial.trips;
      registrations := initial.registrations;
    }

    function Snapshot(): Tables
      reads this
    {
      Tables(clients, nextClientId, trips, registrations)
    }
  }
}
