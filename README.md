# Travel agency bookings: registration engine and client validator

This project models, in Dafny, the two services at the core of a travel agency
Web API:

- the **trip service**. It assigns a client to a trip, removes that
  assignment, and lists a client's trips newest first;
- the **client service**. It validates a submitted client, stores blank
  optional fields as NULL, and inserts the client under a new identity.

The SQL database becomes an abstract value, `Store.Tables`. It holds:

- the Client table, a map from id to row;
- the Client table's identity counter;
- the Trip table, a map from id to row, including `MaxPeople`;
- the Client_Trip table, a sequence of registration rows. Each row has a
  client id, a trip id, `RegisteredAt` and a nullable `PaymentDate`.

Client_Trip is a plain sequence of rows, so "at most one row per pair" is an
invariant to prove, not a given.

Each service call is one atomic step:

- `TripService.Assign`, `TripService.Remove` and `ClientService.Create` are
  the steps as functions from the old tables to the new tables and the call's
  outcome.
- The classes `TripService.TripService` and `ClientService.ClientService` hold
  a `Store.Database`, an object whose fields are the four tables. Their
  methods change only the table the SQL statement writes (`modifies
  db`registrations`, `modifies db`clients, db`nextClientId`). Each method is
  proved equal to its step function.
- `GetClientTrips` only reads. It is proved directly: it returns the client's
  joined rows, newest registration first.

Each exception class becomes a constructor of an error datatype. The plain
`Exception` thrown for a pair that is already registered is
`Unclassified("Client is already registered for this trip.")`. The clock
reading `DateTime.Now` is the parameter `now`.

Files:

- `wrappers.dfy`: Option, Result and Outcome.
- `store.dfy`: tables, occupancy, the DELETE filter, the invariants, the
  lemmas about them, and the `Database` class.
- `trip_service.dfy`: the registration engine.
- `client_service.dfy`: client creation.

Invariants (`Store.Consistent`):

- I1: at most one registration per (client, trip) pair.
- I2: every trip's occupancy is at most its `MaxPeople`.
- I3: every registration refers to an existing client and an existing trip.
- The identity counter is above every client id.

The model follows what the code does, even where a stricter booking design would differ:

- A duplicate registration raises an untyped error, not a typed
  "already registered" one.
- Names and e-mail are rejected when they are null, empty or white space
  only, not just when they are empty.
- No "store busy" failure exists.

## Model

| member | source | states |
|---|---|---|
| `Store.Occupancy` | TravelAgencyAPI/Services/TripService.cs:221 | The participant count of a trip is at most the number of rows, and it is positive exactly when some row references the trip. |
| `Store.WithoutPair` | TravelAgencyAPI/Services/TripService.cs:278 | The DELETE keeps exactly the rows not belonging to the (client, trip) pair, and never grows the table. |
| `Store.OccupancyAppend` | TravelAgencyAPI/Services/TripService.cs:243-254 | An inserted row raises its own trip's count by one and leaves every other trip's count unchanged. |
| `Store.AppendKeepsUnique` | TravelAgencyAPI/Services/TripService.cs:207-254 | Inserting a row whose pair is not registered yet keeps pair uniqueness. |
| `Store.WithoutAbsentPair` | TravelAgencyAPI/Services/TripService.cs:278 | Deleting a pair that has no row leaves the table unchanged. |
| `Store.WithoutPairOccupancy` | TravelAgencyAPI/Services/TripService.cs:278-289 | The DELETE never raises any trip's count, and leaves the counts of other trips unchanged. |
| `Store.WithoutPairKeepsUnique` | TravelAgencyAPI/Services/TripService.cs:278-289 | The DELETE keeps pair uniqueness. |
| `Store.WithoutUniquePair` | TravelAgencyAPI/Services/TripService.cs:278-289 | With unique pairs, deleting a registered pair removes exactly one row, the row of that pair, and keeps all other rows in order. |
| `Store.WithoutUniquePairOccupancy` | TravelAgencyAPI/Services/TripService.cs:278-289 | With unique pairs, deleting a registered pair frees exactly one seat of its trip. |
| `TripService.Assign` | TravelAgencyAPI/Services/TripService.cs:176-256 | Every failure of an assignment leaves all tables unchanged, and the call never touches the Client or Trip tables. |
| `TripService.Remove` | TravelAgencyAPI/Services/TripService.cs:258-291 | A failed removal leaves all tables unchanged, and the call never touches the Client or Trip tables. |
| `TripService.ClientTripsOf` | TravelAgencyAPI/Services/TripService.cs:102-109 | The query selects exactly the client's registrations whose trip exists, each joined with its Trip row. |
| `TripService.InsertNewestFirst` | TravelAgencyAPI/Services/TripService.cs:109 | Inserting a fetched row keeps the list ordered by RegisteredAt descending, and adds exactly that row. |
| `TripService.AssignGuardOrder` | TravelAgencyAPI/Services/TripService.cs:183-204 | A missing client raises ClientNotFound even when the trip is missing too. An existing client with a missing trip raises TripNotFound. |
| `TripService.AssignDuplicate` | TravelAgencyAPI/Services/TripService.cs:207-217 | For an existing client and trip, an already registered pair raises the untyped error, never MaxParticipants, even on a full trip, and the state is unchanged. |
| `TripService.AssignCapacity` | TravelAgencyAPI/Services/TripService.cs:220-240 | Once the first three guards pass, MaxParticipants is raised exactly when the trip's count is at least MaxPeople (so always when MaxPeople is 0), and success happens exactly otherwise. |
| `TripService.AssignSucceedsExactly` | TravelAgencyAPI/Services/TripService.cs:183-254 | An assignment succeeds exactly when the client and trip exist, the pair is not registered, and the trip has a free seat. |
| `TripService.AssignSuccess` | TravelAgencyAPI/Services/TripService.cs:243-254 | A success appends exactly the row (client, trip, now, NULL). The trip's count rises by one and every other trip's count is unchanged. |
| `TripService.AssignPreservesBookingRules` | TravelAgencyAPI/Services/TripService.cs:207-254 | Pair uniqueness and capacity hold after an assignment, whatever its outcome, if these two held before; nothing else is assumed. |
| `TripService.AssignPreservesConsistency` | TravelAgencyAPI/Services/TripService.cs:207-254 | Pair uniqueness, capacity and referential integrity hold after an assignment, whatever its outcome, if they held before. |
| `TripService.RemoveMissing` | TravelAgencyAPI/Services/TripService.cs:265-275 | Removing a pair with no row raises RegistrationNotFound and changes nothing. |
| `TripService.RemoveExisting` | TravelAgencyAPI/Services/TripService.cs:278-289 | With unique pairs, removing a registered pair succeeds and deletes exactly that row. All other rows stay in order, including the client's other trips. The trip loses one seat taken and other trips' counts are unchanged. |
| `TripService.RemovePreservesBookingRules` | TravelAgencyAPI/Services/TripService.cs:265-289 | Pair uniqueness and capacity hold after a removal, whatever its outcome, if these two held before; nothing else is assumed. |
| `TripService.RemovePreservesConsistency` | TravelAgencyAPI/Services/TripService.cs:265-289 | Pair uniqueness, capacity and referential integrity hold after a removal, whatever its outcome, if they held before. |
| `TripService.AppendedPairDeleted` | TravelAgencyAPI/Services/TripService.cs:243-289 | Deleting the pair of a freshly inserted row gives back the table as it was before the insert. |
| `TripService.AssignRemoveRoundTrip` | TravelAgencyAPI/Services/TripService.cs:243-289 | A successful assignment followed by removing the same pair restores the tables exactly. The same assignment then succeeds again, at any time. |
| `TripService.AssignTwice` | TravelAgencyAPI/Services/TripService.cs:207-254 | Assigning the same pair twice gives success, then the untyped error. The trip's count rises by 1, not 2. |
| `TripService.AssignInTurnFillsTrip` | TravelAgencyAPI/Services/TripService.cs:220-254 | N distinct, existing, unregistered clients assigned in turn to a trip with K free seats: exactly the first K succeed, the rest raise MaxParticipants, and the count ends at min(count + N, MaxPeople). |
| `TripService.ClientTripsEmpty` | TravelAgencyAPI/Services/TripService.cs:115-120 | The client's list is empty exactly when the client has no registration for an existing trip. |
| `TripService.WithoutRegisteredShrinks` | TravelAgencyAPI/Services/TripService.cs:284-288 | Deleting a registered pair always affects at least one row, so the "no rows affected" branch cannot be reached. |
| `TripService.TripService.GetClientTrips` | TravelAgencyAPI/Services/TripService.cs:81-144 | An unknown client raises ClientNotFound, and only an unknown one. Otherwise the result is ordered by RegisteredAt descending and holds exactly the client's joined registrations. It is empty when there are none. |
| `TripService.TripService.AssignClientToTrip` | TravelAgencyAPI/Services/TripService.cs:176-256 | The method changes only Client_Trip, and its new state and outcome are those of `Assign`. |
| `TripService.TripService.RemoveClientFromTrip` | TravelAgencyAPI/Services/TripService.cs:258-291 | The method changes only Client_Trip, and its new state and outcome are those of `Remove`. It asserts that the delete affects at least one row. |
| `ClientService.Validate` | TravelAgencyAPI/Services/ClientServices.cs:20-33 | An accepted input has non-null names and e-mail, an e-mail containing '@', and a PESEL that is null or 11 characters long. |
| `ClientService.NullIfBlank` | TravelAgencyAPI/Services/ClientServices.cs:50-54 | A value is bound as NULL exactly when it is null, empty or white space only. Any other value is bound as given. |
| `ClientService.Create` | TravelAgencyAPI/Services/ClientServices.cs:18-57 | A create fails exactly when validation fails, with the same error, and then changes nothing. The Trip and Client_Trip tables are never touched. |
| `ClientService.ValidateAcceptsExactly` | TravelAgencyAPI/Services/ClientServices.cs:20-33 | An input is accepted exactly when every one of the five checks passes. |
| `ClientService.ValidateNamesFirst` | TravelAgencyAPI/Services/ClientServices.cs:20-24 | A null, empty or white-space FirstName is reported first, whatever else is wrong. LastName is reported next. |
| `ClientService.ValidateEmail` | TravelAgencyAPI/Services/ClientServices.cs:26-30 | With valid names, a blank e-mail is reported as missing. A non-blank e-mail is reported as malformed exactly when it lacks '@'. |
| `ClientService.ValidatePesel` | TravelAgencyAPI/Services/ClientServices.cs:32-33 | Once the earlier checks pass, the PESEL check fails exactly when the PESEL is non-null with a length other than 11, the empty string included. A null PESEL passes. |
| `ClientService.NullIfBlankIdempotent` | TravelAgencyAPI/Services/ClientServices.cs:50-54 | Blank-to-NULL is idempotent and never binds a blank string. |
| `ClientService.CreateAddsOneFreshClient` | TravelAgencyAPI/Services/ClientServices.cs:39-57 | A success returns an id not used before. It adds exactly one client row under that id, so the table grows by one, and the identity counter stays ahead. |
| `ClientService.CreatePreservesConsistency` | TravelAgencyAPI/Services/ClientServices.cs:18-57 | Creating a client keeps all four store invariants. |
| `ClientService.BlankPeselStoredAsNull` | TravelAgencyAPI/Services/ClientServices.cs:32-54 | For every input that passes the name and e-mail checks, a PESEL of eleven white-space characters (any of .NET's white-space set) passes validation, and the create succeeds, yet the stored PESEL is NULL. |
| `ClientService.ClientService.CreateClient` | TravelAgencyAPI/Services/ClientServices.cs:18-60 | The method changes only the Client table and its identity counter, and its new state and outcome are those of `Create`. A returned id was not in the table before. |

## Left out

- SQL text, connections, commands, async/await and connection-string configuration. The tables are an abstract value instead.
- Concurrency. Each service call runs as one atomic step. The source runs its guards and the write as separate round-trips with no transaction or lock, so the check-then-insert race between concurrent assignments cannot be expressed in this model.
- `DateTime.Now` is the parameter `now`. Dates are plain integers.
- `GetAllTripsAsync` and the per-trip country queries (the second loop of `GetClientTripsAsync`). They only assemble display data, so `ClientTrip` has no country list.
- The controllers, which do HTTP routing and map exceptions to status codes.
- Exception message texts, except the untyped duplicate-registration message.
- Store failures such as connectivity errors and timeouts. The source does not classify them.
- TripService.TripService.GetClientTrips: the database evaluates `ORDER BY RegisteredAt DESC`. The model performs it by inserting each fetched row into its place while reading. The contract fixes the order only up to ties, as SQL does. The early return for "no rows" is folded into the loop, which gives the same empty list.
- ClientService.ClientService.CreateClient: it requires the identity counter to be ahead of every client id. The database's identity column guarantees this. The seed of that column and its 32-bit overflow are not modelled.
- ClientService.ValidatePesel: `Length` in the source counts UTF-16 code units. The model counts Unicode scalar values, which differ only for characters outside the Basic Multilingual Plane.
- 32-bit integers: client ids, trip ids, `MaxPeople` and the participant count are unbounded integers.
- The Trip table is read-only here. Trips are created outside these services, so a `Database` is opened in a given state.
