# Airport ride pooling: matching, reservation, cancellation and surge pricing

This project models the booking engine of a ride-pooling API for airport
passengers.

- **Ride request.** A passenger posts a ride request. The engine looks up at
  most 50 rides that are SEARCHING and have enough free seats and luggage
  room. It picks the one whose origin is nearest the pickup point and within
  the passenger's detour tolerance; on ties the first in scan order wins. It
  then locks and re-reads that ride and re-checks its seat and luggage
  counters. If those fail, the answer is a conflict. If they pass, it:
  - prices the booking from the ride's occupancy before the booking;
  - takes the seats and luggage, and marks the ride FULL when no seat is left;
  - creates the booking and marks the request MATCHED.
- **Cancellation.** Cancelling a booking gives the seats and luggage back,
  turns a FULL ride back into SEARCHING, marks the request CANCELLED and
  deletes the booking.
- **Ride views.** Rides can be listed (the open ones), looked up by id, and
  created. A new ride gets its available counters from its totals.

The Dafny modules follow the repository:

| module | file | models |
|---|---|---|
| `Models` | models.dfy | the records of rides/models.py and bookings/models.py |
| `Sums` | sums.dfy | sums over finite maps, used for the capacity ledger |
| `Store` | store.dfy | the tables, the lookup by id, the capacity ledger and the `Database` class |
| `Pricing` | pricing.dfy | `PricingService.calculate_price` |
| `RideViews` | rides.dfy | the three views of rides/views.py |
| `Matching` | matching.dfy | the candidate query and the detour selection loop |
| `BookingViews` | bookings.dfy | `CreateRideRequestView.post` and `CancelBookingView.post` |

**Each view is a step on the store.** It is written twice:
- as a function from the old tables to the new tables and an outcome
  (`Submit`, `Cancel`, `InsertRide`);
- as a method that takes the `Database` and updates its fields in
  place. Its `ensures` equates the new state and the result with that
  function of the old state.

An exception inside a view's transaction rolls the whole step back.
- The ride is gone when it is locked: the method restores its savepoint and
  returns `Aborted`.
- The ride has no seats at all, so pricing divides by zero: the same.

The views return normally with a "no match" or a conflict. The transaction
then commits, so the saved request stays PENDING.

**The store's invariant (`ValidTables`).** It states:
- ride ids are unique;
- ids stay below their auto-increment counters;
- every booking points at an existing ride and at an existing MATCHED request;
- a request has at most one booking;
- the capacity ledger balances: for every ride, the seats still available
  plus the seats held by its bookings equal the total seats, and likewise
  for luggage.

Both booking steps and ride creation keep this invariant. Booking and then
cancelling restores a ride's counters exactly.

A second invariant, `NonNegCounters`, says that no ride's seat or luggage
counter is negative. A ride request keeps it unconditionally, because the
re-check lets a reservation through only when the ride has room. A
cancellation keeps it when no request demands a negative amount. Ride
creation keeps it when the new totals are non-negative. Together with the
ledger it means no ride is overbooked: its bookings hold no more than its
total (`HeldWithinCapacity`).

**Stale reads.** The candidate list is a parameter of the request step. It
comes from an unlocked query whose snapshot may be stale. The re-check and
the reservation read the current store. `IsCandidateList` says which lists
that query may return from a snapshot.
- `BookedRideWasCandidate` shows that a booked ride was eligible in the
  snapshot.
- `StaleCandidateConflicts` shows that two requests racing for the last
  seats of one ride end with one booking and one conflict.

**The 0.70 boundary.** The model follows the code: a ratio of exactly 0.7
gives 1.1, because the 1.2 band is a strict `> 0.7` test. `SurgeBoundaries`
states the values at the edges.

## Model

| member | source | states |
|---|---|---|
| Pricing.BasePrice | services/pricing_service.py:33 | with the constants of lines 6-7, the base price exceeds the base fare of 100 by exactly 15 per km of the leg, and is at least 100 for a non-negative leg |
| Pricing.OccupancyRatio | services/pricing_service.py:36-38 | for a non-zero seat total the ratio times the total is the number of taken seats; it lies in [0, 1] when the available count is within the total |
| Pricing.SurgeMultiplier | services/pricing_service.py:40-45 | the multiplier is always one of 1.0, 1.1, 1.2 |
| Pricing.CalculatePrice | services/pricing_service.py:23-47 | for a non-negative leg the unrounded price is at least the base price, which is at least the base fare, and at most 1.2 times the base price; a zero seat total is excluded because the source divides by it |
| Pricing.SurgeBands | services/pricing_service.py:40-45 | 1.2 exactly when the ratio is above 0.7, 1.1 exactly when it is in (0.4, 0.7], 1.0 exactly when it is at most 0.4 |
| Pricing.SurgeBoundaries | services/pricing_service.py:42-45 | ratio 0.7 gives 1.1, 0.71 gives 1.2, 0.4 gives 1.0, 0.41 gives 1.1, 0 gives 1.0 and 1 gives 1.2 |
| Pricing.SurgeMonotone | services/pricing_service.py:40-45 | a larger occupancy ratio never gets a smaller multiplier |
| Pricing.SurgeByCounts | services/pricing_service.py:36-45 | the three bands in cross-multiplied integer form: 1.2 iff 10·taken > 7·total, 1.1 iff 4·total < 10·taken ≤ 7·total, 1.0 iff 10·taken ≤ 4·total |
| Pricing.PriceIgnoresRideRoute | services/pricing_service.py:26-38 | two rides with the same seat counters give the same price whatever their origin, destination, luggage room or status: the distance is the request's pickup to drop |
| Pricing.PriceMonotoneInOccupancy | services/pricing_service.py:36-47 | of two rides with the same total, the one with fewer available seats is never cheaper |
| Store.FindRide | bookings/views.py:93 | the lookup by id returns the first row holding the id, or None exactly when no row holds it (the get raising DoesNotExist) |
| Store.FindRideUnique | bookings/views.py:93 | in a table with unique ids the lookup of a row's id returns that row |
| Store.RideIdsAfterSave | bookings/views.py:118 | saving a row back under its own id keeps the table's id set and the uniqueness of ids |
| Store.RideIdsAfterAppend | rides/views.py:49-52 | appending a row adds its id to the table's ids, and keeps ids unique when that id is new |
| Store.HeldAfterCreate | bookings/views.py:121-125 | a new booking adds its request's demand to what its own ride holds and nothing to any other ride |
| Store.HeldAfterDelete | bookings/views.py:175 | deleting a booking takes exactly its request's demand off what its ride holds |
| Store.HeldFrame | bookings/views.py:128-129 | what bookings hold depends only on the demand of the requests they point at, not on the request status |
| Store.HeldUnbooked | rides/views.py:49-52 | a ride no booking points at holds nothing |
| Store.LedgerBounds | bookings/views.py:112-113 | under the invariant, a ride's available seats or luggage never exceed its total when no request demands a negative amount |
| Store.HeldWithinCapacity | bookings/views.py:96-113 | under the invariant and with no negative counter, the bookings on a ride hold no more seats or luggage than its total: no overbooking |
| Store.Database.constructor | rides/models.py:5-35 | an empty store whose ids start at 1 satisfies the invariant |
| RideViews.ActiveRides | rides/views.py:14-17 | the listing holds each stored ride that is SEARCHING with a free seat exactly as often as the table does, and no other ride |
| RideViews.ActiveListingsArePermutations | rides/views.py:14-17 | any two answers of the unordered listing query are permutations of each other, of the length of the model's listing |
| RideViews.RideDetail | rides/views.py:28-34 | the lookup returns a stored ride with the requested id, or None (the 404) exactly when no ride has that id |
| RideViews.RideDetailOfStoredRide | rides/views.py:28-38 | under unique ids the detail view of a stored ride's id is that ride |
| RideViews.NewRide | rides/views.py:49-52 | the new record's available seats and luggage equal its totals, and its status is SEARCHING when the payload gives none |
| RideViews.InsertRideEffect | rides/views.py:48-59 | a valid payload appends one ride with a fresh id and leaves all existing rides, requests and bookings alone; an invalid payload changes nothing |
| RideViews.InsertRideKeepsValid | rides/views.py:48-52 | creating a ride keeps the store's invariant, with the new ride's ledger balanced |
| RideViews.InsertRideKeepsNonNegative | rides/views.py:48-52 | creating a ride with non-negative totals keeps all counters non-negative |
| RideViews.CreateRide | rides/views.py:44-59 | the method's new state and result are those of InsertRide on the old state, and the invariant holds after it |
| Matching.EligibleRows | bookings/views.py:54-57 | the filter holds each ride that is SEARCHING with enough seats and luggage exactly as often as the table does, and no other ride |
| Matching.EligibleRowsDistinct | bookings/views.py:54-66 | filtering a table with unique ids yields rides with unique ids |
| Matching.FirstCandidatesQualify | bookings/views.py:54-66 | taking the first 50 eligible rides in storage order is a list the query may return: at most 50 distinct eligible rides of the snapshot, as many as there are up to 50 |
| Matching.FirstNearestUnique | bookings/views.py:69-84 | at most one answer meets the selection's description, so the chosen ride is a function of the candidate order |
| Matching.Nearest | bookings/views.py:69-84 | the reference choice is None when no candidate is within tolerance, and otherwise a candidate within tolerance that none beats and that every earlier candidate within tolerance is strictly farther than |
| Matching.SelectBest | bookings/views.py:69-84 | the selection loop returns the first nearest candidate within tolerance and its detour, and agrees with Nearest |
| BookingViews.NewRequest | bookings/views.py:50 | a saved request is PENDING, carries the requested seats and luggage, and has the given detour tolerance or the 5 km default |
| BookingViews.SaveRequestKeepsValid | bookings/views.py:50 | saving the request keeps the invariant and uses an id no request has |
| BookingViews.SaveRequestKeepsReferences | bookings/views.py:50 | the new request id is unused by requests and bookings, so every booking still resolves and the counters stay ahead of the ids |
| BookingViews.SaveRequestBalancesRow | bookings/views.py:50 | saving a request leaves every ride's ledger balanced, since no booking holds anything for it |
| BookingViews.ReserveBalancesRow | bookings/views.py:112-125 | after a reservation every ride's ledger still balances, for seats and for luggage |
| BookingViews.ReserveKeepsReferences | bookings/views.py:121-129 | a reservation for a request without a booking keeps every booking pointing at an existing ride and MATCHED request, one booking per request, and the counters ahead of all ids |
| BookingViews.ReserveKeepsValid | bookings/views.py:112-129 | reserving for a request with no booking keeps the invariant |
| BookingViews.ReleaseBalancesRow | bookings/views.py:162-175 | after a release every ride's ledger still balances, for seats and for luggage |
| BookingViews.ReleaseKeepsReferences | bookings/views.py:171-175 | releasing a booking keeps every remaining booking pointing at an existing ride and MATCHED request, one booking per request, and the counters ahead of all ids |
| BookingViews.ReleaseKeepsValid | bookings/views.py:159-175 | releasing a booking on its own ride keeps the invariant |
| BookingViews.SubmitKeepsValid | bookings/views.py:42-140 | every outcome of a ride request leaves the store valid, the capacity ledger included |
| BookingViews.SubmitKeepsNonNegative | bookings/views.py:96-113 | every outcome of a ride request keeps all seat and luggage counters non-negative |
| BookingViews.CancelResolves | bookings/views.py:159 | under the invariant a booking's ride and request exist, so cancellation never rolls back |
| BookingViews.CancelKeepsValid | bookings/views.py:149-180 | cancellation keeps the invariant and succeeds for every booking that exists |
| BookingViews.CancelKeepsNonNegative | bookings/views.py:159-168 | a cancellation keeps all counters non-negative when no request demands a negative amount |
| BookingViews.SubmitNoMatch | bookings/views.py:86-90 | with no candidate within tolerance the outcome is "no match"; rides and bookings are unchanged and only the PENDING request is added |
| BookingViews.SubmitConflict | bookings/views.py:96-103 | when the re-read ride fails the seat or luggage re-check, the outcome is a conflict; rides and bookings are unchanged and the request stays PENDING |
| BookingViews.SubmitPassesRecheck | bookings/views.py:93-109 | a found ride whose counters pass the re-check and whose seat total is non-zero is booked, whatever its status: the re-check tests the counters only |
| BookingViews.StartedRideBooked | bookings/views.py:93-118 | a ride STARTED since the candidate query but with room is booked, loses the seat and stays STARTED |
| BookingViews.SubmitAbortedRollsBack | bookings/views.py:41-109 | an aborted request leaves the store as it was, the saved request included; it aborts exactly when the chosen ride is gone or passes the re-check with a zero seat total |
| BookingViews.SubmitBooked | bookings/views.py:93-140 | on a booking the ride is the first nearest candidate; it passed the re-check; its seats and luggage drop by exactly the request's amounts and stay non-negative; it is FULL when no seat is left, else keeps its status; the price is from the counters before the decrement; the booking is new and links this request and ride; the request is MATCHED; no other ride changes |
| BookingViews.BookedRideWasCandidate | bookings/views.py:54-93 | a booked ride was SEARCHING with enough room in the snapshot the candidates came from, within the detour tolerance |
| BookingViews.StaleCandidateConflicts | bookings/views.py:93-103 | two requests matched on the same stale candidates to a ride with room for only one: the second gets a conflict and the ride loses only the first request's seats |
| BookingViews.CancelMissing | bookings/views.py:151-157 | an unknown booking id gives the 404 and changes nothing |
| BookingViews.CancelAbortedRollsBack | bookings/views.py:148-159 | an aborted cancellation changes nothing; it aborts exactly when the booking exists but its ride or request does not |
| BookingViews.CancelEffect | bookings/views.py:159-175 | cancelling gives the ride back the request's seats and luggage, turns FULL into SEARCHING and keeps other statuses, marks the request CANCELLED, deletes the booking and changes nothing else |
| BookingViews.ReleaseEffect | bookings/views.py:161-175 | the release adds the request's seats and luggage back to its row, demotes FULL only, marks the request CANCELLED, deletes the booking and leaves every other row alone |
| BookingViews.ReserveThenRelease | bookings/views.py:112-175 | a reservation followed by the release of the booking it created restores the row's counters and the bookings, and leaves the request CANCELLED; the status comes back SEARCHING when it was FULL or the booking filled the ride, and is unchanged otherwise |
| BookingViews.SubmitBookedIsReserve | bookings/views.py:105-129 | a booked request is the save of the request followed by a reservation on the booked ride's row under the next booking id |
| BookingViews.BookThenCancel | bookings/views.py:42-175 | booking and then cancelling restores the ride's seats and luggage exactly and the bookings table; the request ends CANCELLED; the ride ends SEARCHING when it was FULL or the booking took its last seats, and keeps its status otherwise, so a SEARCHING ride comes back unchanged |
| BookingViews.StartedRideReopened | bookings/views.py:115-166 | a STARTED ride whose last seat a late booking takes becomes FULL, and cancelling that booking makes it SEARCHING again |
| BookingViews.FirstBookingExample | bookings/views.py:42-140 | a four-seat empty ride at the pickup is booked at detour 0 for the base price with multiplier 1.0, leaving three seats and status SEARCHING |
| BookingViews.SaveRequestRow | bookings/views.py:50 | the request is stored PENDING under the next request id |
| BookingViews.ReserveRow | bookings/views.py:111-129 | the in-place decrement, FULL marking, booking creation and MATCHED update equal Reserve on the old state |
| BookingViews.CreateRideRequest | bookings/views.py:42-140 | the method's new state and outcome are those of Submit on the old state, rollbacks included, and the invariant holds after it |
| BookingViews.ReleaseRow | bookings/views.py:161-175 | the in-place restore, status demotion, CANCELLED update and deletion equal Release on the old state |
| BookingViews.CancelBooking | bookings/views.py:149-180 | the method's new state and outcome are those of Cancel on the old state, and the invariant holds after it |

## Left out

- Haversine distance (bookings/views.py:18-32, services/pricing_service.py:10-20): floating-point trigonometry. Every distance is a function parameter about which nothing is assumed.
- Floating point and rounding: prices and detours are exact reals. `round(final_price, 2)` and `round(min_detour, 2)` are not modelled, nor is the two-decimal price column.
- Pricing.CalculatePrice: states the unrounded price, not the rounded value the source returns.
- Concurrency and locking: `transaction.atomic` and `select_for_update` make each view one atomic step here. The race between the unlocked candidate query and the locked re-check appears only as a candidate list that may come from a stale snapshot.
- RideViews.ActiveRides: returns the open rides in storage order. The query has no ordering, so the database may return them in any order. `IsActiveListing` states what every answer has in common, and `ActiveListingsArePermutations` shows that any two answers differ only in order.
- Database ordering: the query's row order and its choice among more than 50 eligible rides are left open. `IsCandidateList` admits any order of distinct eligible rides of the right length.
- Serializer validation and HTTP: the ride request serializer, bookings/serializers.py, is not part of this model. Validation is a boolean parameter, and responses are the outcome constructors.
- CreateRideView reads the available counters from the raw request data. The model takes them from the validated totals.
- Swagger decorators and config/urls.py: framework wiring with no logic.
- Incidental fields: timestamps, user and driver ids, decimal coordinate precision and `__str__`.
- Auto-increment ids are counters in the store. Ids of deleted rows are never reused.
- Integer fields are unbounded integers: the 32-bit range of the database columns is not modelled.
- Store.LedgerBounds: holds only when no request in the store demands a negative amount. The source does not validate the sign of the demands, and neither does the model.
- BookingViews.CancelKeepsNonNegative and RideViews.InsertRideKeepsNonNegative: they need non-negative demands and non-negative totals. The source checks the sign of neither, so a negative demand or a negative total can make a counter negative.
- Cascading deletes of rides or requests: no core operation deletes either, so the model has none.
