/** The booking views of bookings/views.py. `CreateRideRequestView.post`
    saves the request, picks the nearest candidate, re-checks the chosen
    ride's counters, prices the booking, takes the capacity, creates the
    booking and marks the request MATCHED. `CancelBookingView.post` gives
    the capacity back, marks the request CANCELLED and deletes the booking.
    Each view is one atomic step on the store; an exception inside it rolls
    the whole step back. */
module BookingViews {
  import opened Models
  import opened Store
  import opened Matching
  import Pricing

  /** The tolerance a request gets when its payload gives none. */
  const DefaultDetourToleranceKm: real := 5.0

  /** The validated fields of a new ride request. The detour tolerance may
      be left out, and then takes the model default. */
  datatype RequestPayload = RequestPayload(
    pickup: Coord,
    drop: Coord,
    seatsRequired: int,
    luggageRequired: int,
    detourToleranceKm: Option<real>)
  {
    /** The tolerance the saved request carries. */
    function Tolerance(): real {
      detourToleranceKm.GetOr(DefaultDetourToleranceKm)
    }
  }

  datatype RequestOutcome =
    | Invalid                        // 400: the serializer rejected the payload
    | NoMatch(requestId: nat)        // 200: no candidate within tolerance
    | Conflict(requestId: nat)       // 409: the re-check under the lock failed
    | Booked(bookingId: nat, rideId: nat, price: real, detourKm: real)  // 201
    | Aborted                        // an exception rolled the transaction back

  datatype CancelOutcome =
    | BookingNotFound                // 404
    | BookingCancelled               // 200
    | CancelAborted                  // an exception rolled the transaction back

  /** The request row the serializer saves: PENDING by default. */
  function NewRequest(p: RequestPayload): (q: RideRequest)
    ensures q.status == Pending
    ensures q.seatsRequired == p.seatsRequired && q.luggageRequired == p.luggageRequired
    ensures p.detourToleranceKm.None? ==> q.detourToleranceKm == DefaultDetourToleranceKm
    ensures p.detourToleranceKm.Some? ==> q.detourToleranceKm == p.detourToleranceKm.value
  {
    RideRequest(p.pickup, p.drop, p.seatsRequired, p.luggageRequired, p.Tolerance(), Pending)
  }

  /** Step 1: save the request under the next request id. */
  function SaveRequest(t: Tables, p: RequestPayload): Tables {
    t.(requests := t.requests[t.nextRequestId := NewRequest(p)], nextRequestId := t.nextRequestId + 1)
  }

  /** Steps 6 to 8 on ride row `i`: take the request's seats and luggage,
      mark the ride FULL when no seat is left, create the booking and mark
      the request MATCHED. */
  function Reserve(t: Tables, i: nat, requestId: nat, price: real): Tables
    requires i < |t.rides| && requestId in t.requests
  {
    var ride := t.rides[i];
    var q := t.requests[requestId];
    var seats := ride.availableSeats - q.seatsRequired;
    var saved := ride.(availableSeats := seats,
                       availableLuggageCapacity := ride.availableLuggageCapacity - q.luggageRequired,
                       status := if seats == 0 then Full else ride.status);
    t.(rides := t.rides[i := saved],
       bookings := t.bookings[t.nextBookingId := Booking(ride.id, requestId, price)],
       nextBookingId := t.nextBookingId + 1,
       requests := t.requests[requestId := q.(status := Matched)])
  }

  /** The whole of `CreateRideRequestView.post`. `candidates` is what the
      unlocked candidate query returned; the re-check and the reservation
      read the store as it is now. */
  function Submit(t: Tables, p: RequestPayload, valid: bool, candidates: seq<Ride>, distance: Metric): (Tables, RequestOutcome) {
    if !valid then (t, Invalid)
    else
      match Nearest(candidates, p.pickup, p.Tolerance(), distance)
      case None => (SaveRequest(t, p), NoMatch(t.nextRequestId))
      case Some(k) => LockAndReserve(t, p, candidates[k].id, Detour(candidates[k], p.pickup, distance), distance)
  }

  /** Steps 4 to 8 once ride `rideId` has been chosen at detour `detourKm`,
      from the store `t` as it was before the request was saved. A ride that
      has vanished makes the get raise, and a ride with no seats at all makes
      pricing divide by zero; both roll back everything, the saved request
      included. */
  function LockAndReserve(t: Tables, p: RequestPayload, rideId: nat, detourKm: real, distance: Metric): (Tables, RequestOutcome) {
    var requestId := t.nextRequestId;
    var request := NewRequest(p);
    var t1 := SaveRequest(t, p);
    match FindRide(t1.rides, rideId)
    case None => (t, Aborted)
    case Some(i) =>
      var ride := t1.rides[i];
      if ride.availableSeats < request.seatsRequired || ride.availableLuggageCapacity < request.luggageRequired then
        (t1, Conflict(requestId))
      else if ride.totalSeats == 0 then
        (t, Aborted)
      else
        var price := Pricing.CalculatePrice(ride, request, distance);
        (Reserve(t1, i, requestId, price), Booked(t1.nextBookingId, ride.id, price, detourKm))
  }

  /** The release of `CancelBookingView.post` on ride row `i`: give back the
      request's seats and luggage, demote FULL to SEARCHING, mark the request
      CANCELLED and delete the booking. */
  function Release(t: Tables, bookingId: nat, i: nat): Tables
    requires bookingId in t.bookings && i < |t.rides| && t.bookings[bookingId].request in t.requests
  {
    var b := t.bookings[bookingId];
    var q := t.requests[b.request];
    var ride := t.rides[i];
    var restored := ride.(availableSeats := ride.availableSeats + q.seatsRequired,
                          availableLuggageCapacity := ride.availableLuggageCapacity + q.luggageRequired,
                          status := if ride.status == Full then Searching else ride.status);
    t.(rides := t.rides[i := restored],
       requests := t.requests[b.request := q.(status := RequestCancelled)],
       bookings := t.bookings - {bookingId})
  }

  /** The whole of `CancelBookingView.post`. */
  function Cancel(t: Tables, bookingId: nat): (Tables, CancelOutcome) {
    if bookingId !in t.bookings then (t, BookingNotFound)
    else
      var b := t.bookings[bookingId];
      match FindRide(t.rides, b.ride)
      case None => (t, CancelAborted)
      case Some(i) =>
        if b.request !in t.requests then (t, CancelAborted)
        else (Release(t, bookingId, i), BookingCancelled)
  }

  // ---------------------------------------------------------------------
  // The store's invariant is kept by every step.

  /** Saving a request uses an id no request or booking refers to yet, so
      every booking still resolves. */
  lemma SaveRequestKeepsReferences(t: Tables, p: RequestPayload)
    requires BookingsResolve(t) && OneBookingPerRequest(t) && IdsBelowCounters(t)
    ensures t.nextRequestId !in t.requests
    ensures forall k :: k in t.bookings ==> t.bookings[k].request != t.nextRequestId
    ensures var t' := SaveRequest(t, p);
            BookingsResolve(t') && OneBookingPerRequest(t') && IdsBelowCounters(t')
  {
  }

  /** The ledger of row `j` after the request is saved: no booking holds
      anything for the new request. */
  lemma SaveRequestBalancesRow(t: Tables, p: RequestPayload, j: nat)
    requires forall k :: k in t.bookings ==> t.bookings[k].request != t.nextRequestId
    requires j < |t.rides| && Balanced(t, t.rides[j])
    ensures Balanced(SaveRequest(t, p), t.rides[j])
  {
    var t' := SaveRequest(t, p);
    HeldFrame(t.bookings, t.requests, t'.requests, t.rides[j].id, Seats);
    HeldFrame(t.bookings, t.requests, t'.requests, t.rides[j].id, Luggage);
  }

  lemma SaveRequestKeepsValid(t: Tables, p: RequestPayload)
    requires ValidTables(t)
    ensures ValidTables(SaveRequest(t, p))
    ensures t.nextRequestId !in t.requests
  {
    var t' := SaveRequest(t, p);
    SaveRequestKeepsReferences(t, p);
    forall j | 0 <= j < |t'.rides| ensures Balanced(t', t'.rides[j]) {
      assert Balanced(t, t.rides[j]);
      SaveRequestBalancesRow(t, p, j);
    }
  }

  /** The ledger of row `j` after a reservation on row `i`. */
  lemma ReserveBalancesRow(t: Tables, i: nat, requestId: nat, price: real, j: nat, kind: Resource)
    requires DistinctIds(t.rides) && t.nextBookingId !in t.bookings
    requires i < |t.rides| && requestId in t.requests && j < |t.rides|
    requires Balanced(t, t.rides[j])
    ensures var t' := Reserve(t, i, requestId, price);
            Available(t'.rides[j], kind) + Held(t'.bookings, t'.requests, t'.rides[j].id, kind) == Capacity(t'.rides[j], kind)
  {
    var t' := Reserve(t, i, requestId, price);
    var id := t.rides[j].id;
    var b := Booking(t.rides[i].id, requestId, price);
    assert t'.rides[j].id == id;
    HeldFrame(t.bookings, t.requests, t'.requests, id, kind);
    HeldAfterCreate(t.bookings, t'.requests, t.nextBookingId, b, id, kind);
  }

  /** A reservation for a request without a booking keeps every booking
      resolving and the counters ahead of the ids. */
  lemma ReserveKeepsReferences(t: Tables, i: nat, requestId: nat, price: real)
    requires BookingsResolve(t) && OneBookingPerRequest(t) && IdsBelowCounters(t)
    requires i < |t.rides| && requestId in t.requests
    requires forall k :: k in t.bookings ==> t.bookings[k].request != requestId
    ensures var t' := Reserve(t, i, requestId, price);
            BookingsResolve(t') && OneBookingPerRequest(t') && IdsBelowCounters(t')
  {
    var t' := Reserve(t, i, requestId, price);
    RideIdsAfterSave(t.rides, i, t'.rides[i]);
    assert t'.rides[i].id in RideIds(t'.rides);
  }

  lemma ReserveKeepsValid(t: Tables, i: nat, requestId: nat, price: real)
    requires ValidTables(t)
    requires i < |t.rides| && requestId in t.requests
    requires forall k :: k in t.bookings ==> t.bookings[k].request != requestId
    ensures ValidTables(Reserve(t, i, requestId, price))
  {
    var t' := Reserve(t, i, requestId, price);
    RideIdsAfterSave(t.rides, i, t'.rides[i]);
    ReserveKeepsReferences(t, i, requestId, price);
    forall j | 0 <= j < |t'.rides| ensures Balanced(t', t'.rides[j]) {
      assert Balanced(t, t.rides[j]);
      ReserveBalancesRow(t, i, requestId, price, j, Seats);
      ReserveBalancesRow(t, i, requestId, price, j, Luggage);
    }
  }

  /** The ledger of row `j` after the booking on row `i` is released. */
  lemma ReleaseBalancesRow(t: Tables, bookingId: nat, i: nat, j: nat, kind: Resource)
    requires DistinctIds(t.rides)
    requires bookingId in t.bookings && i < |t.rides| && t.rides[i].id == t.bookings[bookingId].ride
    requires t.bookings[bookingId].request in t.requests
    requires j < |t.rides| && Balanced(t, t.rides[j])
    ensures var t' := Release(t, bookingId, i);
            Available(t'.rides[j], kind) + Held(t'.bookings, t'.requests, t'.rides[j].id, kind) == Capacity(t'.rides[j], kind)
  {
    var t' := Release(t, bookingId, i);
    var id := t.rides[j].id;
    assert t'.rides[j].id == id;
    HeldFrame(t.bookings - {bookingId}, t.requests, t'.requests, id, kind);
    HeldAfterDelete(t.bookings, t.requests, bookingId, id, kind);
  }

  /** Releasing a booking keeps every other booking resolving: their
      requests are not the released one, so they stay MATCHED. */
  lemma ReleaseKeepsReferences(t: Tables, bookingId: nat, i: nat)
    requires BookingsResolve(t) && OneBookingPerRequest(t) && IdsBelowCounters(t)
    requires bookingId in t.bookings && i < |t.rides| && t.rides[i].id == t.bookings[bookingId].ride
    requires t.bookings[bookingId].request in t.requests
    ensures var t' := Release(t, bookingId, i);
            BookingsResolve(t') && OneBookingPerRequest(t') && IdsBelowCounters(t')
  {
    var t' := Release(t, bookingId, i);
    RideIdsAfterSave(t.rides, i, t'.rides[i]);
  }

  lemma ReleaseKeepsValid(t: Tables, bookingId: nat, i: nat)
    requires ValidTables(t)
    requires bookingId in t.bookings && FindRide(t.rides, t.bookings[bookingId].ride) == Some(i)
    requires t.bookings[bookingId].request in t.requests
    ensures ValidTables(Release(t, bookingId, i))
  {
    var t' := Release(t, bookingId, i);
    RideIdsAfterSave(t.rides, i, t'.rides[i]);
    ReleaseKeepsReferences(t, bookingId, i);
    forall j | 0 <= j < |t'.rides| ensures Balanced(t', t'.rides[j]) {
      assert Balanced(t, t.rides[j]);
      ReleaseBalancesRow(t, bookingId, i, j, Seats);
      ReleaseBalancesRow(t, bookingId, i, j, Luggage);
    }
  }

  /** Booking keeps the store's invariant, the capacity ledger included:
      for every ride, what is available plus what its bookings hold stays
      equal to its totals. */
  lemma SubmitKeepsValid(t: Tables, p: RequestPayload, valid: bool, candidates: seq<Ride>, distance: Metric)
    requires ValidTables(t)
    ensures ValidTables(Submit(t, p, valid, candidates, distance).0)
  {
    if valid {
      var t1 := SaveRequest(t, p);
      SaveRequestKeepsValid(t, p);
      var best := Nearest(candidates, p.pickup, p.Tolerance(), distance);
      if best.Some? {
        var found := FindRide(t1.rides, candidates[best.value].id);
        if found.Some? {
          var i := found.value;
          var ride := t1.rides[i];
          if ride.availableSeats >= p.seatsRequired && ride.availableLuggageCapacity >= p.luggageRequired && ride.totalSeats != 0 {
            var price := Pricing.CalculatePrice(ride, NewRequest(p), distance);
            ReserveKeepsValid(t1, i, t.nextRequestId, price);
          }
        }
      }
    }
  }

  /** A ride request never drives a counter below zero: the re-check lets
      the reservation through only when the ride has room. */
  lemma SubmitKeepsNonNegative(t: Tables, p: RequestPayload, valid: bool, candidates: seq<Ride>, distance: Metric)
    requires NonNegCounters(t)
    ensures NonNegCounters(Submit(t, p, valid, candidates, distance).0)
  {
  }

  /** Under the store's invariant a booking's ride and request are always
      there, so cancellation never rolls back. */
  lemma CancelResolves(t: Tables, bookingId: nat)
    requires ValidTables(t)
    requires bookingId in t.bookings
    ensures FindRide(t.rides, t.bookings[bookingId].ride).Some?
    ensures t.bookings[bookingId].request in t.requests
  {
    var s :| s in t.rides && s.id == t.bookings[bookingId].ride;
  }

  /** Cancellation keeps the store's invariant, the capacity ledger
      included. */
  lemma CancelKeepsValid(t: Tables, bookingId: nat)
    requires ValidTables(t)
    ensures ValidTables(Cancel(t, bookingId).0)
    ensures bookingId in t.bookings ==> Cancel(t, bookingId).1 == BookingCancelled
  {
    if bookingId in t.bookings {
      CancelResolves(t, bookingId);
      ReleaseKeepsValid(t, bookingId, FindRide(t.rides, t.bookings[bookingId].ride).value);
    }
  }

  /** A cancellation never drives a counter below zero, as long as no
      request demands a negative amount. */
  lemma CancelKeepsNonNegative(t: Tables, bookingId: nat)
    requires NonNegCounters(t)
    requires forall k :: k in t.requests ==> t.requests[k].seatsRequired >= 0 && t.requests[k].luggageRequired >= 0
    ensures NonNegCounters(Cancel(t, bookingId).0)
  {
  }

  // ---------------------------------------------------------------------
  // The outcomes of a ride request.

  /** No candidate within tolerance: "no match", and only the request row,
      saved as PENDING, is new. */
  lemma SubmitNoMatch(t: Tables, p: RequestPayload, candidates: seq<Ride>, distance: Metric)
    requires forall j :: 0 <= j < |candidates| ==> Detour(candidates[j], p.pickup, distance) > p.Tolerance()
    ensures var (t', outcome) := Submit(t, p, true, candidates, distance);
            && outcome == NoMatch(t.nextRequestId)
            && t'.rides == t.rides && t'.bookings == t.bookings
            && t'.requests == t.requests[t.nextRequestId := NewRequest(p)]
  {
    FirstNearestUnique(candidates, p.pickup, p.Tolerance(), distance,
                       Nearest(candidates, p.pickup, p.Tolerance(), distance), None);
  }

  /** A match and a ride found: either its counters fail the re-check, and
      the result is a conflict with no ride or booking changed and the
      request left PENDING; or they pass. Only the counters are re-checked,
      not the status. */
  lemma SubmitConflict(t: Tables, p: RequestPayload, candidates: seq<Ride>, distance: Metric, k: nat, i: nat)
    requires Nearest(candidates, p.pickup, p.Tolerance(), distance) == Some(k)
    requires FindRide(t.rides, candidates[k].id) == Some(i)
    requires t.rides[i].availableSeats < p.seatsRequired || t.rides[i].availableLuggageCapacity < p.luggageRequired
    ensures var (t', outcome) := Submit(t, p, true, candidates, distance);
            && outcome == Conflict(t.nextRequestId)
            && t'.rides == t.rides && t'.bookings == t.bookings
            && t'.requests == t.requests[t.nextRequestId := NewRequest(p)]
            && t'.requests[t.nextRequestId].status == Pending
  {
  }

  /** The converse of the conflict: a found ride whose counters pass the
      re-check is booked, whatever its status, unless its seat total is zero
      and pricing raises. The re-check looks at the counters only. */
  lemma SubmitPassesRecheck(t: Tables, p: RequestPayload, candidates: seq<Ride>, distance: Metric, k: nat, i: nat)
    requires Nearest(candidates, p.pickup, p.Tolerance(), distance) == Some(k)
    requires FindRide(t.rides, candidates[k].id) == Some(i)
    requires t.rides[i].availableSeats >= p.seatsRequired && t.rides[i].availableLuggageCapacity >= p.luggageRequired
    requires t.rides[i].totalSeats != 0
    ensures var outcome := Submit(t, p, true, candidates, distance).1;
            outcome.Booked? && outcome.rideId == candidates[k].id
  {
  }

  /** A ride that has been STARTED since the candidate query, yet still has
      room, is booked all the same and stays STARTED. */
  lemma StartedRideBooked(distance: Metric)
    requires distance(Coord(0.0, 0.0), Coord(0.0, 0.0)) == 0.0
    ensures var snapshot := Ride(1, Coord(0.0, 0.0), Coord(1.0, 1.0), 4, 4, 2, 2, Searching);
            var t := Tables([snapshot.(status := Started)], map[], map[], 2, 1, 1);
            var p := RequestPayload(Coord(0.0, 0.0), Coord(1.0, 1.0), 1, 0, None);
            var (t', outcome) := Submit(t, p, true, [snapshot], distance);
            && outcome.Booked? && outcome.rideId == 1
            && t'.rides[0].status == Started
            && t'.rides[0].availableSeats == 3
  {
    var snapshot := Ride(1, Coord(0.0, 0.0), Coord(1.0, 1.0), 4, 4, 2, 2, Searching);
    var p := RequestPayload(Coord(0.0, 0.0), Coord(1.0, 1.0), 1, 0, None);
    assert Nearest([snapshot], p.pickup, p.Tolerance(), distance) == Some(0);
  }

  /** A request the transaction aborts leaves the store exactly as it was,
      the saved request included. It aborts exactly when the chosen ride is
      gone, or when the ride passes the re-check with a seat total of zero
      and pricing divides by it. */
  lemma SubmitAbortedRollsBack(t: Tables, p: RequestPayload, valid: bool, candidates: seq<Ride>, distance: Metric)
    ensures Submit(t, p, valid, candidates, distance).1 == Aborted ==> Submit(t, p, valid, candidates, distance).0 == t
    ensures var best := Nearest(candidates, p.pickup, p.Tolerance(), distance);
            Submit(t, p, valid, candidates, distance).1 == Aborted <==>
              && valid && best.Some?
              && var found := FindRide(t.rides, candidates[best.value].id);
                 (found.None? ||
                  (&& t.rides[found.value].availableSeats >= p.seatsRequired
                   && t.rides[found.value].availableLuggageCapacity >= p.luggageRequired
                   && t.rides[found.value].totalSeats == 0))
  {
  }

  /** What a successful booking does. The chosen candidate is the first
      nearest within tolerance; the stored ride passed the re-check; its
      seats and luggage drop by exactly the requested amounts and stay
      non-negative; it becomes FULL when no seat is left and keeps its status
      otherwise; the price is computed from the ride before the decrement; a
      booking of this request on this ride is created under a fresh id; the
      request is MATCHED; no other ride changes. */
  lemma SubmitBooked(t: Tables, p: RequestPayload, candidates: seq<Ride>, distance: Metric)
    requires ValidTables(t)
    ensures var (t', outcome) := Submit(t, p, true, candidates, distance);
            outcome.Booked? ==>
              exists k: nat, i: nat ::
                && IsFirstNearest(candidates, p.pickup, p.Tolerance(), distance, Some(k))
                && candidates[k].id == outcome.rideId
                && outcome.detourKm == Detour(candidates[k], p.pickup, distance)
                && i < |t.rides| && t.rides[i].id == outcome.rideId
                && BookedRow(t.rides[i], t'.rides[i], p)
                && t.rides[i].totalSeats != 0
                && outcome.price == Pricing.CalculatePrice(t.rides[i], NewRequest(p), distance)
                && |t'.rides| == |t.rides|
                && (forall j :: 0 <= j < |t.rides| && j != i ==> t'.rides[j] == t.rides[j])
                && outcome.bookingId !in t.bookings
                && t'.bookings == t.bookings[outcome.bookingId := Booking(outcome.rideId, t.nextRequestId, outcome.price)]
                && t'.requests == t.requests[t.nextRequestId := NewRequest(p).(status := Matched)]
  {
    var (t', outcome) := Submit(t, p, true, candidates, distance);
    if outcome.Booked? {
      var k := Nearest(candidates, p.pickup, p.Tolerance(), distance).value;
      var i := FindRide(t.rides, candidates[k].id).value;
      assert t.nextBookingId !in t.bookings;
      assert SaveRequest(t, p).requests[t.nextRequestId := NewRequest(p).(status := Matched)]
          == t.requests[t.nextRequestId := NewRequest(p).(status := Matched)];
      assert BookedRow(t.rides[i], t'.rides[i], p);
    }
  }

  /** How the booked ride's row changes: the re-check held before, the
      counters drop by the request, the status becomes FULL exactly when no
      seat is left and is otherwise kept, and nothing else changes. */
  ghost predicate BookedRow(before: Ride, after: Ride, p: RequestPayload) {
    && before.availableSeats >= p.seatsRequired
    && before.availableLuggageCapacity >= p.luggageRequired
    && after.availableSeats == before.availableSeats - p.seatsRequired >= 0
    && after.availableLuggageCapacity == before.availableLuggageCapacity - p.luggageRequired >= 0
    && (after.availableSeats == 0 ==> after.status == Full)
    && (after.availableSeats != 0 ==> after.status == before.status)
    && after.(availableSeats := before.availableSeats,
              availableLuggageCapacity := before.availableLuggageCapacity,
              status := before.status) == before
  }

  /** When the candidates came from the query on some snapshot, whatever
      ride gets booked was eligible in that snapshot and within tolerance:
      it was SEARCHING there with room for the request, though its row may
      have changed since. */
  lemma BookedRideWasCandidate(t: Tables, p: RequestPayload, candidates: seq<Ride>, distance: Metric, snapshot: seq<Ride>)
    requires IsCandidateList(snapshot, p.seatsRequired, p.luggageRequired, candidates)
    ensures var outcome := Submit(t, p, true, candidates, distance).1;
            outcome.Booked? ==>
              exists r :: r in snapshot && r.id == outcome.rideId
                && Eligible(r, p.seatsRequired, p.luggageRequired)
                && Detour(r, p.pickup, distance) <= p.Tolerance()
  {
    var outcome := Submit(t, p, true, candidates, distance).1;
    if outcome.Booked? {
      var k := Nearest(candidates, p.pickup, p.Tolerance(), distance).value;
      assert candidates[k] in snapshot && Eligible(candidates[k], p.seatsRequired, p.luggageRequired);
    }
  }

  /** The race the row lock settles: two requests matched against the same
      stale candidate list pick the same ride, which has room for only one
      of them. The first books it; the second sees a conflict, and the ride's
      seats drop by the first request's seats only. */
  lemma StaleCandidateConflicts(t: Tables, p1: RequestPayload, p2: RequestPayload, candidates: seq<Ride>, distance: Metric, i: nat)
    requires ValidTables(t)
    requires i < |t.rides|
    requires Submit(t, p1, true, candidates, distance).1.Booked?
    requires Submit(t, p1, true, candidates, distance).1.rideId == t.rides[i].id
    requires var k2 := Nearest(candidates, p2.pickup, p2.Tolerance(), distance);
             k2.Some? && candidates[k2.value].id == t.rides[i].id
    requires t.rides[i].availableSeats < p1.seatsRequired + p2.seatsRequired
    ensures var t1 := Submit(t, p1, true, candidates, distance).0;
            var (t2, second) := Submit(t1, p2, true, candidates, distance);
            && second == Conflict(t1.nextRequestId)
            && t2.rides == t1.rides && t2.bookings == t1.bookings
            && t2.rides[i].availableSeats == t.rides[i].availableSeats - p1.seatsRequired
  {
    var t1 := Submit(t, p1, true, candidates, distance).0;
    SubmitBooked(t, p1, candidates, distance);
    FindRideUnique(t.rides, i);
    SubmitKeepsValid(t, p1, true, candidates, distance);
    RideIdsAfterSave(t.rides, i, t1.rides[i]);
    FindRideUnique(t1.rides, i);
    var k2 := Nearest(candidates, p2.pickup, p2.Tolerance(), distance).value;
    SubmitConflict(t1, p2, candidates, distance, k2, i);
  }

  // ---------------------------------------------------------------------
  // Cancellation.

  /** An unknown booking id is a 404 and changes nothing. */
  lemma CancelMissing(t: Tables, bookingId: nat)
    requires bookingId !in t.bookings
    ensures Cancel(t, bookingId) == (t, BookingNotFound)
  {
  }

  /** A cancellation the transaction aborts changes nothing. It aborts
      exactly when the booking exists but its ride or its request does not,
      which the store's invariant rules out. */
  lemma CancelAbortedRollsBack(t: Tables, bookingId: nat)
    ensures Cancel(t, bookingId).1 == CancelAborted ==> Cancel(t, bookingId).0 == t
    ensures Cancel(t, bookingId).1 == CancelAborted <==>
              && bookingId in t.bookings
              && (FindRide(t.rides, t.bookings[bookingId].ride).None? || t.bookings[bookingId].request !in t.requests)
  {
  }

  /** What a cancellation does: the ride's seats and luggage grow by the
      request's amounts; FULL becomes SEARCHING and any other status stays;
      the request becomes CANCELLED; the booking is gone; nothing else
      changes. */
  lemma CancelEffect(t: Tables, bookingId: nat)
    requires ValidTables(t)
    requires bookingId in t.bookings
    ensures var b := t.bookings[bookingId];
            var (t', outcome) := Cancel(t, bookingId);
            && outcome == BookingCancelled
            && b.request in t.requests
            && exists i :: 0 <= i < |t.rides| && t.rides[i].id == b.ride
                 && ReleasedRow(t.rides[i], t'.rides[i], t.requests[b.request])
                 && |t'.rides| == |t.rides|
                 && (forall j :: 0 <= j < |t.rides| && j != i ==> t'.rides[j] == t.rides[j])
                 && t'.requests == t.requests[b.request := t.requests[b.request].(status := RequestCancelled)]
                 && t'.bookings == t.bookings - {bookingId}
  {
    CancelResolves(t, bookingId);
    var i := FindRide(t.rides, t.bookings[bookingId].ride).value;
    ReleaseEffect(t, bookingId, i);
    assert Cancel(t, bookingId) == (Release(t, bookingId, i), BookingCancelled);
  }

  /** The release on row `i`, row by row. */
  lemma ReleaseEffect(t: Tables, bookingId: nat, i: nat)
    requires bookingId in t.bookings && i < |t.rides| && t.bookings[bookingId].request in t.requests
    ensures var b := t.bookings[bookingId];
            var t' := Release(t, bookingId, i);
            && ReleasedRow(t.rides[i], t'.rides[i], t.requests[b.request])
            && |t'.rides| == |t.rides|
            && (forall j :: 0 <= j < |t.rides| && j != i ==> t'.rides[j] == t.rides[j])
            && t'.requests == t.requests[b.request := t.requests[b.request].(status := RequestCancelled)]
            && t'.bookings == t.bookings - {bookingId}
  {
  }

  /** How the released ride's row changes. */
  ghost predicate ReleasedRow(before: Ride, after: Ride, q: RideRequest) {
    && after.availableSeats == before.availableSeats + q.seatsRequired
    && after.availableLuggageCapacity == before.availableLuggageCapacity + q.luggageRequired
    && after.status == (if before.status == Full then Searching else before.status)
    && after.(availableSeats := before.availableSeats,
              availableLuggageCapacity := before.availableLuggageCapacity,
              status := before.status) == before
  }

  /** A reservation on row `i` followed by the release of the booking it
      created gives back the row's counters, deletes the booking again and
      leaves the request CANCELLED. A ride the booking filled comes back
      SEARCHING, whatever its status was before. */
  lemma ReserveThenRelease(t: Tables, i: nat, requestId: nat, price: real)
    requires DistinctIds(t.rides) && t.nextBookingId !in t.bookings
    requires i < |t.rides| && requestId in t.requests
    ensures var t1 := Reserve(t, i, requestId, price);
            var bookingId := t.nextBookingId;
            && bookingId in t1.bookings && t1.bookings[bookingId].request in t1.requests
            && FindRide(t1.rides, t1.bookings[bookingId].ride) == Some(i)
            && var t2 := Release(t1, bookingId, i);
               && t2.rides[i].availableSeats == t.rides[i].availableSeats
               && t2.rides[i].availableLuggageCapacity == t.rides[i].availableLuggageCapacity
               && t2.rides[i].status ==
                    (if t.rides[i].status == Full || t.rides[i].availableSeats == t.requests[requestId].seatsRequired
                     then Searching else t.rides[i].status)
               && (t.rides[i].status == Searching ==> t2.rides[i] == t.rides[i])
               && t2.bookings == t.bookings
               && t2.requests[requestId].status == RequestCancelled
  {
    var t1 := Reserve(t, i, requestId, price);
    RideIdsAfterSave(t.rides, i, t1.rides[i]);
    FindRideUnique(t1.rides, i);
    assert t.nextBookingId !in t.bookings;
    assert t1.bookings - {t.nextBookingId} == t.bookings;
  }

  /** A booked request is a reservation on the row of the booked ride. */
  lemma SubmitBookedIsReserve(t: Tables, p: RequestPayload, candidates: seq<Ride>, distance: Metric, i: nat)
    requires ValidTables(t)
    requires i < |t.rides|
    requires Submit(t, p, true, candidates, distance).1.Booked?
    requires Submit(t, p, true, candidates, distance).1.rideId == t.rides[i].id
    ensures var (t1, booked) := Submit(t, p, true, candidates, distance);
            && t.nextRequestId in SaveRequest(t, p).requests
            && t1 == Reserve(SaveRequest(t, p), i, t.nextRequestId, booked.price)
            && booked.bookingId == t.nextBookingId
  {
    var k := Nearest(candidates, p.pickup, p.Tolerance(), distance).value;
    var found := FindRide(t.rides, candidates[k].id);
    FindRideUnique(t.rides, found.value);
    FindRideUnique(t.rides, i);
  }

  /** Booking and then cancelling that booking restores the ride's seats
      and luggage exactly and removes the booking again; the request ends
      CANCELLED. The whole row comes back when the ride was SEARCHING. */
  lemma BookThenCancel(t: Tables, p: RequestPayload, candidates: seq<Ride>, distance: Metric, i: nat)
    requires ValidTables(t)
    requires i < |t.rides|
    requires Submit(t, p, true, candidates, distance).1.Booked?
    requires Submit(t, p, true, candidates, distance).1.rideId == t.rides[i].id
    ensures var (t1, booked) := Submit(t, p, true, candidates, distance);
            var (t2, cancelled) := Cancel(t1, booked.bookingId);
            && cancelled == BookingCancelled
            && t2.rides[i].availableSeats == t.rides[i].availableSeats
            && t2.rides[i].availableLuggageCapacity == t.rides[i].availableLuggageCapacity
            && t2.rides[i].status ==
                 (if t.rides[i].status == Full || t.rides[i].availableSeats == p.seatsRequired
                  then Searching else t.rides[i].status)
            && (t.rides[i].status == Searching ==> t2.rides[i] == t.rides[i])
            && t2.bookings == t.bookings
            && t2.requests[t.nextRequestId].status == RequestCancelled
  {
    var (t1, booked) := Submit(t, p, true, candidates, distance);
    SubmitBookedIsReserve(t, p, candidates, distance, i);
    SaveRequestKeepsValid(t, p);
    ReserveThenRelease(SaveRequest(t, p), i, t.nextRequestId, booked.price);
  }

  /** A STARTED ride that a late booking fills becomes FULL, and cancelling
      that booking makes it SEARCHING: the started ride is open for matching
      again. */
  lemma StartedRideReopened(distance: Metric)
    requires distance(Coord(0.0, 0.0), Coord(0.0, 0.0)) == 0.0
    ensures var ride := Ride(1, Coord(0.0, 0.0), Coord(1.0, 1.0), 4, 1, 2, 2, Started);
            var t := Tables([ride], map[], map[], 2, 1, 1);
            var p := RequestPayload(Coord(0.0, 0.0), Coord(1.0, 1.0), 1, 0, None);
            var (t1, booked) := Submit(t, p, true, [ride.(status := Searching)], distance);
            var (t2, cancelled) := Cancel(t1, 1);
            && booked.Booked? && booked.bookingId == 1
            && t1.rides[0].status == Full && t1.rides[0].availableSeats == 0
            && cancelled == BookingCancelled
            && t2.rides[0].status == Searching && t2.rides[0].availableSeats == 1
  {
    var ride := Ride(1, Coord(0.0, 0.0), Coord(1.0, 1.0), 4, 1, 2, 2, Started);
    var p := RequestPayload(Coord(0.0, 0.0), Coord(1.0, 1.0), 1, 0, None);
    assert Nearest([ride.(status := Searching)], p.pickup, p.Tolerance(), distance) == Some(0);
  }

  /** An example of a first booking: a four-seat ride starting at
      the pickup point, a one-seat request that leaves its tolerance to the
      5 km default, and a
      distance function that puts the ride at the pickup. The ride is
      chosen with detour 0, three seats stay free, the ride keeps searching,
      and with no seat taken yet the multiplier is 1.0, so the price is the
      base fare for the leg. */
  lemma FirstBookingExample(distance: Metric)
    requires distance(Coord(0.0, 0.0), Coord(0.0, 0.0)) == 0.0
    ensures var ride := Ride(1, Coord(0.0, 0.0), Coord(1.0, 1.0), 4, 4, 2, 2, Searching);
            var t := Tables([ride], map[], map[], 2, 1, 1);
            var p := RequestPayload(Coord(0.0, 0.0), Coord(1.0, 1.0), 1, 0, None);
            var (t', outcome) := Submit(t, p, true, [ride], distance);
            && outcome == Booked(1, 1, Pricing.BasePrice(distance(p.pickup, p.drop)), 0.0)
            && t'.rides[0].availableSeats == 3
            && t'.rides[0].status == Searching
  {
    var ride := Ride(1, Coord(0.0, 0.0), Coord(1.0, 1.0), 4, 4, 2, 2, Searching);
    var p := RequestPayload(Coord(0.0, 0.0), Coord(1.0, 1.0), 1, 0, None);
    assert Nearest([ride], p.pickup, p.Tolerance(), distance) == Some(0);
    assert Pricing.OccupancyRatio(4, 4) == 0.0;
  }

  // ---------------------------------------------------------------------
  // The views as steps on the database.

  /** Step 1 on the database. */
  method SaveRequestRow(db: Database, p: RequestPayload) returns (requestId: nat, request: RideRequest)
    modifies db
    ensures requestId == old(db.nextRequestId) && request == NewRequest(p)
    ensures db.State() == SaveRequest(old(db.State()), p)
  {
    requestId := db.nextRequestId;
    request := NewRequest(p);
    db.requests := db.requests[requestId := request];
    db.nextRequestId := requestId + 1;
  }

  /** Steps 6 to 8 on the locked ride row `i`. */
  method ReserveRow(db: Database, i: nat, requestId: nat, price: real) returns (bookingId: nat)
    requires i < |db.rides| && requestId in db.requests
    modifies db
    ensures bookingId == old(db.nextBookingId)
    ensures db.State() == Reserve(old(db.State()), i, requestId, price)
  {
    var ride := db.rides[i];
    var request := db.requests[requestId];

    // Step 6: take the seats and luggage; no seat left makes the ride full.
    ride := ride.(availableSeats := ride.availableSeats - request.seatsRequired,
                  availableLuggageCapacity := ride.availableLuggageCapacity - request.luggageRequired);
    if ride.availableSeats == 0 {
      ride := ride.(status := Full);
    }
    db.rides := db.rides[i := ride];

    // Step 7: create the booking.
    bookingId := db.nextBookingId;
    db.bookings := db.bookings[bookingId := Booking(ride.id, requestId, price)];
    db.nextBookingId := bookingId + 1;

    // Step 8: mark the request matched.
    db.requests := db.requests[requestId := request.(status := Matched)];
  }

  /** `CreateRideRequestView.post`. */
  method CreateRideRequest(db: Database, p: RequestPayload, valid: bool, candidates: seq<Ride>, distance: Metric)
    returns (outcome: RequestOutcome)
    requires db.Valid()
    modifies db
    ensures db.Valid()
    ensures (db.State(), outcome) == Submit(old(db.State()), p, valid, candidates, distance)
  {
    ghost var before := db.State();
    SubmitKeepsValid(before, p, valid, candidates, distance);
    if !valid {
      return Invalid;
    }
    // The transaction's savepoint, restored when an exception aborts it.
    var savedRequests, savedNextRequestId := db.requests, db.nextRequestId;

    // Step 1: save the request.
    var requestId, request := SaveRequestRow(db, p);

    // Steps 2 and 3: pick the nearest candidate within tolerance.
    var best, minDetour := SelectBest(candidates, request.pickup, request.detourToleranceKm, distance);
    if best.None? {
      return NoMatch(requestId);
    }

    // Step 4: lock and re-read the chosen ride, re-check its counters.
    var found := FindRide(db.rides, candidates[best.value].id);
    if found.None? {
      db.requests, db.nextRequestId := savedRequests, savedNextRequestId;
      return Aborted;
    }
    var i := found.value;
    var ride := db.rides[i];
    if ride.availableSeats < request.seatsRequired || ride.availableLuggageCapacity < request.luggageRequired {
      return Conflict(requestId);
    }

    // Step 5: price from the counters before the decrement.
    if ride.totalSeats == 0 {
      db.requests, db.nextRequestId := savedRequests, savedNextRequestId;
      return Aborted;
    }
    var price := Pricing.CalculatePrice(ride, request, distance);

    // Steps 6 to 8.
    var bookingId := ReserveRow(db, i, requestId, price);
    outcome := Booked(bookingId, ride.id, price, minDetour);
  }

  /** Restores row `i` and deletes the booking: the release of
      `CancelBookingView.post`. */
  method ReleaseRow(db: Database, bookingId: nat, i: nat)
    requires bookingId in db.bookings && i < |db.rides| && db.bookings[bookingId].request in db.requests
    modifies db
    ensures db.State() == Release(old(db.State()), bookingId, i)
  {
    var booking := db.bookings[bookingId];
    var ride := db.rides[i];
    var request := db.requests[booking.request];

    // Restore seats and luggage; a full ride is searching again.
    ride := ride.(availableSeats := ride.availableSeats + request.seatsRequired,
                  availableLuggageCapacity := ride.availableLuggageCapacity + request.luggageRequired);
    if ride.status == Full {
      ride := ride.(status := Searching);
    }
    db.rides := db.rides[i := ride];

    // Mark the request cancelled and delete the booking.
    db.requests := db.requests[booking.request := request.(status := RequestCancelled)];
    db.bookings := db.bookings - {bookingId};
  }

  /** `CancelBookingView.post`. */
  method CancelBooking(db: Database, bookingId: nat) returns (outcome: CancelOutcome)
    requires db.Valid()
    modifies db
    ensures db.Valid()
    ensures (db.State(), outcome) == Cancel(old(db.State()), bookingId)
  {
    ghost var before := db.State();
    CancelKeepsValid(before, bookingId);
    if bookingId !in db.bookings {
      return BookingNotFound;
    }
    CancelResolves(before, bookingId);
    var i := FindRide(db.rides, db.bookings[bookingId].ride).value;
    ReleaseRow(db, bookingId, i);
    outcome := BookingCancelled;
  }
}
