/** The three tables the views read and write: rides (scanned in storage
    order, so a sequence of rows with unique ids), ride requests and bookings
    (reached by id, so maps). Ids are handed out by auto-increment counters.
    The store's invariant is the capacity ledger: for every ride, the
    capacity still available plus the capacity its bookings hold equals the
    ride's total. */
module Store {
  import opened Models
  import Sums

  datatype Tables = Tables(
    rides: seq<Ride>,
    requests: map<nat, RideRequest>,
    bookings: map<nat, Booking>,
    nextRideId: nat,
    nextRequestId: nat,
    nextBookingId: nat)

  /** `Ride.objects.get(id=id)`: the row holding `id`, or None where the get
      raises DoesNotExist. */
  function FindRide(rows: seq<Ride>, id: nat): (found: Option<nat>)
    ensures found.Some? ==> found.value < |rows| && rows[found.value].id == id
    ensures found.Some? ==> forall j :: 0 <= j < found.value ==> rows[j].id != id
    ensures found.None? <==> forall j :: 0 <= j < |rows| ==> rows[j].id != id
  {
    if rows == [] then None
    else if rows[0].id == id then Some(0)
    else
      match FindRide(rows[1..], id)
      case None => None
      case Some(k) => Some(k + 1)
  }

  /** In a table with a primary key, the row found is the only row with
      that id. */
  lemma FindRideUnique(rows: seq<Ride>, i: nat)
    requires DistinctIds(rows)
    requires i < |rows|
    ensures FindRide(rows, rows[i].id) == Some(i)
  {
  }

  ghost function RideIds(rows: seq<Ride>): set<nat> {
    set r | r in rows :: r.id
  }

  /** Saving a row back under its own id leaves the table's ids as they
      were. */
  lemma RideIdsAfterSave(rows: seq<Ride>, i: nat, r: Ride)
    requires i < |rows| && r.id == rows[i].id
    ensures RideIds(rows[i := r]) == RideIds(rows)
    ensures DistinctIds(rows) ==> DistinctIds(rows[i := r])
  {
    forall id | id in RideIds(rows) ensures id in RideIds(rows[i := r]) {
      var s :| s in rows && s.id == id;
      var j :| 0 <= j < |rows| && rows[j] == s;
      if j == i { assert rows[i := r][i] == r; } else { assert rows[i := r][j] == s; }
    }
  }

  /** Appending a row adds its id to the table's ids, and keeps them
      unique when the id is new. */
  lemma RideIdsAfterAppend(rows: seq<Ride>, r: Ride)
    ensures RideIds(rows + [r]) == RideIds(rows) + {r.id}
    ensures DistinctIds(rows) && r.id !in RideIds(rows) ==> DistinctIds(rows + [r])
  {
    assert forall s :: s in rows + [r] <==> s in rows || s == r;
    if DistinctIds(rows) && r.id !in RideIds(rows) {
      forall i, j | 0 <= i < j < |rows + [r]| ensures (rows + [r])[i].id != (rows + [r])[j].id {
        if j == |rows| { assert rows[i] in rows; }
      }
    }
  }

  /** What one booking holds of ride `rideId`: the request's demand if the
      booking is on that ride, nothing otherwise. */
  ghost function HeldBy(b: Booking, requests: map<nat, RideRequest>, rideId: nat, kind: Resource): int {
    if b.ride == rideId && b.request in requests then Demand(requests[b.request], kind) else 0
  }

  ghost function HeldMap(bookings: map<nat, Booking>, requests: map<nat, RideRequest>, rideId: nat, kind: Resource): map<nat, int> {
    map k | k in bookings :: HeldBy(bookings[k], requests, rideId, kind)
  }

  /** The capacity of kind `kind` that all bookings on ride `rideId` hold. */
  ghost function Held(bookings: map<nat, Booking>, requests: map<nat, RideRequest>, rideId: nat, kind: Resource): int {
    Sums.Total(HeldMap(bookings, requests, rideId, kind))
  }

  /** The ledger of one ride: available plus held is the total, for seats
      and for luggage. */
  ghost predicate Balanced(t: Tables, r: Ride) {
    && Available(r, Seats) + Held(t.bookings, t.requests, r.id, Seats) == Capacity(r, Seats)
    && Available(r, Luggage) + Held(t.bookings, t.requests, r.id, Luggage) == Capacity(r, Luggage)
  }

  /** Every booking points at an existing ride and an existing request, and
      that request is MATCHED. */
  ghost predicate BookingsResolve(t: Tables) {
    forall k :: k in t.bookings ==>
      && t.bookings[k].ride in RideIds(t.rides)
      && t.bookings[k].request in t.requests
      && t.requests[t.bookings[k].request].status == Matched
  }

  /** A request has at most one booking. */
  ghost predicate OneBookingPerRequest(t: Tables) {
    forall k1, k2 :: k1 in t.bookings && k2 in t.bookings && k1 != k2 ==>
      t.bookings[k1].request != t.bookings[k2].request
  }

  /** The counters are ahead of every id in use. */
  ghost predicate IdsBelowCounters(t: Tables) {
    && (forall id :: id in RideIds(t.rides) ==> id < t.nextRideId)
    && (forall k :: k in t.requests ==> k < t.nextRequestId)
    && (forall k :: k in t.bookings ==> k < t.nextBookingId)
  }

  ghost predicate ValidTables(t: Tables) {
    && DistinctIds(t.rides)
    && IdsBelowCounters(t)
    && BookingsResolve(t)
    && OneBookingPerRequest(t)
    && forall i :: 0 <= i < |t.rides| ==> Balanced(t, t.rides[i])
  }

  /** A new booking adds its request's demand to what its ride holds, and
      nothing to any other ride. */
  lemma HeldAfterCreate(bookings: map<nat, Booking>, requests: map<nat, RideRequest>, key: nat, b: Booking, rideId: nat, kind: Resource)
    requires key !in bookings
    ensures Held(bookings[key := b], requests, rideId, kind)
         == Held(bookings, requests, rideId, kind) + HeldBy(b, requests, rideId, kind)
  {
    var before := HeldMap(bookings, requests, rideId, kind);
    assert HeldMap(bookings[key := b], requests, rideId, kind) == before[key := HeldBy(b, requests, rideId, kind)];
    Sums.TotalInsert(before, key, HeldBy(b, requests, rideId, kind));
  }

  /** Deleting a booking releases exactly what it held. */
  lemma HeldAfterDelete(bookings: map<nat, Booking>, requests: map<nat, RideRequest>, key: nat, rideId: nat, kind: Resource)
    requires key in bookings
    ensures Held(bookings - {key}, requests, rideId, kind)
         == Held(bookings, requests, rideId, kind) - HeldBy(bookings[key], requests, rideId, kind)
  {
    var before := HeldMap(bookings, requests, rideId, kind);
    assert HeldMap(bookings - {key}, requests, rideId, kind) == before - {key};
    Sums.TotalRemove(before, key);
  }

  /** What bookings hold depends only on the demand of the requests they
      point at. */
  lemma HeldFrame(bookings: map<nat, Booking>, req1: map<nat, RideRequest>, req2: map<nat, RideRequest>, rideId: nat, kind: Resource)
    requires forall k :: k in bookings ==> HeldBy(bookings[k], req1, rideId, kind) == HeldBy(bookings[k], req2, rideId, kind)
    ensures Held(bookings, req1, rideId, kind) == Held(bookings, req2, rideId, kind)
  {
    assert HeldMap(bookings, req1, rideId, kind) == HeldMap(bookings, req2, rideId, kind);
  }

  /** A ride no booking points at holds nothing. */
  lemma HeldUnbooked(bookings: map<nat, Booking>, requests: map<nat, RideRequest>, rideId: nat, kind: Resource)
    requires forall k :: k in bookings ==> bookings[k].ride != rideId
    ensures Held(bookings, requests, rideId, kind) == 0
  {
    Sums.TotalZero(HeldMap(bookings, requests, rideId, kind));
  }

  /** The seats and luggage of a ride stay within its totals as long as no
      booked request asks for a negative amount. */
  lemma LedgerBounds(t: Tables, i: nat, kind: Resource)
    requires ValidTables(t)
    requires i < |t.rides|
    requires forall k :: k in t.requests ==> Demand(t.requests[k], kind) >= 0
    ensures Available(t.rides[i], kind) <= Capacity(t.rides[i], kind)
  {
    Sums.TotalNonNegative(HeldMap(t.bookings, t.requests, t.rides[i].id, kind));
  }

  /** No ride has a negative seat or luggage counter: the lower half of
      `0 <= available <= total`. */
  ghost predicate NonNegCounters(t: Tables) {
    forall i :: 0 <= i < |t.rides| ==>
      t.rides[i].availableSeats >= 0 && t.rides[i].availableLuggageCapacity >= 0
  }

  /** No overbooking: while no counter is negative, the bookings on a ride
      hold no more seats or luggage than the ride has in total. */
  lemma HeldWithinCapacity(t: Tables, i: nat, kind: Resource)
    requires ValidTables(t) && NonNegCounters(t)
    requires i < |t.rides|
    ensures Held(t.bookings, t.requests, t.rides[i].id, kind) <= Capacity(t.rides[i], kind)
  {
    assert Balanced(t, t.rides[i]);
  }

  /** The database the views run against. Each view is one atomic step on
      it. */
  class Database {
    var rides: seq<Ride>
    var requests: map<nat, RideRequest>
    var bookings: map<nat, Booking>
    var nextRideId: nat
    var nextRequestId: nat
    var nextBookingId: nat

    ghost function State(): Tables
      reads this
    {
      Tables(rides, requests, bookings, nextRideId, nextRequestId, nextBookingId)
    }

    ghost predicate Valid()
      reads this
    {
      ValidTables(State())
    }

    /** An empty database; ids start at 1. */
    constructor ()
      ensures Valid()
      ensures State() == Tables([], map[], map[], 1, 1, 1)
    {
      rides, requests, bookings := [], map[], map[];
      nextRideId, nextRequestId, nextBookingId := 1, 1, 1;
    }
  }
}
