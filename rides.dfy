/** The ride views of rides/views.py: the open-ride listing, the detail
    lookup and ride creation. */
module RideViews {
  import opened Models
  import opened Store

  /** A ride a passenger can still join: searching, with a free seat. */
  predicate IsOpen(r: Ride) {
    r.status == Searching && r.availableSeats > 0
  }

  /** What every answer of the unordered listing query has in common: each
      open ride of the table as often as the table holds it, and nothing
      else. */
  ghost predicate IsActiveListing(rows: seq<Ride>, listing: seq<Ride>) {
    forall r :: multiset(listing)[r] == if IsOpen(r) then multiset(rows)[r] else 0
  }

  /** The active listing, with the open rides in storage order: one of the
      orders the query may return them in. */
  function ActiveRides(rows: seq<Ride>): (open: seq<Ride>)
    ensures IsActiveListing(rows, open)
    ensures |open| <= |rows|
    ensures forall r :: r in open ==> r in rows && IsOpen(r)
    ensures forall r :: r in rows && IsOpen(r) ==> r in open
  {
    if rows == [] then []
    else
      assert rows == [rows[0]] + rows[1..];
      if IsOpen(rows[0]) then [rows[0]] + ActiveRides(rows[1..])
      else ActiveRides(rows[1..])
  }

  /** Any two answers of the listing query hold the same rides: they differ
      at most in order. */
  lemma ActiveListingsArePermutations(rows: seq<Ride>, a: seq<Ride>, b: seq<Ride>)
    requires IsActiveListing(rows, a) && IsActiveListing(rows, b)
    ensures multiset(a) == multiset(b)
    ensures |a| == |b| == |ActiveRides(rows)|
  {
    assert multiset(a) == multiset(ActiveRides(rows)) == multiset(b);
  }

  /** The detail view: the ride with the given id, or None for the 404. */
  function RideDetail(rows: seq<Ride>, id: nat): (found: Option<Ride>)
    ensures found.Some? ==> found.value in rows && found.value.id == id
    ensures found.None? <==> id !in RideIds(rows)
  {
    match FindRide(rows, id)
    case None => None
    case Some(i) => Some(rows[i])
  }

  /** In a table with a primary key the detail view returns exactly the row
      stored under that id. */
  lemma RideDetailOfStoredRide(rows: seq<Ride>, i: nat)
    requires DistinctIds(rows)
    requires i < |rows|
    ensures RideDetail(rows, rows[i].id) == Some(rows[i])
  {
    FindRideUnique(rows, i);
  }

  /** The validated fields of a new ride. The available counters are not
      part of it: they are read-only in the serializer. The status is
      writable; when the payload leaves it out it takes the model default. */
  datatype RidePayload = RidePayload(
    origin: Coord,
    destination: Coord,
    totalSeats: int,
    totalLuggageCapacity: int,
    status: Option<RideStatus>)

  /** The record `CreateRideView.post` saves under id `id`. */
  function NewRide(p: RidePayload, id: nat): (r: Ride)
    ensures r.id == id
    ensures r.availableSeats == r.totalSeats == p.totalSeats
    ensures r.availableLuggageCapacity == r.totalLuggageCapacity == p.totalLuggageCapacity
    ensures p.status.None? ==> r.status == Searching
  {
    Ride(id, p.origin, p.destination, p.totalSeats, p.totalSeats,
         p.totalLuggageCapacity, p.totalLuggageCapacity, p.status.GetOr(Searching))
  }

  /** The store after `CreateRideView.post`; `valid` is the serializer's
      verdict on the payload. */
  function InsertRide(t: Tables, p: RidePayload, valid: bool): (Tables, Option<Ride>) {
    if !valid then (t, None)
    else
      var r := NewRide(p, t.nextRideId);
      (t.(rides := t.rides + [r], nextRideId := t.nextRideId + 1), Some(r))
  }

  /** Creating a ride appends one record with a fresh id and leaves every
      existing row, request and booking alone; an invalid payload changes
      nothing. */
  lemma InsertRideEffect(t: Tables, p: RidePayload, valid: bool)
    requires ValidTables(t)
    ensures var (t', created) := InsertRide(t, p, valid);
            && (!valid ==> t' == t && created.None?)
            && (valid ==>
                  && created.Some?
                  && |t'.rides| == |t.rides| + 1
                  && t'.rides[..|t.rides|] == t.rides
                  && t'.rides[|t.rides|] == created.value
                  && created.value.id !in RideIds(t.rides)
                  && created.value.availableSeats == p.totalSeats
                  && created.value.availableLuggageCapacity == p.totalLuggageCapacity
                  && t'.requests == t.requests && t'.bookings == t.bookings)
  {
    if valid {
      var r := NewRide(p, t.nextRideId);
      assert (t.rides + [r])[..|t.rides|] == t.rides;
    }
  }

  /** Creating a ride keeps the store's invariant; in particular the new
      ride's ledger balances because nothing is booked on it yet. */
  lemma InsertRideKeepsValid(t: Tables, p: RidePayload, valid: bool)
    requires ValidTables(t)
    ensures ValidTables(InsertRide(t, p, valid).0)
  {
    if valid {
      var r := NewRide(p, t.nextRideId);
      var t' := InsertRide(t, p, valid).0;
      RideIdsAfterAppend(t.rides, r);
      forall k | k in t.bookings ensures t.bookings[k].ride != r.id {
        assert t.bookings[k].ride in RideIds(t.rides);
      }
      HeldUnbooked(t.bookings, t.requests, r.id, Seats);
      HeldUnbooked(t.bookings, t.requests, r.id, Luggage);
      forall i | 0 <= i < |t'.rides| ensures Balanced(t', t'.rides[i]) {
        if i < |t.rides| { assert t'.rides[i] == t.rides[i]; }
      }
    }
  }

  /** A new ride with non-negative totals starts with non-negative
      counters, and the other rows are untouched. */
  lemma InsertRideKeepsNonNegative(t: Tables, p: RidePayload, valid: bool)
    requires NonNegCounters(t)
    requires p.totalSeats >= 0 && p.totalLuggageCapacity >= 0
    ensures NonNegCounters(InsertRide(t, p, valid).0)
  {
  }

  /** `CreateRideView.post`: saves the ride with both available counters
      set from the totals. */
  method CreateRide(db: Database, p: RidePayload, valid: bool) returns (created: Option<Ride>)
    requires db.Valid()
    modifies db
    ensures db.Valid()
    ensures (db.State(), created) == InsertRide(old(db.State()), p, valid)
  {
    ghost var before := db.State();
    if !valid {
      return None;
    }
    var ride := NewRide(p, db.nextRideId);
    db.rides := db.rides + [ride];
    db.nextRideId := db.nextRideId + 1;
    created := Some(ride);
    InsertRideKeepsValid(before, p, valid);
  }
}
