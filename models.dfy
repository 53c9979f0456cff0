/** The records of the ride-pooling store: rides (rides/models.py) and ride
    requests and bookings (bookings/models.py). Timestamps, user and driver
    ids and the display strings are not modelled. */
module Models {

  datatype Option<+T> = None | Some(value: T) {
    function GetOr(default: T): T {
      match this
      case Some(v) => v
      case None => default
    }
  }

  /** A point on the map, in degrees. */
  datatype Coord = Coord(lat: real, lng: real)

  /** The great-circle distance in kilometres between two points. The
      haversine formula itself is floating-point trigonometry and is not
      modelled: every operation that needs a distance takes the distance
      function as a parameter and assumes nothing about it. */
  type Metric = (Coord, Coord) -> real

  datatype RideStatus = Searching | Full | Started | RideCancelled

  datatype RequestStatus = Pending | Matched | RequestCancelled

  /** A pooled ride with spare seats and luggage room. */
  datatype Ride = Ride(
    id: nat,
    origin: Coord,
    destination: Coord,
    totalSeats: int,
    availableSeats: int,
    totalLuggageCapacity: int,
    availableLuggageCapacity: int,
    status: RideStatus)

  /** A passenger's request for a seat. */
  datatype RideRequest = RideRequest(
    pickup: Coord,
    drop: Coord,
    seatsRequired: int,
    luggageRequired: int,
    detourToleranceKm: real,
    status: RequestStatus)

  /** Binds one request to one ride at a price. `ride` and `request` are the
      ids of the rows it refers to. */
  datatype Booking = Booking(ride: nat, request: nat, price: real)

  /** The two kinds of capacity a ride offers and a request consumes. */
  datatype Resource = Seats | Luggage

  function Available(r: Ride, kind: Resource): int {
    match kind
    case Seats => r.availableSeats
    case Luggage => r.availableLuggageCapacity
  }

  function Capacity(r: Ride, kind: Resource): int {
    match kind
    case Seats => r.totalSeats
    case Luggage => r.totalLuggageCapacity
  }

  function Demand(q: RideRequest, kind: Resource): int {
    match kind
    case Seats => q.seatsRequired
    case Luggage => q.luggageRequired
  }

  /** No two rows of a ride table share an id (the primary key). */
  ghost predicate DistinctIds(rows: seq<Ride>) {
    forall i, j :: 0 <= i < j < |rows| ==> rows[i].id != rows[j].id
  }

  function Min(a: int, b: int): int {
    if a <= b then a else b
  }
}
