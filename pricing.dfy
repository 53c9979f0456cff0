/** The fare rule of services/pricing_service.py: a distance-based base fare
    scaled by a stepped surge multiplier chosen from how full the ride is.
    Prices are exact reals; the final rounding to two decimals is not
    modelled. */
module Pricing {
  import opened Models

  const BaseFare: real := 100.0
  const PerKmRate: real := 15.0

  /** The distance the passenger travels: pickup to drop of the request.
      The ride's own origin and destination play no part. */
  function LegDistance(request: RideRequest, distance: Metric): real {
    distance(request.pickup, request.drop)
  }

  function BasePrice(legKm: real): (p: real)
    ensures legKm >= 0.0 ==> p >= BaseFare
    ensures p - BaseFare == legKm * PerKmRate
  {
    BaseFare + legKm * PerKmRate
  }

  /** The share of the ride's seats already taken. */
  function OccupancyRatio(totalSeats: int, availableSeats: int): (ratio: real)
    requires totalSeats != 0
    ensures 0 <= availableSeats <= totalSeats ==> 0.0 <= ratio <= 1.0
    ensures ratio * totalSeats as real == (totalSeats - availableSeats) as real
  {
    (totalSeats - availableSeats) as real / totalSeats as real
  }

  /** The thresholds are tested from the top down, each as a strict lower
      bound. */
  function SurgeMultiplier(ratio: real): (m: real)
    ensures m == 1.0 || m == 1.1 || m == 1.2
  {
    if ratio > 0.7 then 1.2
    else if ratio > 0.4 then 1.1
    else 1.0
  }

  /** The unrounded price of booking `request` on `ride`, where `ride` holds
      the counters as they are before this booking takes its seats. */
  function CalculatePrice(ride: Ride, request: RideRequest, distance: Metric): (price: real)
    requires ride.totalSeats != 0
    ensures LegDistance(request, distance) >= 0.0 ==>
              BaseFare <= BasePrice(LegDistance(request, distance)) <= price <= 1.2 * BasePrice(LegDistance(request, distance))
  {
    var basePrice := BasePrice(LegDistance(request, distance));
    var ratio := OccupancyRatio(ride.totalSeats, ride.availableSeats);
    basePrice * SurgeMultiplier(ratio)
  }

  /** Each multiplier is chosen on exactly one band of ratios. */
  lemma SurgeBands(ratio: real)
    ensures SurgeMultiplier(ratio) == 1.2 <==> ratio > 0.7
    ensures SurgeMultiplier(ratio) == 1.1 <==> 0.4 < ratio <= 0.7
    ensures SurgeMultiplier(ratio) == 1.0 <==> ratio <= 0.4
  {
  }

  /** The bands' edges belong to the lower band. */
  lemma SurgeBoundaries()
    ensures SurgeMultiplier(0.7) == 1.1
    ensures SurgeMultiplier(0.71) == 1.2
    ensures SurgeMultiplier(0.4) == 1.0
    ensures SurgeMultiplier(0.41) == 1.1
    ensures SurgeMultiplier(0.0) == 1.0
    ensures SurgeMultiplier(1.0) == 1.2
  {
  }

  /** A fuller ride never gets a smaller multiplier. */
  lemma SurgeMonotone(r1: real, r2: real)
    requires r1 <= r2
    ensures SurgeMultiplier(r1) <= SurgeMultiplier(r2)
  {
  }

  /** Comparing a quotient with a constant is comparing the numerator with
      the scaled constant, for a positive denominator. */
  lemma QuotientAbove(x: real, t: real, c: real)
    requires t > 0.0
    ensures x / t > c <==> x > c * t
  {
    var q := x / t;
    assert q * t == x;
    if q > c {
      assert (q - c) * t > 0.0;
    }
    if x > c * t {
      assert (q - c) * t > 0.0;
    }
  }

  /** The surge bands in terms of seat counts alone, without division. */
  lemma SurgeByCounts(totalSeats: int, availableSeats: int)
    requires totalSeats > 0
    ensures var m := SurgeMultiplier(OccupancyRatio(totalSeats, availableSeats));
            && (m == 1.2 <==> 10 * (totalSeats - availableSeats) > 7 * totalSeats)
            && (m == 1.1 <==> 4 * totalSeats < 10 * (totalSeats - availableSeats) <= 7 * totalSeats)
            && (m == 1.0 <==> 10 * (totalSeats - availableSeats) <= 4 * totalSeats)
  {
    var t := totalSeats as real;
    var taken := (totalSeats - availableSeats) as real;
    QuotientAbove(taken, t, 0.7);
    QuotientAbove(taken, t, 0.4);
  }

  /** The price depends only on the request's leg and on the ride's seat
      counters: not on where the ride starts or ends, its luggage room or its
      status. */
  lemma PriceIgnoresRideRoute(r1: Ride, r2: Ride, request: RideRequest, distance: Metric)
    requires r1.totalSeats == r2.totalSeats != 0
    requires r1.availableSeats == r2.availableSeats
    ensures CalculatePrice(r1, request, distance) == CalculatePrice(r2, request, distance)
  {
  }

  /** The fuller of two otherwise equal rides is never the cheaper one:
      the price is monotone in the ride's occupancy. */
  lemma PriceMonotoneInOccupancy(r1: Ride, r2: Ride, request: RideRequest, distance: Metric)
    requires r1.totalSeats == r2.totalSeats > 0
    requires r2.availableSeats <= r1.availableSeats
    requires LegDistance(request, distance) >= 0.0
    ensures CalculatePrice(r1, request, distance) <= CalculatePrice(r2, request, distance)
  {
    var t := r1.totalSeats as real;
    var q1 := OccupancyRatio(r1.totalSeats, r1.availableSeats);
    var q2 := OccupancyRatio(r2.totalSeats, r2.availableSeats);
    assert q1 * t <= q2 * t;
    assert q1 <= q2;
    SurgeMonotone(q1, q2);
  }
}
