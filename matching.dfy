/** The matching phase of `CreateRideRequestView.post` in bookings/views.py:
    the unlocked candidate query and the detour-based choice among the
    candidates. Both run on a snapshot of the ride table that may be stale
    by the time the chosen ride is locked. */
module Matching {
  import opened Models

  /** The query caps its result at this many rides. */
  const CandidateLimit: nat := 50

  /** The filter of the candidate query. */
  predicate Eligible(r: Ride, seats: int, luggage: int) {
    && r.status == Searching
    && r.availableSeats >= seats
    && r.availableLuggageCapacity >= luggage
  }

  /** The rows of `rows` that pass the filter, in storage order. */
  function EligibleRows(rows: seq<Ride>, seats: int, luggage: int): (e: seq<Ride>)
    ensures forall r :: multiset(e)[r] == if Eligible(r, seats, luggage) then multiset(rows)[r] else 0
    ensures |e| <= |rows|
    ensures forall r :: r in e ==> r in rows && Eligible(r, seats, luggage)
    ensures forall r :: r in rows && Eligible(r, seats, luggage) ==> r in e
  {
    if rows == [] then []
    else
      assert rows == [rows[0]] + rows[1..];
      if Eligible(rows[0], seats, luggage) then [rows[0]] + EligibleRows(rows[1..], seats, luggage)
      else EligibleRows(rows[1..], seats, luggage)
  }

  lemma DistinctIdsTail(rows: seq<Ride>)
    requires rows != [] && DistinctIds(rows)
    ensures DistinctIds(rows[1..])
  {
    forall i, j | 0 <= i < j < |rows[1..]| ensures rows[1..][i].id != rows[1..][j].id {
      assert rows[1..][i] == rows[i + 1] && rows[1..][j] == rows[j + 1];
    }
  }

  lemma DistinctIdsCons(x: Ride, rest: seq<Ride>)
    requires DistinctIds(rest)
    requires forall j :: 0 <= j < |rest| ==> rest[j].id != x.id
    ensures DistinctIds([x] + rest)
  {
    var e := [x] + rest;
    forall i, j | 0 <= i < j < |e| ensures e[i].id != e[j].id {
      if i == 0 { assert e[j] == rest[j - 1]; } else { assert e[i] == rest[i - 1] && e[j] == rest[j - 1]; }
    }
  }

  /** Filtering a table with a primary key yields distinct rides. */
  lemma {:induction false} EligibleRowsDistinct(rows: seq<Ride>, seats: int, luggage: int)
    requires DistinctIds(rows)
    ensures DistinctIds(EligibleRows(rows, seats, luggage))
  {
    if rows != [] {
      var rest := EligibleRows(rows[1..], seats, luggage);
      DistinctIdsTail(rows);
      EligibleRowsDistinct(rows[1..], seats, luggage);
      if Eligible(rows[0], seats, luggage) {
        forall j | 0 <= j < |rest| ensures rest[j].id != rows[0].id {
          assert rest[j] in rows[1..];
          var m :| 0 <= m < |rows[1..]| && rows[1..][m] == rest[j];
          assert rows[m + 1] == rest[j];
        }
        DistinctIdsCons(rows[0], rest);
      }
    }
  }

  /** What the candidate query may return from `snapshot`: eligible rides
      of the snapshot, no ride twice, as many as there are eligible rides up
      to the cap, in an order the database chooses. */
  ghost predicate IsCandidateList(snapshot: seq<Ride>, seats: int, luggage: int, candidates: seq<Ride>) {
    && |candidates| <= CandidateLimit
    && |candidates| == Min(CandidateLimit, |EligibleRows(snapshot, seats, luggage)|)
    && DistinctIds(candidates)
    && forall i :: 0 <= i < |candidates| ==>
         candidates[i] in snapshot && Eligible(candidates[i], seats, luggage)
  }

  /** The answer of a database that returns rows in storage order. */
  function FirstCandidates(snapshot: seq<Ride>, seats: int, luggage: int): seq<Ride> {
    var e := EligibleRows(snapshot, seats, luggage);
    e[..Min(CandidateLimit, |e|)]
  }

  /** The storage-order answer is one the query may give; so for every
      snapshot some candidate list exists. */
  lemma FirstCandidatesQualify(snapshot: seq<Ride>, seats: int, luggage: int)
    requires DistinctIds(snapshot)
    ensures IsCandidateList(snapshot, seats, luggage, FirstCandidates(snapshot, seats, luggage))
  {
    var e := EligibleRows(snapshot, seats, luggage);
    var c := FirstCandidates(snapshot, seats, luggage);
    EligibleRowsDistinct(snapshot, seats, luggage);
    forall i | 0 <= i < |c| ensures c[i] in snapshot && Eligible(c[i], seats, luggage) {
      assert c[i] == e[i];
      assert e[i] in e;
    }
  }

  /** How far the ride's origin is from the passenger's pickup point. */
  function Detour(r: Ride, pickup: Coord, distance: Metric): real {
    distance(r.origin, pickup)
  }

  /** `best` is the selection's answer among the first `n` candidates:
      None when none is within tolerance; otherwise a candidate within
      tolerance whose detour no candidate within tolerance beats, and which
      every earlier candidate within tolerance has a strictly larger detour
      than (the first at the minimum wins). */
  ghost predicate NearestAmong(candidates: seq<Ride>, n: nat, pickup: Coord, tolerance: real, distance: Metric, best: Option<nat>)
    requires n <= |candidates|
  {
    match best
    case None =>
      forall j :: 0 <= j < n ==> Detour(candidates[j], pickup, distance) > tolerance
    case Some(k) =>
      && k < n
      && Detour(candidates[k], pickup, distance) <= tolerance
      && (forall j :: 0 <= j < n && Detour(candidates[j], pickup, distance) <= tolerance ==>
            Detour(candidates[k], pickup, distance) <= Detour(candidates[j], pickup, distance))
      && (forall j :: 0 <= j < k && Detour(candidates[j], pickup, distance) <= tolerance ==>
            Detour(candidates[k], pickup, distance) < Detour(candidates[j], pickup, distance))
  }

  ghost predicate IsFirstNearest(candidates: seq<Ride>, pickup: Coord, tolerance: real, distance: Metric, best: Option<nat>) {
    NearestAmong(candidates, |candidates|, pickup, tolerance, distance, best)
  }

  /** At most one answer meets the description, so the selection is a
      function of the candidate order. */
  lemma FirstNearestUnique(candidates: seq<Ride>, pickup: Coord, tolerance: real, distance: Metric, a: Option<nat>, b: Option<nat>)
    requires IsFirstNearest(candidates, pickup, tolerance, distance, a)
    requires IsFirstNearest(candidates, pickup, tolerance, distance, b)
    ensures a == b
  {
  }

  /** A reference definition of the selection, read from the front: the
      head wins unless some later candidate within tolerance is strictly
      nearer. */
  function Nearest(candidates: seq<Ride>, pickup: Coord, tolerance: real, distance: Metric): (best: Option<nat>)
    ensures IsFirstNearest(candidates, pickup, tolerance, distance, best)
  {
    if candidates == [] then None
    else
      var head := Detour(candidates[0], pickup, distance);
      var rest := Nearest(candidates[1..], pickup, tolerance, distance);
      var restBest := if rest.Some? then Some(rest.value + 1) else None;
      assert forall j :: 0 < j < |candidates| ==> candidates[j] == candidates[1..][j - 1];
      if head <= tolerance && (rest.None? || head <= Detour(candidates[rest.value + 1], pickup, distance))
      then Some(0)
      else restBest
  }

  /** The selection loop of the view: one scan in candidate order with a
      running best; a candidate replaces the best only when it is within
      tolerance and strictly nearer. The source starts the running minimum
      at infinity; here "no best yet" stands for it. */
  method SelectBest(candidates: seq<Ride>, pickup: Coord, tolerance: real, distance: Metric)
    returns (best: Option<nat>, minDetour: real)
    ensures IsFirstNearest(candidates, pickup, tolerance, distance, best)
    ensures best.Some? ==> minDetour == Detour(candidates[best.value], pickup, distance)
    ensures best == Nearest(candidates, pickup, tolerance, distance)
  {
    best, minDetour := None, 0.0;
    for n := 0 to |candidates|
      invariant NearestAmong(candidates, n, pickup, tolerance, distance, best)
      invariant best.Some? ==> minDetour == Detour(candidates[best.value], pickup, distance)
    {
      var detour := Detour(candidates[n], pickup, distance);
      if detour <= tolerance && (best.None? || detour < minDetour) {
        best, minDetour := Some(n), detour;
      }
    }
    FirstNearestUnique(candidates, pickup, tolerance, distance, best, Nearest(candidates, pickup, tolerance, distance));
  }
}
