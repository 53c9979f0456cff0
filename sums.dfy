/** Sums over finite maps, used to add up the capacity that bookings hold. */
module Sums {

  /** The sum of all values of `m`. */
  ghost function Total(m: map<nat, int>): int
    decreases |m|
  {
    if m == map[] then 0
    else
      var k :| k in m;
      m[k] + Total(m - {k})
  }

  /** Any key can be taken out first: the sum does not depend on the order
      in which keys are chosen. */
  lemma {:induction false} TotalRemove(m: map<nat, int>, x: nat)
    requires x in m
    ensures Total(m) == m[x] + Total(m - {x})
    decreases |m|
  {
    var k :| k in m && Total(m) == m[k] + Total(m - {k});
    if k != x {
      TotalRemove(m - {k}, x);
      TotalRemove(m - {x}, k);
      assert (m - {k}) - {x} == (m - {x}) - {k};
    }
  }

  /** Adding a fresh key adds its value to the sum. */
  lemma TotalInsert(m: map<nat, int>, x: nat, v: int)
    requires x !in m
    ensures Total(m[x := v]) == Total(m) + v
  {
    TotalRemove(m[x := v], x);
    assert m[x := v] - {x} == m;
  }

  /** A map whose values are all zero sums to zero. */
  lemma {:induction false} TotalZero(m: map<nat, int>)
    requires forall k :: k in m ==> m[k] == 0
    ensures Total(m) == 0
    decreases |m|
  {
    if m != map[] {
      var k :| k in m;
      TotalRemove(m, k);
      TotalZero(m - {k});
    }
  }

  /** A map whose values are all non-negative has a non-negative sum. */
  lemma {:induction false} TotalNonNegative(m: map<nat, int>)
    requires forall k :: k in m ==> m[k] >= 0
    ensures Total(m) >= 0
    decreases |m|
  {
    if m != map[] {
      var k :| k in m;
      TotalRemove(m, k);
      TotalNonNegative(m - {k});
    }
  }
}
