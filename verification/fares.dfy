/**
 * Pricing shared by both planners: a journey costs its travel time in minutes
 * times the current rate per minute.
 */
module Fares {
  import opened Graph

  /** The price of a journey of the given minutes at the given rate per minute. */
  function Fare(minutes: int, rate: real): (price: real)
    ensures rate > 0.0 && minutes > 0 ==> price > 0.0
    ensures minutes == 0 ==> price == 0.0
    ensures rate > 0.0 && minutes < 0 ==> price < 0.0
  {
    minutes as real * rate
  }

  /** At a positive rate a longer journey never costs less. */
  lemma FareMonotone(m1: int, m2: int, rate: real)
    requires rate > 0.0 && m1 <= m2
    ensures Fare(m1, rate) <= Fare(m2, rate)
  {
    assert Fare(m2, rate) - Fare(m1, rate) == Fare(m2 - m1, rate);
  }

  /** At a positive rate the fastest route is also the cheapest: no walk between the same stations costs less. */
  lemma FastestIsCheapest(adj: Adjacency, s: int, t: int, r: Route, rate: real, p: seq<int>, ws: seq<int>)
    requires rate > 0.0 && Fastest(adj, s, t, r) && WalkBetween(adj, s, t, p, ws)
    ensures Fare(r.totalTime, rate) <= Fare(Sum(ws), rate)
  {
    FareMonotone(r.totalTime, Sum(ws), rate);
  }
}
