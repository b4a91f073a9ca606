/**
 One tidal half-cycle worked through all four functions: a low of 0.2 m at
 t = 0 and a high of 3.1 m six hours later, at t = 21600.
 */
module Scenarios {
  import opened TideInfo
  import opened StableSort
  import opened NextTides
  import opened ClosestTides
  import opened TidePosition

  function LowAtZero(): Tide
  {
    Tide(0.2, "2024-01-01T00:00:00", "2024-01-01T00:00:00Z", 0, Low)
  }

  function HighAtSixHours(): Tide
  {
    Tide(3.1, "2024-01-01T06:00:00", "2024-01-01T06:00:00Z", 21600, High)
  }

  /** At the low itself: the low is not strictly in the future, so only the
      high is next; the pair is (low, high) and the position is 0. */
  lemma AtTheLow()
    ensures NextTide([LowAtZero(), HighAtSixHours()], Low, 0) == None
    ensures NextTide([LowAtZero(), HighAtSixHours()], High, 0) == Some(HighAtSixHours())
    ensures GetClosestTides([LowAtZero(), HighAtSixHours()], 0) == (LowAtZero(), HighAtSixHours())
    ensures CalculateTidePosition(LowAtZero(), HighAtSixHours(), 0) == 0.0
  {
    var tides := [LowAtZero(), HighAtSixHours()];
    assert tides[1..] == [HighAtSixHours()];
    assert SortBy([HighAtSixHours()], Timestamp) == [HighAtSixHours()];
    assert SortBy(tides, Timestamp) == tides;
    assert SortBy([HighAtSixHours()], DistanceFrom(0)) == [HighAtSixHours()];
    assert SortBy(tides, DistanceFrom(0)) == tides;
    TidePositionEndpoints(LowAtZero(), HighAtSixHours());
  }

  /** Half way between the low and the high the linear position is 50, but
      the dial formula reads 75. */
  lemma AtTheMidpoint()
    ensures CalculateTidePosition(LowAtZero(), HighAtSixHours(), 10800) == 50.0
    ensures CalculateTideRadialPosition(LowAtZero(), HighAtSixHours(), 10800) == 75.0
  {
    RadialRisingLandmarks(LowAtZero(), HighAtSixHours());
  }
}
