/**
 The two interpolations of the sensor between a pair of tide events: the
 linear percentage `calculate_tide_position` and the dial reading
 `calculate_tide_radial_position`. Timestamps are whole seconds, the results
 exact reals; the clock reading is a parameter.
 */
module TidePosition {
  import opened TideInfo

  /** |now - t1| / |t2 - t1| * 100. The source divides by |t2 - t1|, so the
      two events must not share a timestamp. The position is 0 exactly at the
      first event. */
  function CalculateTidePosition(tide1: Tide, tide2: Tide, now: int): (r: real)
    requires tide1.timestamp != tide2.timestamp
    ensures r == 0.0 <==> now == tide1.timestamp
  {
    var total := Abs(tide2.timestamp - tide1.timestamp);
    var elapsed := Abs(now - tide1.timestamp);
    (elapsed as real / total as real) * 100.0
  }

  /** The dial formula. With the second event after the first it reads
      50 - (t1 - now) / (t2 - t1) * 50, otherwise
      100 - (t2 - now) / (t1 - t2) * 50, which divides by zero when the two
      events share a timestamp. In both branches the dial passes 100 exactly
      at the second event. */
  function CalculateTideRadialPosition(tide1: Tide, tide2: Tide, now: int): (r: real)
    requires tide1.timestamp != tide2.timestamp
    ensures r == 100.0 <==> now == tide2.timestamp
    ensures r < 100.0 <==> now < tide2.timestamp
  {
    var high := tide2.timestamp;
    var low := tide1.timestamp;
    if high - low > 0 then
      RatioMinusOne((low - now) as real, (high - low) as real);
      50.0 - ((low - now) as real / (high - low) as real) * 50.0
    else
      ScaledSign((high - now) as real, (low - high) as real);
      100.0 - ((high - now) as real / (low - high) as real) * 50.0
  }

  /** Dividing by a positive span and scaling keeps the sign. */
  lemma ScaledSign(a: real, c: real)
    requires c > 0.0
    ensures (a / c) * 50.0 == 0.0 <==> a == 0.0
    ensures (a / c) * 50.0 > 0.0 <==> a > 0.0
  {
  }

  /** A ratio to a positive span is -1 exactly when the numerator is minus
      the span. */
  lemma RatioMinusOne(a: real, c: real)
    requires c > 0.0
    ensures a / c == -1.0 <==> a == -c
    ensures a / c > -1.0 <==> a > -c
  {
    assert (a / c) * c == a;
  }

  /** The position scaled back by the span is the distance from the first
      event, as a percentage of the span. */
  lemma TidePositionScaled(tide1: Tide, tide2: Tide, now: int)
    requires tide1.timestamp != tide2.timestamp
    ensures CalculateTidePosition(tide1, tide2, now) * Abs(tide2.timestamp - tide1.timestamp) as real
      == 100.0 * Abs(now - tide1.timestamp) as real
  {
  }

  lemma TidePositionNonNegative(tide1: Tide, tide2: Tide, now: int)
    requires tide1.timestamp != tide2.timestamp
    ensures CalculateTidePosition(tide1, tide2, now) >= 0.0
  {
  }

  /** 0 at the first event and 100 at the second. */
  lemma TidePositionEndpoints(tide1: Tide, tide2: Tide)
    requires tide1.timestamp != tide2.timestamp
    ensures CalculateTidePosition(tide1, tide2, tide1.timestamp) == 0.0
    ensures CalculateTidePosition(tide1, tide2, tide2.timestamp) == 100.0
  {
    var total := Abs(tide2.timestamp - tide1.timestamp) as real;
    assert total / total == 1.0;
  }

  /** Between the two events the position lies in [0, 100], and the
      positions measured from either end add up to 100. */
  lemma TidePositionBetween(tide1: Tide, tide2: Tide, now: int)
    requires tide1.timestamp != tide2.timestamp
    requires tide1.timestamp <= now <= tide2.timestamp || tide2.timestamp <= now <= tide1.timestamp
    ensures 0.0 <= CalculateTidePosition(tide1, tide2, now) <= 100.0
    ensures CalculateTidePosition(tide1, tide2, now) + CalculateTidePosition(tide2, tide1, now) == 100.0
  {
    TidePositionScaled(tide1, tide2, now);
    TidePositionScaled(tide2, tide1, now);
    TidePositionNonNegative(tide1, tide2, now);
    var total := Abs(tide2.timestamp - tide1.timestamp) as real;
    var p := CalculateTidePosition(tide1, tide2, now);
    var q := CalculateTidePosition(tide2, tide1, now);
    assert Abs(tide1.timestamp - tide2.timestamp) as real == total;
    assert Abs(now - tide1.timestamp) + Abs(now - tide2.timestamp) == Abs(tide2.timestamp - tide1.timestamp);
    var d1 := Abs(now - tide1.timestamp) as real;
    var d2 := Abs(now - tide2.timestamp) as real;
    assert d1 + d2 == total;
    assert p * total == 100.0 * d1 && q * total == 100.0 * d2;
    assert (p + q) * total == p * total + q * total;
    assert (p + q) * total == 100.0 * (d1 + d2);
    ScaleCancel(p + q, 100.0, total);
    TidePositionNonNegative(tide2, tide1, now);
  }

  /** The position grows with the distance from the first event. */
  lemma TidePositionMonotone(tide1: Tide, tide2: Tide, now: int, later: int)
    requires tide1.timestamp != tide2.timestamp
    requires Abs(now - tide1.timestamp) < Abs(later - tide1.timestamp)
    ensures CalculateTidePosition(tide1, tide2, now) < CalculateTidePosition(tide1, tide2, later)
  {
    var total := Abs(tide2.timestamp - tide1.timestamp) as real;
    DivLess(Abs(now - tide1.timestamp) as real, Abs(later - tide1.timestamp) as real, total);
  }

  lemma DivLess(a: real, b: real, c: real)
    requires c > 0.0 && a < b
    ensures a / c < b / c
  {
  }

  lemma MulDiv(m: real, c: real)
    requires c != 0.0
    ensures (m * c) / c == m
  {
  }

  lemma ScaleCancel(x: real, y: real, c: real)
    requires c > 0.0 && x * c == y * c
    ensures x == y
  {
  }

  /** With the second event after the first, the dial reads 50 at the first
      event, 75 at the midpoint and 100 at the second. */
  lemma RadialRisingLandmarks(tide1: Tide, tide2: Tide)
    requires tide2.timestamp > tide1.timestamp
    ensures CalculateTideRadialPosition(tide1, tide2, tide1.timestamp) == 50.0
    ensures CalculateTideRadialPosition(tide1, tide2, tide2.timestamp) == 100.0
    ensures (tide1.timestamp + tide2.timestamp) % 2 == 0 ==>
      CalculateTideRadialPosition(tide1, tide2, (tide1.timestamp + tide2.timestamp) / 2) == 75.0
  {
  }

  /** With the second event before the first, the dial reads 100 at the
      second event, 125 at the midpoint and 150 at the first. */
  lemma RadialFallingLandmarks(tide1: Tide, tide2: Tide)
    requires tide2.timestamp < tide1.timestamp
    ensures CalculateTideRadialPosition(tide1, tide2, tide2.timestamp) == 100.0
    ensures CalculateTideRadialPosition(tide1, tide2, tide1.timestamp) == 150.0
    ensures (tide1.timestamp + tide2.timestamp) % 2 == 0 ==>
      CalculateTideRadialPosition(tide1, tide2, (tide1.timestamp + tide2.timestamp) / 2) == 125.0
  {
    var span := (tide1.timestamp - tide2.timestamp) as real;
    assert (-span) / span == -1.0;
    if (tide1.timestamp + tide2.timestamp) % 2 == 0 {
      var mid := (tide1.timestamp + tide2.timestamp) / 2;
      assert (tide2.timestamp - mid) as real == -span / 2.0;
      assert (-span / 2.0) / span == -0.5;
    }
  }

  /** In both branches the dial is a straight line in `now` that rises by 50
      over the distance between the two events. */
  lemma RadialSlope(tide1: Tide, tide2: Tide, now: int)
    requires tide1.timestamp != tide2.timestamp
    ensures var span := Abs(tide2.timestamp - tide1.timestamp) as real;
      (CalculateTideRadialPosition(tide1, tide2, now) - CalculateTideRadialPosition(tide1, tide2, tide1.timestamp)) * span
      == (now - tide1.timestamp) as real * 50.0
  {
  }

  /** In both branches the dial reading strictly increases with `now`. */
  lemma RadialIncreasing(tide1: Tide, tide2: Tide, now: int, later: int)
    requires tide1.timestamp != tide2.timestamp
    requires now < later
    ensures CalculateTideRadialPosition(tide1, tide2, now) < CalculateTideRadialPosition(tide1, tide2, later)
  {
  }

  /** The dial has no bound outside the pair: with the second event later,
      it reads below 50 before the first event and above 100 after the
      second. */
  lemma RadialRisingOutside(tide1: Tide, tide2: Tide, now: int)
    requires tide2.timestamp > tide1.timestamp
    ensures now < tide1.timestamp ==> CalculateTideRadialPosition(tide1, tide2, now) < 50.0
    ensures now > tide2.timestamp ==> CalculateTideRadialPosition(tide1, tide2, now) > 100.0
  {
    RadialRisingLandmarks(tide1, tide2);
    if now < tide1.timestamp {
      RadialIncreasing(tide1, tide2, now, tide1.timestamp);
    } else if now > tide2.timestamp {
      RadialIncreasing(tide1, tide2, tide2.timestamp, now);
    }
  }

  /** Past the second event the dial keeps climbing by 50 per span of the
      pair, without bound: k spans later it reads 100 + 50 k. */
  lemma RadialRisingUnbounded(tide1: Tide, tide2: Tide, k: nat)
    requires tide2.timestamp > tide1.timestamp
    ensures CalculateTideRadialPosition(tide1, tide2,
      tide2.timestamp + k * (tide2.timestamp - tide1.timestamp)) == 100.0 + 50.0 * k as real
  {
    var span := tide2.timestamp - tide1.timestamp;
    var now := tide2.timestamp + k * span;
    var m := k as real + 1.0;
    assert (tide1.timestamp - now) as real == (-m) * span as real;
    MulDiv(-m, span as real);
    assert (tide1.timestamp - now) as real / span as real == -m;
    assert CalculateTideRadialPosition(tide1, tide2, now) == 50.0 - (-m) * 50.0;
  }
}
