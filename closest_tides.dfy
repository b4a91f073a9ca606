/**
 `get_closest_tides`: sort the events by their distance from `now` and return
 the two nearest as a (low, high) pair, deciding the order by the type of the
 nearest one alone. The clock reading is a parameter here.
 */
module ClosestTides {
  import opened TideInfo
  import opened StableSort

  /** How far an event lies from `now`, in either direction. */
  function Distance(t: Tide, now: int): nat
  {
    Abs(now - t.timestamp)
  }

  /** The sort key of `get_closest_tides`, as a function value. */
  function DistanceFrom(now: int): Tide -> int
  {
    (t: Tide) => Distance(t, now)
  }

  /** The source indexes the sorted list at 0 and 1, so it needs two events.
      Both returned events come from the input, and a LOW is never put in the
      high slot while the low slot holds another type. */
  function GetClosestTides(tides: seq<Tide>, now: int): (r: (Tide, Tide))
    requires |tides| >= 2
    ensures r.0 in tides && r.1 in tides
    ensures r.1.kind == Low ==> r.0.kind == Low
  {
    var sorted := SortBy(tides, DistanceFrom(now));
    SortByPermutes(tides, DistanceFrom(now));
    assert sorted[0] in multiset(tides) && sorted[1] in multiset(tides);
    if sorted[0].kind == Low then (sorted[0], sorted[1]) else (sorted[1], sorted[0])
  }

  /** A reference definition of the nearest event, without sorting: one scan
      in which a later event replaces the best so far only when it is
      strictly nearer. */
  function Nearest(tides: seq<Tide>, now: int): (r: Tide)
    requires |tides| >= 1
    ensures r in tides
    ensures forall e :: e in tides ==> Distance(r, now) <= Distance(e, now)
  {
    if |tides| == 1 then tides[0]
    else
      var m := Nearest(tides[1..], now);
      if Distance(tides[0], now) <= Distance(m, now) then tides[0] else m
  }

  /** Of the events nearest to `now`, `Nearest` is the first in the input. */
  lemma {:induction false} NearestIsFirstOfNearest(tides: seq<Tide>, now: int, d: nat, q: Tide -> bool)
    requires |tides| >= 1
    requires d == Distance(Nearest(tides, now), now)
    requires forall e :: q(e) == (Distance(e, now) == d)
    ensures First(tides, q) == Some(Nearest(tides, now))
  {
    if |tides| > 1 {
      var m := Nearest(tides[1..], now);
      if Distance(tides[0], now) > Distance(m, now) {
        NearestIsFirstOfNearest(tides[1..], now, d, q);
      }
    }
  }

  /** The stable sort by distance puts `Nearest` first. */
  lemma {:induction false} SortedHeadIsNearest(tides: seq<Tide>, now: int)
    requires |tides| >= 1
    ensures SortBy(tides, DistanceFrom(now))[0] == Nearest(tides, now)
  {
    if |tides| > 1 {
      SortedHeadIsNearest(tides[1..], now);
    }
  }

  /** The first two elements of a sequence sorted by distance are no farther
      from `now` than any later element. */
  lemma SortedHeadPairIsNearest(s: seq<Tide>, now: int)
    requires |s| >= 2 && SortedBy(s, DistanceFrom(now))
    ensures multiset(s) == multiset{s[0], s[1]} + multiset(s[2..])
    ensures forall e :: e in s[2..] ==>
      Distance(s[0], now) <= Distance(e, now) && Distance(s[1], now) <= Distance(e, now)
  {
    assert s == [s[0], s[1]] + s[2..];
    forall e | e in s[2..]
      ensures Distance(s[0], now) <= Distance(e, now) && Distance(s[1], now) <= Distance(e, now)
    {
      var j :| 0 <= j < |s[2..]| && s[2..][j] == e;
      assert s[j + 2] == e;
      assert DistanceFrom(now)(s[0]) <= DistanceFrom(now)(s[1]) <= DistanceFrom(now)(s[j + 2]);
    }
  }

  /** The pair is two of the input events (counted with multiplicity), and
      every other event lies at least as far from `now` as either of them. */
  lemma ClosestTidesAreTwoNearest(tides: seq<Tide>, now: int)
    requires |tides| >= 2
    ensures var (a, b) := GetClosestTides(tides, now);
      multiset{a, b} <= multiset(tides) &&
      forall e :: e in multiset(tides) - multiset{a, b} ==>
        Distance(a, now) <= Distance(e, now) && Distance(b, now) <= Distance(e, now)
  {
    var s := SortBy(tides, DistanceFrom(now));
    SortByPermutes(tides, DistanceFrom(now));
    SortBySorted(tides, DistanceFrom(now));
    SortedHeadPairIsNearest(s, now);
    var (a, b) := GetClosestTides(tides, now);
    assert multiset{a, b} == multiset{s[0], s[1]};
    forall e | e in multiset(tides) - multiset{a, b}
      ensures Distance(a, now) <= Distance(e, now) && Distance(b, now) <= Distance(e, now)
    {
      assert e in multiset(s[2..]);
    }
  }

  /** The order of the pair rests on the nearest event alone: when it is LOW
      it comes first, otherwise it comes second, whatever the type of the
      other event. */
  lemma ClosestTidesOrder(tides: seq<Tide>, now: int)
    requires |tides| >= 2
    ensures var (a, b) := GetClosestTides(tides, now);
      var n := Nearest(tides, now);
      if n.kind == Low then a == n else b == n
  {
    SortedHeadIsNearest(tides, now);
  }

  /** Two HIGH events can be returned as the pair, the first of them in the
      low slot. */
  lemma ClosestTidesCanPairTwoHighs()
    ensures var h1 := Tide(3.1, "", "", 10, High);
      var h2 := Tide(3.0, "", "", 20, High);
      var l := Tide(0.2, "", "", 100, Low);
      GetClosestTides([h1, h2, l], 12) == (h2, h1)
  {
  }

  /** No two events share a timestamp, and no event occurs twice. */
  ghost predicate DistinctTimes(tides: seq<Tide>)
  {
    forall i, j :: 0 <= i < j < |tides| ==> tides[i].timestamp != tides[j].timestamp
  }

  /** The events alternate: of two events with no third between them in
      time, one is LOW and the other HIGH. */
  ghost predicate Alternating(tides: seq<Tide>)
  {
    (forall e :: e in tides ==> e.kind == Low || e.kind == High) &&
    forall a, b ::
      (a in tides && b in tides && a.timestamp < b.timestamp &&
       forall c :: c in tides ==> !(a.timestamp < c.timestamp < b.timestamp)) ==>
      a.kind != b.kind
  }

  lemma {:induction false} DistinctTimesCounts(tides: seq<Tide>)
    requires DistinctTimes(tides)
    ensures forall e :: multiset(tides)[e] <= 1
    ensures forall a, b :: a in tides && b in tides && a.timestamp == b.timestamp ==> a == b
  {
    if tides != [] {
      var rest := tides[1..];
      assert DistinctTimes(rest) by {
        forall i, j | 0 <= i < j < |rest|
          ensures rest[i].timestamp != rest[j].timestamp
        {
          assert rest[i] == tides[i + 1] && rest[j] == tides[j + 1];
        }
      }
      DistinctTimesCounts(rest);
      assert tides == [tides[0]] + rest;
      assert tides[0] !in rest;
      forall a, b | a in tides && b in tides && a.timestamp == b.timestamp
        ensures a == b
      {
        var i :| 0 <= i < |tides| && tides[i] == a;
        var j :| 0 <= j < |tides| && tides[j] == b;
        assert i == j || i < j || j < i;
      }
    }
  }

  /** Strictly inside the span of two instants, a point is nearer to `now`
      than the farther of the two. */
  lemma InsideIsNearer(a: int, b: int, c: int, now: int)
    ensures (a < c < b || b < c < a) ==> Abs(now - c) < Abs(now - a) || Abs(now - c) < Abs(now - b)
  {
  }

  /** Two distinct events that are each as near to `now` as every other event
      have no event strictly between them in time. */
  lemma NearestPairHasNothingBetween(tides: seq<Tide>, now: int, x: Tide, y: Tide)
    requires multiset{x, y} <= multiset(tides)
    requires forall e :: e in multiset(tides) - multiset{x, y} ==>
      Distance(x, now) <= Distance(e, now) && Distance(y, now) <= Distance(e, now)
    ensures forall c :: c in tides ==>
      !(x.timestamp < c.timestamp < y.timestamp) && !(y.timestamp < c.timestamp < x.timestamp)
  {
    forall c | c in tides
      ensures !(x.timestamp < c.timestamp < y.timestamp) && !(y.timestamp < c.timestamp < x.timestamp)
    {
      InsideIsNearer(x.timestamp, y.timestamp, c.timestamp, now);
      if c != x && c != y {
        assert c in multiset(tides) - multiset{x, y};
      }
    }
  }

  /** For events that alternate and never share a timestamp, the two nearest
      events are neighbours in time, so the pair is one LOW and one HIGH, in
      that order. */
  lemma {:induction false} ClosestTidesOfAlternating(tides: seq<Tide>, now: int)
    requires |tides| >= 2
    requires DistinctTimes(tides) && Alternating(tides)
    ensures GetClosestTides(tides, now).0.kind == Low
    ensures GetClosestTides(tides, now).1.kind == High
  {
    var (x, y) := GetClosestTides(tides, now);
    ClosestTidesAreTwoNearest(tides, now);
    DistinctTimesCounts(tides);
    assert x in tides && y in tides by {
      assert x in multiset(tides) && y in multiset(tides);
    }
    assert x != y by {
      assert multiset{x, y}[x] == if x == y then 2 else 1;
    }
    assert x.timestamp != y.timestamp;
    NearestPairHasNothingBetween(tides, now, x, y);
    assert x.kind != y.kind by {
      if x.timestamp < y.timestamp {
        NeighboursAlternate(tides, x, y);
      } else {
        NeighboursAlternate(tides, y, x);
      }
    }
    assert x.kind == Low || y.kind != Low;
  }

  lemma NeighboursAlternate(tides: seq<Tide>, a: Tide, b: Tide)
    requires Alternating(tides)
    requires a in tides && b in tides && a.timestamp < b.timestamp
    requires forall c :: c in tides ==> !(a.timestamp < c.timestamp < b.timestamp)
    ensures a.kind != b.kind
    ensures a.kind == Low || a.kind == High
    ensures b.kind == Low || b.kind == High
  {
  }
}
