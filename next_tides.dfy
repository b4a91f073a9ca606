/**
 `get_next_tides`: sort the events by timestamp, then walk them once and keep
 the first LOW and the first HIGH event that lie strictly after `now`. The
 clock reading is a parameter here.
 */
module NextTides {
  import opened TideInfo
  import opened StableSort

  /** An event of kind `k` that lies strictly after `now`. */
  function Due(k: TideType, now: int): Tide -> bool
  {
    (e: Tide) => e.kind == k && e.timestamp > now
  }

  /** The specification of one slot of `get_next_tides`: the first event of
      kind `k` after `now` in the events sorted by timestamp. */
  function NextTide(tides: seq<Tide>, k: TideType, now: int): Option<Tide>
  {
    First(SortBy(tides, Timestamp), Due(k, now))
  }

  /** The loop of `get_next_tides` over the timestamp-sorted events; each slot
      is filled once, by the first event that qualifies for it. */
  method GetNextTides(tides: seq<Tide>, now: int) returns (low: Option<Tide>, high: Option<Tide>)
    ensures low == NextTide(tides, Low, now)
    ensures high == NextTide(tides, High, now)
  {
    var sorted := SortBy(tides, Timestamp);
    low, high := None, None;
    for i := 0 to |sorted|
      invariant low == First(sorted[..i], Due(Low, now))
      invariant high == First(sorted[..i], Due(High, now))
    {
      var t := sorted[i];
      if t.kind == Low && low.None? && t.timestamp > now {
        low := Some(t);
      } else if t.kind == High && high.None? && t.timestamp > now {
        high := Some(t);
      }
      FirstSnoc(sorted[..i], t, Due(Low, now));
      FirstSnoc(sorted[..i], t, Due(High, now));
      assert sorted[..i + 1] == sorted[..i] + [t];
    }
    assert sorted[..|sorted|] == sorted;
  }

  /** A returned event is one of the input events, of the requested kind, and
      strictly in the future. */
  lemma NextTideIsDue(tides: seq<Tide>, k: TideType, now: int)
    ensures NextTide(tides, k, now).Some? ==>
      var e := NextTide(tides, k, now).value;
      e in tides && e.kind == k && e.timestamp > now
  {
    var s := SortBy(tides, Timestamp);
    SortByPermutes(tides, Timestamp);
    if First(s, Due(k, now)).Some? {
      assert First(s, Due(k, now)).value in multiset(s);
    }
  }

  /** A slot is empty exactly when no input event of that kind lies after
      `now`; past events, events at `now` and events of other kinds never
      fill a slot. */
  lemma NextTideNoneIffAbsent(tides: seq<Tide>, k: TideType, now: int)
    ensures NextTide(tides, k, now).None? <==>
      forall e :: e in tides ==> !(e.kind == k && e.timestamp > now)
  {
    var s := SortBy(tides, Timestamp);
    SortByPermutes(tides, Timestamp);
    forall e | e in tides
      ensures e in s
    {
      assert e in multiset(tides);
    }
    forall e | e in s
      ensures e in tides
    {
      assert e in multiset(s);
    }
  }

  /** The returned event is the earliest due one: no event of that kind lies
      strictly between `now` and it. */
  lemma NextTideIsEarliest(tides: seq<Tide>, k: TideType, now: int)
    requires NextTide(tides, k, now).Some?
    ensures forall e :: e in tides && e.kind == k && now < e.timestamp ==>
      NextTide(tides, k, now).value.timestamp <= e.timestamp
  {
    var s := SortBy(tides, Timestamp);
    SortBySorted(tides, Timestamp);
    SortByPermutes(tides, Timestamp);
    FirstOfSortedIsMinimal(s, Timestamp, Due(k, now));
    forall e | e in tides && e.kind == k && now < e.timestamp
      ensures NextTide(tides, k, now).value.timestamp <= e.timestamp
    {
      assert e in multiset(tides);
      assert e in s && Due(k, now)(e);
    }
  }

  /** On a tie the event that comes first in the input wins: the returned
      event is the first input event that is due and has its timestamp. */
  lemma NextTideFirstAmongEqual(tides: seq<Tide>, k: TideType, now: int)
    requires NextTide(tides, k, now).Some?
    ensures var x := NextTide(tides, k, now).value;
      First(tides, (e: Tide) => e.kind == k && e.timestamp > now && e.timestamp == x.timestamp) == Some(x)
  {
    var s := SortBy(tides, Timestamp);
    var x := NextTide(tides, k, now).value;
    var p := Due(k, now);
    var q := (e: Tide) => e.kind == k && e.timestamp > now && e.timestamp == x.timestamp;
    FirstNarrowed(s, p, q);
    FirstWithKey(s, Timestamp, x.timestamp, p, q);
    SortByStable(tides, Timestamp, x.timestamp);
    FirstWithKey(tides, Timestamp, x.timestamp, p, q);
  }
}
