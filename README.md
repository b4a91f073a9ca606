# MetService tides: selection and interpolation engine

A Dafny model of the tide engine of the MetService tides integration for
Home Assistant. The integration fetches predicted high and low waters for
one station. It then derives the dashboard values from that list of events:

- the next LOW and the next HIGH after the current instant (`get_next_tides`);
- the two events nearest to the current instant, as a (low, high) pair
  (`get_closest_tides`);
- a linear percentage between two events (`calculate_tide_position`);
- a dial reading between two events (`calculate_tide_radial_position`).

Files:

- `tide_info.dfy` (module `TideInfo`): the `TideInfo` record, here `Tide`.
  Its `type` string becomes `TideType = Low | High | Other(name)`.
- `stable_sort.dfy` (module `StableSort`): Python's `sorted(..., key=...)`,
  modelled as a stable insertion sort (`SortBy`). Three lemmas characterise
  it: ordered, a permutation, stable. The module also has `First`, the first
  element that passes a test.
- `next_tides.dfy` (module `NextTides`): `get_next_tides` as a method with
  its loop. It is proved against the specification function `NextTide`.
- `closest_tides.dfy` (module `ClosestTides`): `get_closest_tides` as a
  function. `Nearest` is an independent reference definition of the nearest
  event.
- `tide_position.dfy` (module `TidePosition`): the two formulas and their
  landmark values.
- `scenarios.dfy` (module `Scenarios`): one low/high half-cycle worked
  through all four functions.

The clock reading `datetime.now().timestamp()` is the parameter `now`.
Timestamps are whole seconds (`int`). Percentages are exact `real`s.

Behaviour of the code that the model keeps as it is:

- Half way from a low to the following high, the dial reads 75, not 50.
  It reads 50 at the low itself (metservice_tides/sensor.py:89;
  `RadialRisingLandmarks`, `Scenarios.AtTheMidpoint`).
- Any `type` string is kept. Only "LOW" and "HIGH" are tested
  (metservice_tides/sensor.py:48, 50, 60). `get_next_tides` never returns an
  event of another type, and `get_closest_tides` treats it like HIGH. The
  predicate `Decodable` picks out the kinds that a string can decode to.
- With fewer than two events, `get_closest_tides` raises IndexError: on an
  empty list at the index `[0]` (metservice_tides/sensor.py:60), on a single
  event at the index `[1]` (metservice_tides/sensor.py:62, 65). Here that is a
  precondition.
- With two events at the same timestamp, both formulas divide by zero
  (metservice_tides/sensor.py:78, 91). Here that is a precondition too.

## Model

| member | source | states |
|---|---|---|
| TideInfo.TypeOf | metservice_tides/fetcher.py:11-17 | the enum agrees with the `== 'LOW'` and `== 'HIGH'` string tests, in both directions; any other string is kept as `Other`; the result is always `Decodable` |
| TideInfo.TypeNameOfTypeOf | metservice_tides/fetcher.py:17 | classifying a `type` string loses nothing: naming the class gives the string back |
| TideInfo.TypeOfTypeName | metservice_tides/fetcher.py:17 | every kind a string can decode to is decoded from its own name, so classifying and naming are inverse on those kinds |
| StableSort.SortBy | metservice_tides/sensor.py:38 | the sorted list has as many events as the input |
| StableSort.SortByPermutes | metservice_tides/sensor.py:38 | the sort returns exactly the input events, with multiplicity |
| StableSort.SortBySorted | metservice_tides/sensor.py:38 | the sort orders the events by the key |
| StableSort.SortByStable | metservice_tides/sensor.py:38 | the sort is stable: the events that share a key come out in input order |
| StableSort.First | metservice_tides/sensor.py:47-51 | a first match is an element of the list that passes the test; there is none exactly when no element passes |
| StableSort.FirstIsEarliest | metservice_tides/sensor.py:44-51 | the match sits at an index before which no element passes the test, so it is the first match and not just any |
| StableSort.FirstOfSortedIsMinimal | metservice_tides/sensor.py:47-49 | in a list sorted by a key, the first match has the smallest key among all matches |
| NextTides.GetNextTides | metservice_tides/sensor.py:37-53 | the loop returns, for each slot, the first event of the timestamp-sorted list that has that type and lies strictly after now (`NextTide`) |
| NextTides.NextTideIsDue | metservice_tides/sensor.py:47-51 | a returned event is one of the input events, has the requested type and lies strictly after now |
| NextTides.NextTideNoneIffAbsent | metservice_tides/sensor.py:44-53 | a slot is None exactly when no input event of that type lies strictly after now |
| NextTides.NextTideIsEarliest | metservice_tides/sensor.py:38-51 | no event of the requested type lies strictly after now and strictly before the returned event |
| NextTides.NextTideFirstAmongEqual | metservice_tides/sensor.py:38-51 | on equal timestamps the event first in the input wins: it is the first input event that is due and has that timestamp |
| ClosestTides.GetClosestTides | metservice_tides/sensor.py:56-65 | both returned events are input events, and the high slot holds a LOW only when the low slot does too; characterised further by `ClosestTidesAreTwoNearest` and `ClosestTidesOrder` |
| ClosestTides.Nearest | metservice_tides/sensor.py:58 | reference scan: an input event no farther from now than any other |
| ClosestTides.NearestIsFirstOfNearest | metservice_tides/sensor.py:58 | of the events at the smallest distance, `Nearest` is the first in the input |
| ClosestTides.SortedHeadIsNearest | metservice_tides/sensor.py:58-60 | the head of the list sorted by distance is `Nearest` |
| ClosestTides.ClosestTidesAreTwoNearest | metservice_tides/sensor.py:56-65 | the pair is two input events, with multiplicity, and every other event is at least as far from now as either of them |
| ClosestTides.ClosestTidesOrder | metservice_tides/sensor.py:60-65 | if the nearest event is LOW it is returned first, otherwise it is returned second, whatever the other event's type |
| ClosestTides.ClosestTidesCanPairTwoHighs | metservice_tides/sensor.py:60-65 | the second-nearest event's type is never checked: two HIGH events can be returned as the (low, high) pair |
| ClosestTides.NearestPairHasNothingBetween | metservice_tides/sensor.py:58-62 | no event lies strictly between the two nearest events in time |
| ClosestTides.ClosestTidesOfAlternating | metservice_tides/sensor.py:56-65 | when types alternate in time and no two events share a timestamp, the pair is one LOW then one HIGH |
| TidePosition.CalculateTidePosition | metservice_tides/sensor.py:68-80 | the linear position is 0 exactly when now is the first event's timestamp; characterised further by the `TidePosition*` lemmas |
| TidePosition.CalculateTideRadialPosition | metservice_tides/sensor.py:82-91 | in both branches the dial reads exactly 100 at the second event, below 100 before it and above 100 after it; characterised further by the `Radial*` lemmas |
| TidePosition.TidePositionNonNegative | metservice_tides/sensor.py:72-78 | the linear position is never negative |
| TidePosition.TidePositionEndpoints | metservice_tides/sensor.py:72-78 | the linear position is 0 at the first event and 100 at the second |
| TidePosition.TidePositionBetween | metservice_tides/sensor.py:72-78 | between the two events the position is at most 100; positions measured from either end add up to 100 |
| TidePosition.TidePositionMonotone | metservice_tides/sensor.py:72-78 | the position strictly grows with the distance from the first event |
| TidePosition.RadialRisingLandmarks | metservice_tides/sensor.py:85-89 | when the second event is later, the dial reads 50 at the first event, 75 at the midpoint and 100 at the second |
| TidePosition.RadialFallingLandmarks | metservice_tides/sensor.py:85-91 | when the second event is earlier, the dial reads 100 at the second event, 125 at the midpoint and 150 at the first |
| TidePosition.RadialSlope | metservice_tides/sensor.py:82-91 | in both branches the dial is a straight line in now that rises by 50 over the span of the pair |
| TidePosition.RadialIncreasing | metservice_tides/sensor.py:82-91 | the dial reading strictly increases with now |
| TidePosition.RadialRisingOutside | metservice_tides/sensor.py:85-89 | the dial leaves the 50-100 band outside the pair: below 50 before the first event, above 100 after the second |
| TidePosition.RadialRisingUnbounded | metservice_tides/sensor.py:85-89 | the dial has no upper bound: k spans past the second event it reads 100 + 50 k |
| Scenarios.AtTheLow | metservice_tides/sensor.py:37-80 | at the low itself: no next low, the high is next, the pair is (low, high), the position is 0 |
| Scenarios.AtTheMidpoint | metservice_tides/sensor.py:68-91 | half way from the low to the high: linear position 50, dial 75 |

## Left out

- The clock: `datetime.now()` is read separately in each of the four functions. Here each function takes `now` as an argument. Sub-second parts of the clock reading are not modelled (`now` is an `int`).
- Floating point: heights, timestamps and percentages are exact. IEEE rounding is not modelled.
- `SortBy`: Python's Timsort is replaced by an insertion sort. It has the three properties proved above (ordered, permutation, stable), which are all that the callers rely on.
- ClosestTides.GetClosestTides: requires at least two events. The source raises IndexError on fewer: at metservice_tides/sensor.py:60 on an empty list, at metservice_tides/sensor.py:62 or 65 on a single event. That error path is not modelled.
- TidePosition.CalculateTidePosition: requires two distinct timestamps. The source raises ZeroDivisionError when they are equal (metservice_tides/sensor.py:78), and that error path is not modelled.
- TidePosition.CalculateTideRadialPosition: requires two distinct timestamps. The source raises ZeroDivisionError in its else branch when they are equal (metservice_tides/sensor.py:91), and that error path is not modelled.
- ClosestTides.ClosestTidesAreTwoNearest: it does not say which event is taken second when several events tie for second-nearest. The nearest one's tie-break is given by `NearestIsFirstOfNearest` and `SortedHeadIsNearest`.
- Logging calls: they have no effect on the results.
- The Home Assistant entity layer: the sensor description tables and their projection lambdas, including `datetime.fromisoformat` on `.time`, `async_setup_entry`, `TidesSensor` and `TideCalculatedSensor`. These are framework plumbing.
- The fetcher: HTTP, `json.loads`, `datetime.fromisoformat` and the decode comprehension are foreign calls. Only the record shape is modelled.
- The update coordinators, timeouts and the `hass.data` registry in `__init__.py`: scheduling and concurrency.
- The configuration flow in `config_flow.py`: a user-interface form.
