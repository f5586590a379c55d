/**
 * `create_travel_time_dataset`: stop-to-stop travel times of the buses
 * mapped to route 88, one record per adjacent pair of stops a vehicle
 * reached in a plausible time.
 *
 * The mapping table, the stop list and the GPS files are inputs; reading
 * them and writing the result are not modelled. Timestamps are whole
 * seconds, as in `Pings`.
 */
module TravelTimes {
  import opened Wrappers
  import opened Rows
  import opened Pings

  /** One row of the vehicle-to-route mapping: `Vehicle_ID`, `Predicted_Route_No`. */
  datatype MappingEntry = MappingEntry(vehicle: string, route: string)

  /** One row of the route's stop list: `StopId`, `Lat`, `Lng`, `Name`. */
  datatype Stop = Stop(id: int, lat: real, lng: real, name: string)

  /** A daily GPS file: unreadable (skipped by the `except`), or its rows. */
  datatype GpsFile = Unreadable | GpsTable(rows: seq<Ping>)

  /**
   * One training record. `date` is the day number of the departure time,
   * `minutes` the travel time between the two stops.
   */
  datatype Segment = Segment(date: int, hour: int, dayOfWeek: int, fromStop: string, toStop: string, index: nat, minutes: real)

  const TargetRoute: string := "88"
  /** Half the side of the square around a stop, in degrees (about 100 m). */
  const Tolerance: real := 0.001
  const MinMinutes: real := 0.5
  const MaxMinutes: real := 60.0

  /** The vehicles some mapping row assigns to the target route. */
  function TargetVehicles(mapping: seq<MappingEntry>): set<string>
  {
    set j | 0 <= j < |mapping| && mapping[j].route == TargetRoute :: mapping[j].vehicle
  }

  /** `isin(vehicles_route_01)` over the GPS rows. */
  function TargetMask(rows: seq<Ping>, targets: set<string>): seq<bool>
  {
    MaskOf(rows, (p: Ping) => p.vehicle in targets)
  }

  function Abs(x: real): real
  {
    if x < 0.0 then -x else x
  }

  /** The ping lies strictly inside the square around the stop. */
  predicate NearStop(p: Ping, s: Stop)
  {
    Abs(p.lat - s.lat) < Tolerance && Abs(p.lng - s.lng) < Tolerance
  }

  function NearMask(trip: seq<Ping>, s: Stop): seq<bool>
  {
    MaskOf(trip, (p: Ping) => NearStop(p, s))
  }

  /** The time of the first ping of the trip near the stop, if any. */
  function Arrival(trip: seq<Ping>, s: Stop): Option<int>
  {
    var nearby := Select(trip, NearMask(trip, s));
    if |nearby| == 0 then None else Some(nearby[0].time)
  }

  /**
   * On a trip in time order, the arrival is the earliest time at which the
   * vehicle was near the stop, and there is none exactly when it never was.
   */
  lemma ArrivalIsEarliest(trip: seq<Ping>, s: Stop)
    requires forall i, j :: 0 <= i < j < |trip| ==> trip[i].time <= trip[j].time
    ensures Arrival(trip, s).None? <==> forall i :: 0 <= i < |trip| ==> !NearStop(trip[i], s)
    ensures Arrival(trip, s).Some? ==>
      (exists i :: 0 <= i < |trip| && NearStop(trip[i], s) && trip[i].time == Arrival(trip, s).value)
    ensures Arrival(trip, s).Some? ==>
      forall i :: 0 <= i < |trip| && NearStop(trip[i], s) ==> Arrival(trip, s).value <= trip[i].time
  {
    var m := NearMask(trip, s);
    var nearby := Select(trip, m);
    if |nearby| == 0 {
      forall i | 0 <= i < |trip|
        ensures !NearStop(trip[i], s)
      {
        if m[i] {
          CountPositive(m, i);
        }
      }
    } else {
      SelectFrom(trip, m, 0);
      var i :| 0 <= i < |trip| && m[i] && Rank(m, i) == 0 && nearby[0] == trip[i];
      forall j | 0 <= j < |trip| && NearStop(trip[j], s)
        ensures trip[i].time <= trip[j].time
      {
        if j < i {
          RankMonotone(m, j, i);
        }
      }
    }
  }

  /** The arrival of the trip at each stop, in stop order. */
  function Arrivals(trip: seq<Ping>, stops: seq<Stop>): seq<Option<int>>
  {
    seq(|stops|, j requires 0 <= j < |stops| => Arrival(trip, stops[j]))
  }

  /**
   * `stop_times` after the stops `stops` have been visited in order, given
   * the arrival at each: a reached stop stores its arrival under its id.
   */
  function TimesFrom(stops: seq<Stop>, arrivals: seq<Option<int>>): map<int, int>
    requires |arrivals| == |stops|
  {
    if |stops| == 0 then map[]
    else
      var n := |stops| - 1;
      var times := TimesFrom(stops[..n], arrivals[..n]);
      if arrivals[n].Some? then times[stops[n].id := arrivals[n].value] else times
  }

  /** `stop_times` for one vehicle's trip. */
  function StopTimes(trip: seq<Ping>, stops: seq<Stop>): map<int, int>
  {
    TimesFrom(stops, Arrivals(trip, stops))
  }

  /** The loop over the stops, filling `stop_times` for one vehicle's trip. */
  method ArrivalTimes(trip: seq<Ping>, stops: seq<Stop>) returns (stopTimes: map<int, int>)
    ensures stopTimes == StopTimes(trip, stops)
  {
    ghost var arrivals := Arrivals(trip, stops);
    stopTimes := map[];
    for j := 0 to |stops|
      invariant stopTimes == TimesFrom(stops[..j], arrivals[..j])
    {
      assert stops[..j + 1][..j] == stops[..j] && arrivals[..j + 1][..j] == arrivals[..j];
      var stop := stops[j];
      var nearby := ApplyMask(trip, NearMask(trip, stop));
      assert arrivals[..j + 1][j] == Arrival(trip, stop);
      if |nearby| > 0 {
        stopTimes := stopTimes[stop.id := nearby[0].time];
      }
    }
    assert stops[..|stops|] == stops && arrivals[..|stops|] == arrivals;
  }

  lemma {:induction false} TimesFromKeys(stops: seq<Stop>, arrivals: seq<Option<int>>, id: int)
    requires |arrivals| == |stops|
    ensures id in TimesFrom(stops, arrivals) <==>
      exists j :: 0 <= j < |stops| && stops[j].id == id && arrivals[j].Some?
    decreases |stops|
  {
    if |stops| > 0 {
      var n := |stops| - 1;
      TimesFromKeys(stops[..n], arrivals[..n], id);
      assert forall j :: 0 <= j < n ==> stops[..n][j] == stops[j] && arrivals[..n][j] == arrivals[j];
    }
  }

  lemma {:induction false} TimesFromLast(stops: seq<Stop>, arrivals: seq<Option<int>>, id: int, j: nat)
    requires |arrivals| == |stops| && j < |stops| && stops[j].id == id && arrivals[j].Some?
    requires forall l :: j < l < |stops| && stops[l].id == id ==> arrivals[l].None?
    ensures id in TimesFrom(stops, arrivals) && TimesFrom(stops, arrivals)[id] == arrivals[j].value
    decreases |stops|
  {
    var n := |stops| - 1;
    if j < n {
      assert forall l :: 0 <= l < n ==> stops[..n][l] == stops[l] && arrivals[..n][l] == arrivals[l];
      TimesFromLast(stops[..n], arrivals[..n], id, j);
    }
  }

  /** A stop id has a time exactly when some stop with that id was reached. */
  lemma StopTimesKeys(trip: seq<Ping>, stops: seq<Stop>, id: int)
    ensures id in StopTimes(trip, stops) <==>
      exists j :: 0 <= j < |stops| && stops[j].id == id && Arrival(trip, stops[j]).Some?
  {
    var arrivals := Arrivals(trip, stops);
    TimesFromKeys(stops, arrivals, id);
    assert forall j :: 0 <= j < |stops| ==> arrivals[j] == Arrival(trip, stops[j]);
  }

  /** No stop after index `j` with this id was reached. */
  predicate NoLaterArrival(trip: seq<Ping>, stops: seq<Stop>, j: int, id: int)
  {
    forall l :: 0 <= l < |stops| && j < l && stops[l].id == id ==> Arrival(trip, stops[l]).None?
  }

  /**
   * Keyed by `StopId`, a stop id holds the arrival at the LAST reached stop
   * carrying it: a later stop with the same id overwrites.
   */
  lemma StopTimesLast(trip: seq<Ping>, stops: seq<Stop>, id: int, j: nat)
    requires j < |stops| && stops[j].id == id && Arrival(trip, stops[j]).Some?
    requires NoLaterArrival(trip, stops, j, id)
    ensures id in StopTimes(trip, stops) && StopTimes(trip, stops)[id] == Arrival(trip, stops[j]).value
  {
    var arrivals := Arrivals(trip, stops);
    assert forall l :: 0 <= l < |stops| ==> arrivals[l] == Arrival(trip, stops[l]);
    TimesFromLast(stops, arrivals, id, j);
  }

  /** `range(len(stops_coords) - 1)` has this many indices. */
  function Pairs(stops: seq<Stop>): nat
  {
    if |stops| == 0 then 0 else |stops| - 1
  }

  /** A record as every emitted one is: a real pair of adjacent stops and a plausible duration. */
  predicate WellFormed(r: Segment, stops: seq<Stop>)
  {
    && r.index + 1 < |stops|
    && r.fromStop == stops[r.index].name
    && r.toStop == stops[r.index + 1].name
    && MinMinutes < r.minutes < MaxMinutes
    && 0 <= r.hour < 24
    && 0 <= r.dayOfWeek < 7
  }

  /** The record for the pair of stops `i`, `i + 1`, if one is emitted. */
  function SegmentAt(stops: seq<Stop>, times: map<int, int>, i: nat): (e: Option<Segment>)
    requires i + 1 < |stops|
    ensures e.Some? <==>
      && stops[i].id in times && stops[i + 1].id in times
      && 30 < times[stops[i + 1].id] - times[stops[i].id] < 3600
    ensures e.Some? ==> e.value.index == i && WellFormed(e.value, stops)
    ensures e.Some? ==>
      var t1 := times[stops[i].id];
      && e.value.minutes * 60.0 == (times[stops[i + 1].id] - t1) as real
      && e.value.date == DayNumber(t1) && e.value.hour == HourOf(t1) && e.value.dayOfWeek == DayOfWeek(t1)
  {
    var start := stops[i];
    var end := stops[i + 1];
    if start.id in times && end.id in times && times[end.id] > times[start.id] then
      var t1 := times[start.id];
      var t2 := times[end.id];
      var duration := (t2 - t1) as real / 60.0;
      if MinMinutes < duration < MaxMinutes then
        Some(Segment(DayNumber(t1), HourOf(t1), DayOfWeek(t1), start.name, end.name, i, duration))
      else None
    else None
  }

  /**
   * The records of the pairs with index below `k`, in index order; each is
   * the record of its own pair.
   */
  function SegmentsBefore(stops: seq<Stop>, times: map<int, int>, k: nat): (r: seq<Segment>)
    requires k <= Pairs(stops)
    ensures forall q :: 0 <= q < |r| ==> r[q].index < k && SegmentAt(stops, times, r[q].index) == Some(r[q])
    ensures forall q :: 0 <= q < |r| ==> WellFormed(r[q], stops)
    ensures forall q, q' :: 0 <= q < q' < |r| ==> r[q].index < r[q'].index
  {
    if k == 0 then []
    else
      var e := SegmentAt(stops, times, k - 1);
      SegmentsBefore(stops, times, k - 1) + if e.Some? then [e.value] else []
  }

  /** Every pair whose record is emitted appears among the records. */
  lemma {:induction false} SegmentEmitted(stops: seq<Stop>, times: map<int, int>, k: nat, i: nat)
    requires i < k <= Pairs(stops) && SegmentAt(stops, times, i).Some?
    ensures exists q :: 0 <= q < |SegmentsBefore(stops, times, k)| && SegmentsBefore(stops, times, k)[q].index == i
    decreases k
  {
    var init := SegmentsBefore(stops, times, k - 1);
    var e := SegmentAt(stops, times, k - 1);
    var r := SegmentsBefore(stops, times, k);
    assert r == init + if e.Some? then [e.value] else [];
    if i < k - 1 {
      SegmentEmitted(stops, times, k - 1, i);
      var q :| 0 <= q < |init| && init[q].index == i;
      assert r[q] == init[q];
    } else {
      assert r[|init|] == e.value;
    }
  }

  /** The loop over adjacent pairs of stops for one vehicle. */
  method SegmentRecords(stops: seq<Stop>, stopTimes: map<int, int>) returns (records: seq<Segment>)
    ensures records == SegmentsBefore(stops, stopTimes, Pairs(stops))
  {
    records := [];
    for i := 0 to Pairs(stops)
      invariant records == SegmentsBefore(stops, stopTimes, i)
    {
      var startNode := stops[i];
      var endNode := stops[i + 1];
      if startNode.id in stopTimes && endNode.id in stopTimes && stopTimes[endNode.id] > stopTimes[startNode.id] {
        var t1 := stopTimes[startNode.id];
        var t2 := stopTimes[endNode.id];
        var duration := (t2 - t1) as real / 60.0;
        if MinMinutes < duration < MaxMinutes {
          records := records + [Segment(DayNumber(t1), HourOf(t1), DayOfWeek(t1), startNode.name, endNode.name, i, duration)];
        }
      }
    }
  }

  /** The records of one vehicle's trip. */
  function TripSegments(trip: seq<Ping>, stops: seq<Stop>): seq<Segment>
  {
    SegmentsBefore(stops, StopTimes(trip, stops), Pairs(stops))
  }

  /**
   * For one vehicle, pair `i` yields a record exactly when both stops have
   * an arrival and the second comes 30 to 3600 seconds (exclusive) after
   * the first, and then exactly one record, timed from the first arrival.
   */
  lemma TripSegmentIff(trip: seq<Ping>, stops: seq<Stop>, i: nat)
    requires i + 1 < |stops|
    ensures (exists q :: 0 <= q < |TripSegments(trip, stops)| && TripSegments(trip, stops)[q].index == i) <==>
      && stops[i].id in StopTimes(trip, stops) && stops[i + 1].id in StopTimes(trip, stops)
      && 30 < StopTimes(trip, stops)[stops[i + 1].id] - StopTimes(trip, stops)[stops[i].id] < 3600
    ensures forall q, q' :: 0 <= q < q' < |TripSegments(trip, stops)| ==>
      TripSegments(trip, stops)[q].index != TripSegments(trip, stops)[q'].index
    ensures forall q :: 0 <= q < |TripSegments(trip, stops)| && TripSegments(trip, stops)[q].index == i ==>
      TripSegments(trip, stops)[q].hour == HourOf(StopTimes(trip, stops)[stops[i].id])
  {
    var times := StopTimes(trip, stops);
    var r := SegmentsBefore(stops, times, Pairs(stops));
    assert TripSegments(trip, stops) == r;
    if SegmentAt(stops, times, i).Some? {
      SegmentEmitted(stops, times, Pairs(stops), i);
    } else {
      forall q | 0 <= q < |r|
        ensures r[q].index != i
      {
        assert SegmentAt(stops, times, r[q].index) == Some(r[q]);
      }
    }
  }

  /** The vehicle of each GPS ping, in row order: the key `groupby` groups on. */
  function PingVehicles(rows: seq<Ping>): seq<string>
  {
    seq(|rows|, i requires 0 <= i < |rows| => rows[i].vehicle)
  }

  /** `groupby('anonymized_vehicle')`: the rows of one vehicle, in their order. */
  function Trip(rows: seq<Ping>, v: string): seq<Ping>
  {
    Select(rows, TripMask(rows, v))
  }

  function TripMask(rows: seq<Ping>, v: string): seq<bool>
  {
    MaskOf(rows, (p: Ping) => p.vehicle == v)
  }

  /** The records of the vehicles `vehicles`, one vehicle after another. */
  function VehiclesSegments(rows: seq<Ping>, vehicles: seq<string>, stops: seq<Stop>): (r: seq<Segment>)
    ensures forall q :: 0 <= q < |r| ==> WellFormed(r[q], stops)
  {
    if |vehicles| == 0 then []
    else
      VehiclesSegments(rows, vehicles[..|vehicles| - 1], stops)
        + TripSegments(Trip(rows, vehicles[|vehicles| - 1]), stops)
  }

  /** The records one GPS file contributes. */
  function FileSegments(rows: seq<Ping>, targets: set<string>, stops: seq<Stop>): (r: seq<Segment>)
    ensures forall q :: 0 <= q < |r| ==> WellFormed(r[q], stops)
  {
    var gps := Select(rows, TargetMask(rows, targets));
    if |gps| == 0 then []
    else
      var sorted := SortRows(gps);
      VehiclesSegments(sorted, Distinct(PingVehicles(sorted)), stops)
  }

  /** The records of the files `files`, file after file. */
  function Dataset(files: seq<GpsFile>, targets: set<string>, stops: seq<Stop>): (r: seq<Segment>)
    ensures forall q :: 0 <= q < |r| ==> WellFormed(r[q], stops)
  {
    if |files| == 0 then []
    else
      var last := files[|files| - 1];
      Dataset(files[..|files| - 1], targets, stops)
        + if last.GpsTable? then FileSegments(last.rows, targets, stops) else []
  }

  /** The body of the `try` block for one GPS file. */
  method FileTravelTimes(rows: seq<Ping>, targets: set<string>, stops: seq<Stop>) returns (records: seq<Segment>)
    ensures records == FileSegments(rows, targets, stops)
  {
    records := [];
    var gps := ApplyMask(rows, TargetMask(rows, targets));
    if |gps| == 0 {
      return;
    }
    var sorted := SortRows(gps);
    records := GroupTravelTimes(sorted, Distinct(PingVehicles(sorted)), stops);
  }

  /** The loop over the vehicle groups of one sorted file. */
  method GroupTravelTimes(sorted: seq<Ping>, vehicles: seq<string>, stops: seq<Stop>) returns (records: seq<Segment>)
    ensures records == VehiclesSegments(sorted, vehicles, stops)
  {
    records := [];
    for k := 0 to |vehicles|
      invariant records == VehiclesSegments(sorted, vehicles[..k], stops)
    {
      assert vehicles[..k + 1][..k] == vehicles[..k];
      var tripData := ApplyMask(sorted, TripMask(sorted, vehicles[k]));
      var stopTimes := ArrivalTimes(tripData, stops);
      var segments := SegmentRecords(stops, stopTimes);
      records := records + segments;
    }
    assert vehicles[..|vehicles|] == vehicles;
  }

  /** `create_travel_time_dataset` from the mapping, the stops and the GPS files. */
  method CreateTravelTimeDataset(mapping: seq<MappingEntry>, stops: seq<Stop>, files: seq<GpsFile>)
    returns (dataset: seq<Segment>)
    ensures dataset == Dataset(files, TargetVehicles(mapping), stops)
  {
    var targets := TargetVehicles(mapping);
    dataset := [];
    for f := 0 to |files|
      invariant dataset == Dataset(files[..f], targets, stops)
    {
      assert files[..f + 1][..f] == files[..f];
      if files[f].GpsTable? {
        var records := FileTravelTimes(files[f].rows, targets, stops);
        dataset := dataset + records;
      }
    }
    assert files[..|files|] == files;
  }

  /** After sorting, one vehicle's trip is that vehicle's rows in time order. */
  lemma TripChronological(sorted: seq<Ping>, v: string)
    requires Sorted(sorted)
    ensures forall i :: 0 <= i < |Trip(sorted, v)| ==> Trip(sorted, v)[i].vehicle == v
    ensures forall i, j :: 0 <= i < j < |Trip(sorted, v)| ==> Trip(sorted, v)[i].time <= Trip(sorted, v)[j].time
  {
    var m := TripMask(sorted, v);
    SortedIsGrouped(sorted);
    SelectSatisfies(sorted, m, (p: Ping) => p.vehicle == v);
    SelectKeepsPairs(sorted, m, (p: Ping, q: Ping) => p.vehicle == q.vehicle ==> p.time <= q.time);
  }

  /**
   * A vehicle's arrival at a stop is the time of one of its pings near the
   * stop, no later than any other of them, and there is none when it never
   * came near.
   */
  lemma VehicleArrival(sorted: seq<Ping>, v: string, s: Stop)
    requires Sorted(sorted)
    ensures Arrival(Trip(sorted, v), s).None? <==>
      forall i :: 0 <= i < |sorted| && sorted[i].vehicle == v ==> !NearStop(sorted[i], s)
    ensures Arrival(Trip(sorted, v), s).Some? ==>
      forall i :: 0 <= i < |sorted| && sorted[i].vehicle == v && NearStop(sorted[i], s) ==>
        Arrival(Trip(sorted, v), s).value <= sorted[i].time
    ensures Arrival(Trip(sorted, v), s).Some? ==>
      exists i :: 0 <= i < |sorted| && sorted[i].vehicle == v && NearStop(sorted[i], s) &&
        sorted[i].time == Arrival(Trip(sorted, v), s).value
  {
    var trip := Trip(sorted, v);
    TripChronological(sorted, v);
    ArrivalIsEarliest(trip, s);
    TripRows(sorted, v);
    if Arrival(trip, s).Some? {
      var k :| 0 <= k < |trip| && NearStop(trip[k], s) && trip[k].time == Arrival(trip, s).value;
      TripRowOrigin(sorted, v, k);
    }
  }

  /** Every row of a vehicle appears in its trip. */
  lemma TripRows(sorted: seq<Ping>, v: string)
    ensures forall i :: 0 <= i < |sorted| && sorted[i].vehicle == v ==>
      Rank(TripMask(sorted, v), i) < |Trip(sorted, v)| && Trip(sorted, v)[Rank(TripMask(sorted, v), i)] == sorted[i]
  {
    forall i | 0 <= i < |sorted| && sorted[i].vehicle == v
      ensures Rank(TripMask(sorted, v), i) < |Trip(sorted, v)| && Trip(sorted, v)[Rank(TripMask(sorted, v), i)] == sorted[i]
    {
      SelectAt(sorted, TripMask(sorted, v), i);
    }
  }

  /** Every element of a vehicle's trip is one of the file's rows of that vehicle. */
  lemma TripRowOrigin(sorted: seq<Ping>, v: string, k: nat)
    requires k < |Trip(sorted, v)|
    ensures exists i :: 0 <= i < |sorted| && sorted[i].vehicle == v && sorted[i] == Trip(sorted, v)[k]
  {
    SelectFrom(sorted, TripMask(sorted, v), k);
  }

  /** A GPS row of a vehicle outside the target set changes nothing. */
  lemma NonTargetRowIgnored(before: seq<Ping>, p: Ping, after: seq<Ping>, targets: set<string>, stops: seq<Stop>)
    requires p.vehicle !in targets
    ensures FileSegments(before + [p] + after, targets, stops) == FileSegments(before + after, targets, stops)
  {
    var ma, mb := TargetMask(before, targets), TargetMask(after, targets);
    assert TargetMask(before + [p] + after, targets) == ma + [false] + mb;
    assert TargetMask(before + after, targets) == ma + mb;
    SelectDrop(before, ma, p, after, mb);
  }
}
