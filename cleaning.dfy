/**
 * Phase 1 of the trajectory cleaner (`process_one_file`): sort the pings by
 * vehicle and time, reconcile each ping's speed, drop the night hours, and
 * trim each vehicle's idle head and tail ("Smart Trim").
 */
module Cleaning {
  import opened Wrappers
  import opened Rows
  import opened Pings

  /**
   * Great-circle distance in metres from `(lng1, lat1)` to `(lng2, lat2)`
   * (`haversine_np`); its trigonometry is not part of this model.
   */
  type Haversine = (real, real, real, real) -> real

  /** A ping is moving when its speed exceeds this many km/h. */
  const MovingSpeed: real := 3.0
  /** Service runs from 04:00 up to, not including, 23:00. */
  const FirstServiceHour := 4
  const NightHour := 23

  // ---------------------------------------------------------------------
  // C. Speed
  // ---------------------------------------------------------------------

  /**
   * `dist_meters / time_diff_seconds * 3.6` in km/h, where a zero elapsed
   * time (an infinite or NaN quotient) becomes "absent".
   */
  function ObservedSpeed(meters: real, seconds: int): (v: Option<real>)
    ensures v.None? <==> seconds == 0
    ensures v.Some? ==> v.value * (seconds as real) == meters * 3.6
  {
    if seconds == 0 then None else Some((meters / (seconds as real)) * 3.6)
  }

  /**
   * The observed speed of row `i`, from the previous row of the same vehicle
   * (`groupby(...).shift(1)`). This reads the previous row of the same
   * vehicle as row `i - 1`, which holds only in rows grouped by vehicle, as
   * the sorted rows of `process_one_file` are.
   */
  function ObservedAt(rows: seq<Ping>, i: nat, dist: Haversine): Option<real>
    requires i < |rows|
  {
    if i > 0 && rows[i - 1].vehicle == rows[i].vehicle then
      ObservedSpeed(dist(rows[i - 1].lng, rows[i - 1].lat, rows[i].lng, rows[i].lat),
                    rows[i].time - rows[i - 1].time)
    else None
  }

  /**
   * In rows grouped by vehicle, the observed speed is absent exactly for a
   * vehicle's first ping and for a ping with the same timestamp as the one
   * before it.
   */
  lemma ObservedSpeedAbsent(rows: seq<Ping>, i: nat, dist: Haversine)
    requires Grouped(rows) && i < |rows|
    ensures ObservedAt(rows, i, dist).None? <==>
      (forall j :: 0 <= j < i ==> rows[j].vehicle != rows[i].vehicle)
      || (i > 0 && rows[i - 1].time == rows[i].time)
  {
    if i > 0 && rows[i - 1].vehicle != rows[i].vehicle {
      assert forall j :: 0 <= j < i ==> rows[j].vehicle != rows[i].vehicle;
    }
  }

  /**
   * The speed-reconciliation policy: a missing reported speed takes the
   * observed one (which may itself be missing); with both present the
   * speed is their mean; with only the reported one it stays.
   */
  function Reconcile(reported: Option<real>, observed: Option<real>): (s: Option<real>)
    ensures s.Some? <==> reported.Some? || observed.Some?
    ensures reported.None? ==> s == observed
    ensures observed.None? ==> s == reported
    ensures reported.Some? && observed.Some? ==>
      s.value - reported.value == observed.value - s.value
  {
    match reported
    case None => observed
    case Some(r) => if observed.Some? then Some((r + observed.value) / 2.0) else reported
  }

  /** The rows with their speeds reconciled; nothing but `speed` changes. */
  function Reconciled(rows: seq<Ping>, dist: Haversine): (r: seq<Ping>)
    ensures |r| == |rows|
  {
    seq(|rows|, i requires 0 <= i < |rows| =>
      rows[i].(speed := Reconcile(rows[i].speed, ObservedAt(rows, i, dist))))
  }

  /**
   * Section C of `process_one_file`: the observed-speed column, then the
   * fill of missing speeds, then the averaging of the rows that had a
   * reported speed (the averaging mask is taken before the fill, so a
   * filled row is not averaged again).
   */
  method ReconcileSpeeds(rows: seq<Ping>, dist: Haversine) returns (r: seq<Ping>)
    requires Grouped(rows)
    ensures r == Reconciled(rows, dist)
  {
    var n := |rows|;
    var gps := seq(n, i requires 0 <= i < n => ObservedAt(rows, i, dist));
    var wasNull := seq(n, i requires 0 <= i < n => rows[i].speed.None?);
    var filled := FillMissing(rows, gps);
    r := AverageReported(filled, wasNull, gps);
    forall k | 0 <= k < n
      ensures r[k] == Reconciled(rows, dist)[k]
    {
      FillThenAverage(rows[k], gps[k], filled[k], r[k]);
    }
  }

  /** Filling and then averaging one row is `Reconcile` on that row. */
  lemma FillThenAverage(p: Ping, observed: Option<real>, filled: Ping, averaged: Ping)
    requires filled == if p.speed.None? then p.(speed := observed) else p
    requires averaged == if p.speed.Some? && observed.Some? && filled.speed.Some?
                         then filled.(speed := Some((filled.speed.value + observed.value) / 2.0))
                         else filled
    ensures averaged == p.(speed := Reconcile(p.speed, observed))
  {
  }

  /** `fillna`: a missing speed takes the observed one; other rows are untouched. */
  method FillMissing(rows: seq<Ping>, gps: seq<Option<real>>) returns (r: seq<Ping>)
    requires |gps| == |rows|
    ensures |r| == |rows|
    ensures forall k :: 0 <= k < |rows| ==>
      r[k] == if rows[k].speed.None? then rows[k].(speed := gps[k]) else rows[k]
  {
    r := rows;
    for i := 0 to |rows|
      invariant |r| == |rows|
      invariant forall k :: 0 <= k < |rows| ==>
        r[k] == if k < i && rows[k].speed.None? then rows[k].(speed := gps[k]) else rows[k]
    {
      if rows[i].speed.None? {
        r := r[i := r[i].(speed := gps[i])];
      }
    }
  }

  /**
   * The averaging step: a row whose speed was reported (before the fill)
   * and that has an observed speed gets the mean of the two.
   */
  method AverageReported(rows: seq<Ping>, wasNull: seq<bool>, gps: seq<Option<real>>)
    returns (r: seq<Ping>)
    requires |wasNull| == |rows| && |gps| == |rows|
    ensures |r| == |rows|
    ensures forall k :: 0 <= k < |rows| ==>
      r[k] == if !wasNull[k] && gps[k].Some? && rows[k].speed.Some?
              then rows[k].(speed := Some((rows[k].speed.value + gps[k].value) / 2.0))
              else rows[k]
  {
    r := rows;
    for i := 0 to |rows|
      invariant |r| == |rows|
      invariant forall k :: 0 <= k < |rows| ==>
        r[k] == if k < i && !wasNull[k] && gps[k].Some? && rows[k].speed.Some?
                then rows[k].(speed := Some((rows[k].speed.value + gps[k].value) / 2.0))
                else rows[k]
    {
      if !wasNull[i] && gps[i].Some? && r[i].speed.Some? {
        r := r[i := r[i].(speed := Some((r[i].speed.value + gps[i].value) / 2.0))];
      }
    }
  }

  /** Reconciling speeds changes neither vehicles nor times, so order survives it. */
  lemma ReconciledKeepsOrder(rows: seq<Ping>, dist: Haversine)
    requires Sorted(rows)
    ensures Sorted(Reconciled(rows, dist))
  {
    var r := Reconciled(rows, dist);
    assert forall i :: 0 <= i < |r| ==> r[i].vehicle == rows[i].vehicle && r[i].time == rows[i].time;
  }

  // ---------------------------------------------------------------------
  // D. Service hours
  // ---------------------------------------------------------------------

  /** `~((hour >= 23) | (hour < 4))` */
  predicate InServiceHours(h: int)
  {
    !(h >= NightHour || h < FirstServiceHour)
  }

  function ServiceMask(rows: seq<Ping>): (m: seq<bool>)
    ensures |m| == |rows|
  {
    seq(|rows|, i requires 0 <= i < |rows| => InServiceHours(HourOf(rows[i].time)))
  }

  /**
   * Section D: keep a row exactly when its hour lies in 4..22, in the
   * original order.
   */
  method DropNightHours(rows: seq<Ping>) returns (r: seq<Ping>)
    ensures r == Select(rows, ServiceMask(rows))
    ensures forall p :: p in r ==> 4 <= HourOf(p.time) < 23
    ensures forall i :: 0 <= i < |rows| && 4 <= HourOf(rows[i].time) < 23 ==> rows[i] in r
  {
    var m := ServiceMask(rows);
    r := ApplyMask(rows, m);
    forall p | p in r
      ensures 4 <= HourOf(p.time) < 23
    {
      SelectMembers(rows, m, p);
    }
    forall i | 0 <= i < |rows| && 4 <= HourOf(rows[i].time) < 23
      ensures rows[i] in r
    {
      SelectAt(rows, m, i);
    }
  }

  // ---------------------------------------------------------------------
  // E. Smart Trim
  // ---------------------------------------------------------------------

  /** `speed > 3.0`; an absent (NaN) speed is not moving. */
  predicate Moving(p: Ping)
  {
    p.speed.Some? && p.speed.value > MovingSpeed
  }

  /** `cumsum_fwd > 0`: this ping or an earlier one of its vehicle is moving. */
  ghost predicate MovedBy(rows: seq<Ping>, i: nat)
    requires i < |rows|
  {
    exists j :: 0 <= j <= i && rows[j].vehicle == rows[i].vehicle && Moving(rows[j])
  }

  /** `cumsum_bwd > 0`: this ping or a later one of its vehicle is moving. */
  ghost predicate MovesLater(rows: seq<Ping>, i: nat)
    requires i < |rows|
  {
    exists j :: i <= j < |rows| && rows[j].vehicle == rows[i].vehicle && Moving(rows[j])
  }

  /** `mask_core` */
  ghost predicate Core(rows: seq<Ping>, i: nat)
    requires i < |rows|
  {
    MovedBy(rows, i) && MovesLater(rows, i)
  }

  /**
   * `final_mask`: the ping is core, or the next ping of its vehicle is core
   * (start buffer), or the previous one is (end buffer). The next and
   * previous pings of the vehicle are the adjacent rows of the same vehicle,
   * which holds in rows grouped by vehicle, as `SmartTrim` requires.
   */
  ghost predicate Kept(rows: seq<Ping>, i: nat)
    requires i < |rows|
  {
    || Core(rows, i)
    || (i + 1 < |rows| && rows[i + 1].vehicle == rows[i].vehicle && Core(rows, i + 1))
    || (i > 0 && rows[i - 1].vehicle == rows[i].vehicle && Core(rows, i - 1))
  }

  ghost function TrimMask(rows: seq<Ping>): (m: seq<bool>)
    ensures |m| == |rows|
  {
    seq(|rows|, i requires 0 <= i < |rows| => Kept(rows, i))
  }

  /** The rows Smart Trim keeps, in order. */
  ghost function Trimmed(rows: seq<Ping>): seq<Ping>
  {
    Select(rows, TrimMask(rows))
  }

  /** One step of the forward scan, valid when each vehicle's rows are contiguous. */
  lemma MovedByStep(rows: seq<Ping>, i: nat)
    requires Grouped(rows) && i < |rows|
    ensures MovedBy(rows, i) <==>
      Moving(rows[i]) || (i > 0 && rows[i - 1].vehicle == rows[i].vehicle && MovedBy(rows, i - 1))
  {
    if MovedBy(rows, i) && !Moving(rows[i]) {
      var j :| 0 <= j <= i && rows[j].vehicle == rows[i].vehicle && Moving(rows[j]);
      if j < i - 1 {
        assert rows[i - 1].vehicle == rows[j].vehicle;
      }
      assert rows[j].vehicle == rows[i - 1].vehicle;
    }
    if i > 0 && rows[i - 1].vehicle == rows[i].vehicle && MovedBy(rows, i - 1) {
      var j :| 0 <= j <= i - 1 && rows[j].vehicle == rows[i - 1].vehicle && Moving(rows[j]);
      assert 0 <= j <= i && rows[j].vehicle == rows[i].vehicle;
    }
  }

  /** One step of the backward scan, valid when each vehicle's rows are contiguous. */
  lemma MovesLaterStep(rows: seq<Ping>, i: nat)
    requires Grouped(rows) && i < |rows|
    ensures MovesLater(rows, i) <==>
      Moving(rows[i]) || (i + 1 < |rows| && rows[i + 1].vehicle == rows[i].vehicle && MovesLater(rows, i + 1))
  {
    if MovesLater(rows, i) && !Moving(rows[i]) {
      var j :| i <= j < |rows| && rows[j].vehicle == rows[i].vehicle && Moving(rows[j]);
      if j > i + 1 {
        assert rows[i + 1].vehicle == rows[i].vehicle;
      }
      assert rows[j].vehicle == rows[i + 1].vehicle;
    }
    if i + 1 < |rows| && rows[i + 1].vehicle == rows[i].vehicle && MovesLater(rows, i + 1) {
      var j :| i + 1 <= j < |rows| && rows[j].vehicle == rows[i + 1].vehicle && Moving(rows[j]);
      assert i <= j < |rows| && rows[j].vehicle == rows[i].vehicle;
    }
  }

  /** `is_moving` and the forward OR scan per vehicle (`cumsum_fwd > 0`). */
  method ForwardScan(rows: seq<Ping>) returns (isMoving: array<bool>, fwd: array<bool>)
    requires Grouped(rows)
    ensures fresh(isMoving) && fresh(fwd)
    ensures isMoving.Length == |rows| && fwd.Length == |rows|
    ensures forall k :: 0 <= k < |rows| ==> isMoving[k] == Moving(rows[k])
    ensures forall k :: 0 <= k < |rows| ==> fwd[k] == MovedBy(rows, k)
  {
    var n := |rows|;
    isMoving := new bool[n];
    for i := 0 to n
      modifies isMoving
      invariant forall k :: 0 <= k < i ==> isMoving[k] == Moving(rows[k])
    {
      isMoving[i] := Moving(rows[i]);
    }
    fwd := new bool[n];
    for i := 0 to n
      modifies fwd
      invariant forall k :: 0 <= k < i ==> fwd[k] == MovedBy(rows, k)
    {
      MovedByStep(rows, i);
      fwd[i] := isMoving[i] || (i > 0 && rows[i - 1].vehicle == rows[i].vehicle && fwd[i - 1]);
    }
  }

  /** The backward OR scan per vehicle (`cumsum_bwd > 0`). */
  method BackwardScan(rows: seq<Ping>, isMoving: array<bool>) returns (bwd: array<bool>)
    requires Grouped(rows) && isMoving.Length == |rows|
    requires forall k :: 0 <= k < |rows| ==> isMoving[k] == Moving(rows[k])
    ensures fresh(bwd) && bwd.Length == |rows|
    ensures forall k :: 0 <= k < |rows| ==> bwd[k] == MovesLater(rows, k)
  {
    var n := |rows|;
    bwd := new bool[n];
    var i := n;
    while i > 0
      modifies bwd
      invariant 0 <= i <= n
      invariant forall k :: i <= k < n ==> bwd[k] == MovesLater(rows, k)
    {
      i := i - 1;
      MovesLaterStep(rows, i);
      bwd[i] := isMoving[i] || (i + 1 < n && rows[i + 1].vehicle == rows[i].vehicle && bwd[i + 1]);
    }
  }

  /**
   * Section E on rows grouped by vehicle: the moving flags, a forward OR
   * scan and a backward OR scan per vehicle, the buffered mask, the filter.
   */
  method SmartTrim(rows: seq<Ping>) returns (r: seq<Ping>)
    requires Grouped(rows)
    ensures r == Trimmed(rows)
  {
    var n := |rows|;
    var isMoving, fwd := ForwardScan(rows);
    var bwd := BackwardScan(rows, isMoving);
    var keep := BufferedMask(rows, fwd, bwd);
    r := ApplyMask(rows, keep[..]);
  }

  /** A row is kept when it, or its same-vehicle neighbour, is in the active core. */
  method BufferedMask(rows: seq<Ping>, fwd: array<bool>, bwd: array<bool>) returns (keep: array<bool>)
    requires Grouped(rows)
    requires fwd.Length == |rows| && bwd.Length == |rows|
    requires forall k :: 0 <= k < |rows| ==> fwd[k] == MovedBy(rows, k)
    requires forall k :: 0 <= k < |rows| ==> bwd[k] == MovesLater(rows, k)
    ensures fresh(keep) && keep[..] == TrimMask(rows)
  {
    var n := |rows|;
    keep := new bool[n];
    for i := 0 to n
      modifies keep
      invariant forall k :: 0 <= k < i ==> keep[k] == Kept(rows, k)
    {
      keep[i] :=
        || (fwd[i] && bwd[i])
        || (i + 1 < n && rows[i + 1].vehicle == rows[i].vehicle && fwd[i + 1] && bwd[i + 1])
        || (i > 0 && rows[i - 1].vehicle == rows[i].vehicle && fwd[i - 1] && bwd[i - 1]);
    }
  }

  /** Some ping of vehicle `v` at index at most `hi` is moving. */
  ghost predicate MovingAtOrBefore(rows: seq<Ping>, v: VehicleId, hi: int)
  {
    exists j :: 0 <= j < |rows| && j <= hi && rows[j].vehicle == v && Moving(rows[j])
  }

  /** Some ping of vehicle `v` at index at least `lo` is moving. */
  ghost predicate MovingAtOrAfter(rows: seq<Ping>, v: VehicleId, lo: int)
  {
    exists k :: 0 <= k < |rows| && lo <= k && rows[k].vehicle == v && Moving(rows[k])
  }

  /**
   * A ping is kept exactly when a moving ping of its vehicle lies no later
   * than one step after it and another no earlier than one step before it.
   */
  lemma KeptNearMovement(rows: seq<Ping>, i: nat)
    requires i < |rows|
    ensures Kept(rows, i) <==>
      MovingAtOrBefore(rows, rows[i].vehicle, i + 1) && MovingAtOrAfter(rows, rows[i].vehicle, i - 1)
  {
    var v := rows[i].vehicle;
    if MovingAtOrBefore(rows, v, i + 1) && MovingAtOrAfter(rows, v, i - 1) {
      var j :| 0 <= j < |rows| && j <= i + 1 && rows[j].vehicle == v && Moving(rows[j]);
      var k :| 0 <= k < |rows| && i - 1 <= k && rows[k].vehicle == v && Moving(rows[k]);
      if j == i + 1 {
        assert MovedBy(rows, j) && MovesLater(rows, j);
      } else if k + 1 == i {
        assert MovedBy(rows, k) && MovesLater(rows, k);
      } else {
        assert MovedBy(rows, i) && MovesLater(rows, i);
      }
    }
  }

  /** Every moving ping survives the trim. */
  lemma TrimKeepsMoving(rows: seq<Ping>, i: nat)
    requires i < |rows| && Moving(rows[i])
    ensures TrimMask(rows)[i] && rows[i] in Trimmed(rows)
  {
    assert MovedBy(rows, i) && MovesLater(rows, i);
    SelectAt(rows, TrimMask(rows), i);
  }

  /** A vehicle none of whose pings is moving disappears entirely. */
  lemma TrimDropsIdleVehicles(rows: seq<Ping>, v: VehicleId)
    requires forall i :: 0 <= i < |rows| && rows[i].vehicle == v ==> !Moving(rows[i])
    ensures forall p :: p in Trimmed(rows) ==> p.vehicle != v
  {
    forall p | p in Trimmed(rows)
      ensures p.vehicle != v
    {
      SelectMembers(rows, TrimMask(rows), p);
      var i :| 0 <= i < |rows| && TrimMask(rows)[i] && rows[i] == p;
      KeptNearMovement(rows, i);
    }
  }

  /**
   * Per vehicle the kept pings form one window: from one ping before the
   * first moving ping to one ping after the last, clamped to the rows.
   */
  lemma TrimWindow(rows: seq<Ping>, i: nat, first: nat, last: nat)
    requires i < |rows| && first <= last < |rows|
    requires rows[first].vehicle == rows[i].vehicle && rows[last].vehicle == rows[i].vehicle
    requires Moving(rows[first]) && Moving(rows[last])
    requires forall j :: 0 <= j < first && rows[j].vehicle == rows[i].vehicle ==> !Moving(rows[j])
    requires forall j :: last < j < |rows| && rows[j].vehicle == rows[i].vehicle ==> !Moving(rows[j])
    ensures TrimMask(rows)[i] <==> first <= i + 1 && i <= last + 1
  {
    KeptNearMovement(rows, i);
  }

  /** speeds `[0, 0, 20, 0]` of one vehicle: indices 1, 2 and 3 are kept. */
  lemma TrimExample(v: VehicleId)
    ensures
      var p := (t: int, s: real) => Ping(v, t, 10.8, 106.7, Some(s), 0, 0);
      var rows := [p(0, 0.0), p(60, 0.0), p(120, 20.0), p(180, 0.0)];
      TrimMask(rows) == [false, true, true, true]
  {
    var p := (t: int, s: real) => Ping(v, t, 10.8, 106.7, Some(s), 0, 0);
    var rows := [p(0, 0.0), p(60, 0.0), p(120, 20.0), p(180, 0.0)];
    assert Moving(rows[2]) && !Moving(rows[0]) && !Moving(rows[1]) && !Moving(rows[3]);
    forall i | 0 <= i < 4
      ensures TrimMask(rows)[i] == (i != 0)
    {
      TrimWindow(rows, i, 2, 2);
    }
  }

  /** Every row of a trimmed trajectory is kept by a second trim. */
  lemma TrimmedRowKept(rows: seq<Ping>, p: nat)
    requires p < |Trimmed(rows)|
    ensures Kept(Trimmed(rows), p)
  {
    var m := TrimMask(rows);
    var out := Trimmed(rows);
    SelectFrom(rows, m, p);
    var i :| 0 <= i < |rows| && m[i] && Rank(m, i) == p && out[p] == rows[i];
    KeptNearMovement(rows, i);
    var v := rows[i].vehicle;
    var j :| 0 <= j < |rows| && j <= i + 1 && rows[j].vehicle == v && Moving(rows[j]);
    var k :| 0 <= k < |rows| && i - 1 <= k && rows[k].vehicle == v && Moving(rows[k]);
    TrimKeepsMoving(rows, j);
    TrimKeepsMoving(rows, k);
    SelectAt(rows, m, j);
    SelectAt(rows, m, k);
    var j', k' := Rank(m, j), Rank(m, k);
    RankWithinOne(m, j, i);
    RankWithinOne(m, i, k);
    assert MovingAtOrBefore(out, v, p + 1) by {
      assert j' <= p + 1 && out[j'].vehicle == v && Moving(out[j']);
    }
    assert MovingAtOrAfter(out, v, p - 1) by {
      assert p - 1 <= k' && out[k'].vehicle == v && Moving(out[k']);
    }
    KeptNearMovement(out, p);
  }

  /** Trimming an already trimmed trajectory returns it unchanged. */
  lemma TrimIdempotent(rows: seq<Ping>)
    ensures Trimmed(Trimmed(rows)) == Trimmed(rows)
  {
    var out := Trimmed(rows);
    forall p | 0 <= p < |out|
      ensures TrimMask(out)[p]
    {
      TrimmedRowKept(rows, p);
    }
    SelectAll(out, TrimMask(out));
  }

  // ---------------------------------------------------------------------
  // The whole of phase 1
  // ---------------------------------------------------------------------

  /** What `process_one_file` writes for one raw file. */
  ghost function Cleaned(raw: seq<Ping>, dist: Haversine): seq<Ping>
  {
    var sorted := SortRows(raw);
    var speeds := Reconciled(sorted, dist);
    var daytime := Select(speeds, ServiceMask(speeds));
    if |daytime| == 0 then daytime else Trimmed(daytime)
  }

  /** `process_one_file` without its file reading and writing. */
  method ProcessOneFile(raw: seq<Ping>, dist: Haversine) returns (clean: seq<Ping>)
    ensures clean == Cleaned(raw, dist)
  {
    var sorted := SortRows(raw);
    SortedIsGrouped(sorted);
    var speeds := ReconcileSpeeds(sorted, dist);
    var daytime := DropNightHours(speeds);
    clean := daytime;
    if |daytime| > 0 {
      ReconciledKeepsOrder(sorted, dist);
      SelectKeepsPairs(speeds, ServiceMask(speeds), KeyLe);
      SortedIsGrouped(daytime);
      clean := SmartTrim(daytime);
    }
  }

  /**
   * The cleaned file is sorted by vehicle and time, each vehicle's rows are
   * contiguous, and every row lies in service hours.
   */
  lemma CleanedIsSortedAndInService(raw: seq<Ping>, dist: Haversine)
    ensures Sorted(Cleaned(raw, dist)) && Grouped(Cleaned(raw, dist))
    ensures forall p :: p in Cleaned(raw, dist) ==> InServiceHours(HourOf(p.time))
  {
    var sorted := SortRows(raw);
    var speeds := Reconciled(sorted, dist);
    var sm := ServiceMask(speeds);
    var daytime := Select(speeds, sm);
    ReconciledKeepsOrder(sorted, dist);
    SelectKeepsPairs(speeds, sm, KeyLe);
    SelectKeepsPairs(daytime, TrimMask(daytime), KeyLe);
    SortedIsGrouped(Cleaned(raw, dist));
    forall p | p in Cleaned(raw, dist)
      ensures InServiceHours(HourOf(p.time))
    {
      if |daytime| > 0 {
        SelectMembers(daytime, TrimMask(daytime), p);
      }
      SelectMembers(speeds, sm, p);
    }
  }
}
