/**
 * `identify_vehicles_in_file`: for every vehicle of one GPS file, the route
 * whose skeleton lies nearest, on average, to a sample of the vehicle's
 * positions, or the off-duty label when even that route is too far away.
 *
 * The point-to-polyline distance (shapely's `Point.distance(LineString)`)
 * and the random choice of `sample(50)` are inputs: `dist` and `draw`.
 */
module RouteMatching {
  import opened Wrappers
  import opened Rows
  import opened RouteSkeletons

  /** A coordinate cell once `pd.to_numeric(errors='coerce')` has read it. */
  datatype Coordinate = Blank | NotNumeric | Degrees(x: real)

  /** The three columns read from a GPS file: `lng, lat, anonymized_vehicle`. */
  datatype GpsRow = GpsRow(lng: Coordinate, lat: Coordinate, vehicle: Option<string>)

  /** A position of a vehicle, once its row is known to be usable. */
  datatype Fix = Fix(vehicle: string, at: Point)

  /** The best route found so far and its score; `float('inf')` is `Infinite`. */
  datatype Score = Infinite | Finite(value: real)
  datatype Choice = Choice(route: string, score: Score)

  /** One row of the mapping table. */
  datatype MappingRecord = MappingRecord(dateFile: string, vehicle: string, route: string, score: Score)

  /** `pt.distance(r_shape)` */
  type PointDistance = (Point, seq<Point>) -> real

  const SampleSize := 50
  const MatchThreshold := 0.003
  const NoRoute := "Unknown"
  const OffDuty := "Off-Duty/Unknown"

  // ---------------------------------------------------------------------
  // Row cleaning
  // ---------------------------------------------------------------------

  /**
   * A row survives both `dropna` calls exactly when its vehicle is present
   * and both coordinates are present and numeric.
   */
  predicate Usable(r: GpsRow)
  {
    r.lng.Degrees? && r.lat.Degrees? && r.vehicle.Some?
  }

  function UsableMask(rows: seq<GpsRow>): (m: seq<bool>)
    ensures |m| == |rows| && forall i :: 0 <= i < |rows| ==> m[i] == Usable(rows[i])
  {
    MaskOf(rows, Usable)
  }

  function ToFix(r: GpsRow): Fix
    requires Usable(r)
  {
    Fix(r.vehicle.value, Point(r.lng.x, r.lat.x))
  }

  /** The cleaned rows, in file order. */
  function Fixes(rows: seq<GpsRow>): (f: seq<Fix>)
    ensures |f| == Count(UsableMask(rows))
  {
    var m := UsableMask(rows);
    var clean := Select(rows, m);
    SelectSatisfies(rows, m, Usable);
    seq(|clean|, k requires 0 <= k < |clean| => ToFix(clean[k]))
  }

  /** No row survives cleaning exactly when no row is usable. */
  lemma NoFixesIffNoUsableRow(rows: seq<GpsRow>)
    ensures |Fixes(rows)| == 0 <==> forall i :: 0 <= i < |rows| ==> !Usable(rows[i])
  {
    var m := UsableMask(rows);
    if |Fixes(rows)| > 0 {
      SelectFrom(rows, m, 0);
    } else {
      forall i | 0 <= i < |rows|
        ensures !Usable(rows[i])
      {
        if Usable(rows[i]) {
          CountPositive(m, i);
        }
      }
    }
  }

  /** The vehicle of each cleaned row (`Fix`), in row order. */
  function FixVehicles(f: seq<Fix>): (vs: seq<string>)
    ensures |vs| == |f| && forall i :: 0 <= i < |f| ==> vs[i] == f[i].vehicle
  {
    seq(|f|, i requires 0 <= i < |f| => f[i].vehicle)
  }

  /** `df_gps['anonymized_vehicle'].unique()` */
  function Vehicles(rows: seq<GpsRow>): seq<string>
  {
    Distinct(FixVehicles(Fixes(rows)))
  }

  /** `df_gps['anonymized_vehicle'] == veh_id` */
  function VehicleMask(f: seq<Fix>, v: string): (m: seq<bool>)
    ensures |m| == |f| && forall i :: 0 <= i < |f| ==> m[i] == (f[i].vehicle == v)
  {
    seq(|f|, i requires 0 <= i < |f| => f[i].vehicle == v)
  }

  /** `veh_data`: the cleaned rows of one vehicle, in file order. */
  function OfVehicle(f: seq<Fix>, v: string): seq<Fix>
  {
    Select(f, VehicleMask(f, v))
  }

  /** A vehicle read from the cleaned rows has at least one row, all of them its own. */
  lemma OfVehicleNonEmpty(f: seq<Fix>, v: string)
    requires v in FixVehicles(f)
    ensures |OfVehicle(f, v)| > 0
    ensures forall k :: 0 <= k < |OfVehicle(f, v)| ==> OfVehicle(f, v)[k].vehicle == v
  {
    var i :| 0 <= i < |f| && FixVehicles(f)[i] == v;
    CountPositive(VehicleMask(f, v), i);
    SelectSatisfies(f, VehicleMask(f, v), (x: Fix) => x.vehicle == v);
  }

  // ---------------------------------------------------------------------
  // Sampling
  // ---------------------------------------------------------------------

  /** `sample(50)` on `n` rows picks 50 distinct row positions. */
  predicate DrawOk(idx: seq<nat>, n: nat)
  {
    && |idx| == SampleSize
    && (forall a :: 0 <= a < |idx| ==> idx[a] < n)
    && (forall a, b :: 0 <= a < b < |idx| ==> idx[a] != idx[b])
  }

  /** The random draws behave as pandas' sampling without replacement does. */
  ghost predicate IsDraw(draw: (string, nat) -> seq<nat>)
  {
    forall v: string, n: nat :: n > SampleSize ==> DrawOk(draw(v, n), n)
  }

  /**
   * The sample of one vehicle's rows: all of them when there are at most
   * 50, otherwise the 50 rows at the drawn positions.
   */
  function Sample(vf: seq<Fix>, v: string, draw: (string, nat) -> seq<nat>): (s: seq<Fix>)
    requires IsDraw(draw)
    ensures |s| == if |vf| > SampleSize then SampleSize else |vf|
    ensures forall k :: 0 <= k < |s| ==> s[k] in vf
  {
    if |vf| > SampleSize then
      var idx := draw(v, |vf|);
      assert DrawOk(idx, |vf|);
      seq(SampleSize, k requires 0 <= k < SampleSize => vf[idx[k]])
    else vf
  }

  /** `[Point(xy) for xy in zip(sample['lng'], sample['lat'])]` */
  function Points(s: seq<Fix>): (pts: seq<Point>)
    ensures |pts| == |s| && forall k :: 0 <= k < |s| ==> pts[k] == s[k].at
  {
    seq(|s|, k requires 0 <= k < |s| => s[k].at)
  }

  // ---------------------------------------------------------------------
  // Route choice
  // ---------------------------------------------------------------------

  /** `[pt.distance(r_shape) for pt in sample_points]` */
  function Distances(pts: seq<Point>, line: seq<Point>, dist: PointDistance): (ds: seq<real>)
    ensures |ds| == |pts| && forall k :: 0 <= k < |pts| ==> ds[k] == dist(pts[k], line)
  {
    seq(|pts|, k requires 0 <= k < |pts| => dist(pts[k], line))
  }

  /** `avg_dist`: the mean distance of the sample points to one skeleton. */
  function MeanDistance(pts: seq<Point>, s: Skeleton, dist: PointDistance): real
    requires |pts| > 0
  {
    Sum(Distances(pts, s.line, dist)) / (|pts| as real)
  }

  /** `avg_dist < min_score`, with every number below infinity. */
  predicate Improves(avg: real, best: Score)
  {
    best.Infinite? || avg < best.value
  }

  /** The mean distance of the sample to each skeleton, in iteration order. */
  function MeanDistances(skels: seq<Skeleton>, pts: seq<Point>, dist: PointDistance): (ms: seq<real>)
    requires |pts| > 0
    ensures |ms| == |skels| && forall i :: 0 <= i < |skels| ==> ms[i] == MeanDistance(pts, skels[i], dist)
  {
    seq(|skels|, i requires 0 <= i < |skels| => MeanDistance(pts, skels[i], dist))
  }

  /**
   * `best_route, min_score` after a loop over routes with the given means:
   * a route replaces the best one only when its mean is strictly smaller.
   */
  function Argmin(routes: seq<string>, means: seq<real>): Choice
    requires |routes| == |means|
  {
    if |routes| == 0 then Choice(NoRoute, Infinite)
    else
      var n := |routes| - 1;
      var c := Argmin(routes[..n], means[..n]);
      if Improves(means[n], c.score) then Choice(routes[n], Finite(means[n])) else c
  }

  /** `best_route, min_score` after the loop over the skeletons. */
  function BestRoute(skels: seq<Skeleton>, pts: seq<Point>, dist: PointDistance): Choice
  {
    if |pts| == 0 then Choice(NoRoute, Infinite)
    else Argmin(Keys(skels), MeanDistances(skels, pts, dist))
  }

  /** The loop over `route_shapes.items()` keeping the strictly better mean. */
  method ChooseRoute(skels: seq<Skeleton>, pts: seq<Point>, dist: PointDistance) returns (c: Choice)
    ensures c == BestRoute(skels, pts, dist)
  {
    var bestRoute := NoRoute;
    var minScore := Infinite;
    ghost var routes := Keys(skels);
    ghost var means := if |pts| > 0 then MeanDistances(skels, pts, dist) else [];
    for i := 0 to |skels|
      invariant |pts| == 0 ==> Choice(bestRoute, minScore) == Choice(NoRoute, Infinite)
      invariant |pts| > 0 ==> Choice(bestRoute, minScore) == Argmin(routes[..i], means[..i])
    {
      assert routes[..i + 1][..i] == routes[..i];
      assert |pts| > 0 ==> means[..i + 1][..i] == means[..i];
      var distances := Distances(pts, skels[i].line, dist);
      if |distances| > 0 {
        var avgDist := Sum(distances) / (|distances| as real);
        assert avgDist == means[i];
        if Improves(avgDist, minScore) {
          minScore := Finite(avgDist);
          bestRoute := skels[i].route;
        }
      }
    }
    assert routes[..|skels|] == routes;
    assert |pts| > 0 ==> means[..|skels|] == means;
    c := Choice(bestRoute, minScore);
  }

  /** Entry `i` is the smallest, and every earlier entry strictly larger. */
  ghost predicate EarliestMinimum(means: seq<real>, i: int)
    requires 0 <= i < |means|
  {
    && (forall j :: 0 <= j < i ==> means[j] > means[i])
    && (forall j :: i < j < |means| ==> means[j] >= means[i])
  }

  /** The score stays infinite, and the route the placeholder, only when there is no route. */
  lemma {:induction false} ArgminInfinite(routes: seq<string>, means: seq<real>)
    requires |routes| == |means|
    ensures Argmin(routes, means).score.Infinite? <==> |routes| == 0
    ensures Argmin(routes, means).score.Infinite? ==> Argmin(routes, means).route == NoRoute
    decreases |routes|
  {
    if |routes| > 0 {
      var n := |routes| - 1;
      ArgminInfinite(routes[..n], means[..n]);
    }
  }

  /** With a route at all, the choice is the earliest route of smallest mean, with that mean. */
  lemma {:induction false} ArgminIsEarliestMinimum(routes: seq<string>, means: seq<real>)
    requires |routes| == |means| > 0
    ensures exists i :: (0 <= i < |means| && EarliestMinimum(means, i) &&
      Argmin(routes, means) == Choice(routes[i], Finite(means[i])))
    decreases |routes|
  {
    var n := |routes| - 1;
    if n == 0 {
      assert Argmin(routes[..0], means[..0]) == Choice(NoRoute, Infinite);
      assert Argmin(routes, means) == Choice(routes[0], Finite(means[0]));
      assert EarliestMinimum(means, 0);
    } else {
      ArgminIsEarliestMinimum(routes[..n], means[..n]);
      var i :| 0 <= i < n && EarliestMinimum(means[..n], i)
        && Argmin(routes[..n], means[..n]) == Choice(routes[..n][i], Finite(means[..n][i]));
      EarliestMinimumSnoc(means, i);
      assert routes[..n][i] == routes[i] && means[..n][i] == means[i];
      if means[n] < means[i] {
        assert Argmin(routes, means) == Choice(routes[n], Finite(means[n]));
        assert EarliestMinimum(means, n);
      } else {
        assert Argmin(routes, means) == Choice(routes[i], Finite(means[i]));
        assert EarliestMinimum(means, i);
      }
    }
  }

  /** A new last entry either undercuts the minimum strictly or leaves it where it was. */
  lemma EarliestMinimumSnoc(means: seq<real>, i: nat)
    requires i < |means| - 1 && EarliestMinimum(means[..|means| - 1], i)
    ensures means[|means| - 1] < means[i] ==> EarliestMinimum(means, |means| - 1)
    ensures means[|means| - 1] >= means[i] ==> EarliestMinimum(means, i)
  {
    var n := |means| - 1;
    assert forall j :: 0 <= j < n ==> means[..n][j] == means[j];
  }

  /**
   * The score is infinite, and the route the `"Unknown"` placeholder,
   * exactly when there is no skeleton or no sample point.
   */
  lemma BestRouteInfinite(skels: seq<Skeleton>, pts: seq<Point>, dist: PointDistance)
    ensures BestRoute(skels, pts, dist).score.Infinite? <==> |skels| == 0 || |pts| == 0
    ensures BestRoute(skels, pts, dist).score.Infinite? ==> BestRoute(skels, pts, dist).route == NoRoute
  {
    if |pts| > 0 {
      ArgminInfinite(Keys(skels), MeanDistances(skels, pts, dist));
    }
  }

  /**
   * With at least one skeleton and one sample point, the chosen route is
   * the earliest skeleton of minimum mean distance, and the score is that
   * mean.
   */
  lemma BestRouteIsEarliestMinimum(skels: seq<Skeleton>, pts: seq<Point>, dist: PointDistance)
    requires |skels| > 0 && |pts| > 0
    ensures exists i :: (0 <= i < |skels| && EarliestMinimum(MeanDistances(skels, pts, dist), i) &&
      BestRoute(skels, pts, dist) == Choice(skels[i].route, Finite(MeanDistance(pts, skels[i], dist))))
  {
    ArgminIsEarliestMinimum(Keys(skels), MeanDistances(skels, pts, dist));
  }

  /** `min_score < 0.003` picks the route, anything else (infinity included) the off-duty label. */
  function Label(c: Choice): string
  {
    if c.score.Finite? && c.score.value < MatchThreshold then c.route else OffDuty
  }

  // ---------------------------------------------------------------------
  // The records of one file
  // ---------------------------------------------------------------------

  /** `sample_points` of vehicle `v`. */
  function SamplePoints(f: seq<Fix>, v: string, draw: (string, nat) -> seq<nat>): seq<Point>
    requires IsDraw(draw)
  {
    Points(Sample(OfVehicle(f, v), v, draw))
  }

  /** The record of one vehicle: its sample, its best route, its label. */
  function RecordFor(file: string, f: seq<Fix>, v: string, skels: seq<Skeleton>,
                     dist: PointDistance, draw: (string, nat) -> seq<nat>): MappingRecord
    requires IsDraw(draw)
  {
    var c := BestRoute(skels, SamplePoints(f, v, draw), dist);
    MappingRecord(file, v, Label(c), c.score)
  }

  /** The table `identify_vehicles_in_file` returns for one file. */
  function Identified(file: string, rows: seq<GpsRow>, skels: seq<Skeleton>,
                      dist: PointDistance, draw: (string, nat) -> seq<nat>): seq<MappingRecord>
    requires IsDraw(draw)
  {
    var vs := Vehicles(rows);
    seq(|vs|, i requires 0 <= i < |vs| => RecordFor(file, Fixes(rows), vs[i], skels, dist, draw))
  }

  /**
   * The row cleaning, then one record per vehicle in order of first
   * appearance.
   */
  method IdentifyVehiclesInFile(file: string, rows: seq<GpsRow>, skels: seq<Skeleton>,
                                dist: PointDistance, draw: (string, nat) -> seq<nat>)
    returns (results: seq<MappingRecord>)
    requires IsDraw(draw)
    ensures results == Identified(file, rows, skels, dist, draw)
  {
    var clean := ApplyMask(rows, UsableMask(rows));
    if |clean| == 0 {
      return [];
    }
    var fixes := Fixes(rows);
    var uniqueVehicles := Distinct(FixVehicles(fixes));
    results := [];
    for i := 0 to |uniqueVehicles|
      invariant |results| == i
      invariant forall k :: 0 <= k < i ==>
        results[k] == RecordFor(file, fixes, uniqueVehicles[k], skels, dist, draw)
    {
      var rec := IdentifyVehicle(file, fixes, uniqueVehicles[i], skels, dist, draw);
      results := results + [rec];
    }
  }

  /**
   * One vehicle: its rows, its sample, the loop over the skeletons and the
   * threshold. The two `continue` guards of the source (no rows, no sample
   * points) are shown never to fire for a vehicle read from the rows.
   */
  method IdentifyVehicle(file: string, fixes: seq<Fix>, vehId: string, skels: seq<Skeleton>,
                         dist: PointDistance, draw: (string, nat) -> seq<nat>)
    returns (rec: MappingRecord)
    requires IsDraw(draw) && vehId in FixVehicles(fixes)
    ensures rec == RecordFor(file, fixes, vehId, skels, dist, draw)
    ensures |SamplePoints(fixes, vehId, draw)| > 0
  {
    var vehData := ApplyMask(fixes, VehicleMask(fixes, vehId));
    OfVehicleNonEmpty(fixes, vehId);
    var sample := vehData;
    if |vehData| > SampleSize {
      var idx := draw(vehId, |vehData|);
      assert DrawOk(idx, |vehData|);
      sample := seq(SampleSize, k requires 0 <= k < SampleSize => vehData[idx[k]]);
    }
    var samplePoints := Points(sample);
    assert samplePoints == SamplePoints(fixes, vehId, draw);
    var c := ChooseRoute(skels, samplePoints, dist);
    if c.score.Finite? && c.score.value < MatchThreshold {
      rec := MappingRecord(file, vehId, c.route, c.score);
    } else {
      rec := MappingRecord(file, vehId, OffDuty, c.score);
    }
  }

  // ---------------------------------------------------------------------
  // Properties of the table
  // ---------------------------------------------------------------------

  /**
   * One record per distinct vehicle of the cleaned rows, in order of first
   * appearance, each carrying the file name; no record at all when no row
   * is usable.
   */
  lemma OneRecordPerVehicle(file: string, rows: seq<GpsRow>, skels: seq<Skeleton>,
                            dist: PointDistance, draw: (string, nat) -> seq<nat>)
    requires IsDraw(draw)
    ensures var r := Identified(file, rows, skels, dist, draw);
      && |r| == |Vehicles(rows)|
      && (|r| == 0 <==> forall i :: 0 <= i < |rows| ==> !Usable(rows[i]))
      && (forall i :: 0 <= i < |r| ==> r[i].dateFile == file && r[i].vehicle in FixVehicles(Fixes(rows)))
      && (forall i, j :: 0 <= i < j < |r| ==> r[i].vehicle != r[j].vehicle)
      && (forall i, j :: 0 <= i < j < |r| ==>
            FirstIndex(FixVehicles(Fixes(rows)), r[i].vehicle)
            < FirstIndex(FixVehicles(Fixes(rows)), r[j].vehicle))
  {
    var r := Identified(file, rows, skels, dist, draw);
    var col := FixVehicles(Fixes(rows));
    NoFixesIffNoUsableRow(rows);
    DistinctFirstAppearance(col);
    if |Fixes(rows)| > 0 {
      assert col[0] in Distinct(col);
    }
    assert forall i :: 0 <= i < |r| ==> r[i].vehicle == Distinct(col)[i];
  }

  /**
   * The sample of a vehicle present in the cleaned rows holds
   * `min(n, 50)` of its rows, at least one, all of that vehicle.
   */
  lemma SampleOfVehicle(f: seq<Fix>, v: string, draw: (string, nat) -> seq<nat>)
    requires IsDraw(draw) && v in FixVehicles(f)
    ensures var n := |OfVehicle(f, v)|;
      var s := Sample(OfVehicle(f, v), v, draw);
      && |s| == (if n > SampleSize then SampleSize else n)
      && 0 < |s|
      && forall k :: 0 <= k < |s| ==> s[k] in OfVehicle(f, v) && s[k].vehicle == v
  {
    OfVehicleNonEmpty(f, v);
    var s := Sample(OfVehicle(f, v), v, draw);
    forall k | 0 <= k < |s|
      ensures s[k].vehicle == v
    {
      var j :| 0 <= j < |OfVehicle(f, v)| && OfVehicle(f, v)[j] == s[k];
    }
  }

  /**
   * Every record is labelled with its best route when that route's score
   * is below 0.003, and `'Off-Duty/Unknown'` otherwise; a labelled route
   * is one of the skeletons, so the `"Unknown"` placeholder only appears
   * if a route is itself called so.
   */
  lemma RecordLabel(file: string, rows: seq<GpsRow>, skels: seq<Skeleton>,
                    dist: PointDistance, draw: (string, nat) -> seq<nat>, i: nat)
    requires IsDraw(draw) && i < |Identified(file, rows, skels, dist, draw)|
    ensures var r := Identified(file, rows, skels, dist, draw)[i];
      && (r.score.Finite? && r.score.value < MatchThreshold ==> r.route in Keys(skels))
      && (!(r.score.Finite? && r.score.value < MatchThreshold) ==> r.route == OffDuty)
      && (r.route == OffDuty || r.route in Keys(skels))
  {
    var v := Vehicles(rows)[i];
    var pts := SamplePoints(Fixes(rows), v, draw);
    var c := BestRoute(skels, pts, dist);
    assert Identified(file, rows, skels, dist, draw)[i] == MappingRecord(file, v, Label(c), c.score);
    BestRouteInfinite(skels, pts, dist);
    if c.score.Finite? {
      BestRouteIsEarliestMinimum(skels, pts, dist);
      var j :| 0 <= j < |skels| && EarliestMinimum(MeanDistances(skels, pts, dist), j)
        && c == Choice(skels[j].route, Finite(MeanDistance(pts, skels[j], dist)));
      assert Keys(skels)[j] == c.route;
    }
  }

  /** A vehicle of the table has a non-empty sample. */
  lemma SampleNonEmpty(rows: seq<GpsRow>, draw: (string, nat) -> seq<nat>, i: nat)
    requires IsDraw(draw) && i < |Vehicles(rows)|
    ensures |SamplePoints(Fixes(rows), Vehicles(rows)[i], draw)| > 0
  {
    var f := Fixes(rows);
    assert Vehicles(rows)[i] in FixVehicles(f);
    OfVehicleNonEmpty(f, Vehicles(rows)[i]);
  }

  /** Each record's score is the smallest mean distance of its sample to any skeleton. */
  lemma RecordScoreIsMinimum(file: string, rows: seq<GpsRow>, skels: seq<Skeleton>,
                             dist: PointDistance, draw: (string, nat) -> seq<nat>, i: nat)
    requires IsDraw(draw) && i < |Identified(file, rows, skels, dist, draw)| && |skels| > 0
    ensures var pts := SamplePoints(Fixes(rows), Vehicles(rows)[i], draw);
      var r := Identified(file, rows, skels, dist, draw)[i];
      && |pts| > 0
      && r.score.Finite?
      && (forall j :: 0 <= j < |skels| ==> r.score.value <= MeanDistance(pts, skels[j], dist))
      && (exists j :: 0 <= j < |skels| && r.score.value == MeanDistance(pts, skels[j], dist))
  {
    var v := Vehicles(rows)[i];
    var pts := SamplePoints(Fixes(rows), v, draw);
    var c := BestRoute(skels, pts, dist);
    assert Identified(file, rows, skels, dist, draw)[i].score == c.score;
    SampleNonEmpty(rows, draw, i);
    BestRouteIsEarliestMinimum(skels, pts, dist);
  }

  /** With no skeleton at all, every vehicle is off duty with an infinite score. */
  lemma NoSkeletonsAllOffDuty(file: string, rows: seq<GpsRow>, dist: PointDistance,
                              draw: (string, nat) -> seq<nat>)
    requires IsDraw(draw)
    ensures forall r :: r in Identified(file, rows, [], dist, draw) ==>
      r.route == OffDuty && r.score == Infinite
  {
  }

  /**
   * A vehicle all of whose positions lie on some skeleton (distance 0, with
   * distances never negative) is matched to a route of score 0.
   */
  lemma OnRouteIsMatched(file: string, rows: seq<GpsRow>, skels: seq<Skeleton>,
                         dist: PointDistance, draw: (string, nat) -> seq<nat>, i: nat, j: nat)
    requires IsDraw(draw) && i < |Identified(file, rows, skels, dist, draw)| && j < |skels|
    requires forall p: Point, line: seq<Point> :: dist(p, line) >= 0.0
    requires forall k :: 0 <= k < |Fixes(rows)| && Fixes(rows)[k].vehicle == Vehicles(rows)[i] ==>
      dist(Fixes(rows)[k].at, skels[j].line) == 0.0
    ensures Identified(file, rows, skels, dist, draw)[i].score == Finite(0.0)
    ensures Identified(file, rows, skels, dist, draw)[i].route in Keys(skels)
  {
    var f := Fixes(rows);
    var v := Vehicles(rows)[i];
    var pts := SamplePoints(f, v, draw);
    SampleNonEmpty(rows, draw, i);
    SampleOnSkeleton(f, v, draw, skels[j].line, dist);
    ZeroMeanIsMinimum(skels, pts, dist, j);
    RecordLabel(file, rows, skels, dist, draw, i);
  }

  /** The sample of a vehicle lies on a line that all of the vehicle's rows lie on. */
  lemma SampleOnSkeleton(f: seq<Fix>, v: string, draw: (string, nat) -> seq<nat>,
                         line: seq<Point>, dist: PointDistance)
    requires IsDraw(draw)
    requires forall k :: 0 <= k < |f| && f[k].vehicle == v ==> dist(f[k].at, line) == 0.0
    ensures forall k :: 0 <= k < |SamplePoints(f, v, draw)| ==> dist(SamplePoints(f, v, draw)[k], line) == 0.0
  {
    var s := Sample(OfVehicle(f, v), v, draw);
    forall k | 0 <= k < |s|
      ensures dist(s[k].at, line) == 0.0
    {
      SelectMembers(f, VehicleMask(f, v), s[k]);
    }
  }

  /** A skeleton at mean distance 0, with no distance negative, gives a score of 0. */
  lemma ZeroMeanIsMinimum(skels: seq<Skeleton>, pts: seq<Point>, dist: PointDistance, j: nat)
    requires |pts| > 0 && j < |skels|
    requires forall p: Point, line: seq<Point> :: dist(p, line) >= 0.0
    requires forall k :: 0 <= k < |pts| ==> dist(pts[k], skels[j].line) == 0.0
    ensures BestRoute(skels, pts, dist).score == Finite(0.0)
  {
    var means := MeanDistances(skels, pts, dist);
    assert means[j] == 0.0 by {
      SumOfZeros(Distances(pts, skels[j].line, dist));
    }
    BestRouteIsEarliestMinimum(skels, pts, dist);
    var i :| 0 <= i < |skels| && EarliestMinimum(means, i)
      && BestRoute(skels, pts, dist) == Choice(skels[i].route, Finite(MeanDistance(pts, skels[i], dist)));
    MeanNonNegative(pts, skels[i], dist);
  }

  /**
   * A vehicle all of whose positions lie at least 0.003 from every skeleton
   * is labelled off duty, and its score is not below 0.003.
   */
  lemma FarVehicleIsOffDuty(file: string, rows: seq<GpsRow>, skels: seq<Skeleton>,
                            dist: PointDistance, draw: (string, nat) -> seq<nat>, i: nat)
    requires IsDraw(draw) && i < |Vehicles(rows)|
    requires forall k, j :: 0 <= k < |Fixes(rows)| && Fixes(rows)[k].vehicle == Vehicles(rows)[i] && 0 <= j < |skels| ==>
      dist(Fixes(rows)[k].at, skels[j].line) >= MatchThreshold
    ensures Identified(file, rows, skels, dist, draw)[i].route == OffDuty
    ensures var r := Identified(file, rows, skels, dist, draw)[i];
      !(r.score.Finite? && r.score.value < MatchThreshold)
  {
    var f := Fixes(rows);
    var v := Vehicles(rows)[i];
    var s := Sample(OfVehicle(f, v), v, draw);
    var pts := SamplePoints(f, v, draw);
    forall k, j | 0 <= k < |pts| && 0 <= j < |skels|
      ensures dist(pts[k], skels[j].line) >= MatchThreshold
    {
      SelectMembers(f, VehicleMask(f, v), s[k]);
    }
    FarPointsOffDuty(skels, pts, dist);
  }

  /** Sample points all at least 0.003 from every skeleton give a score not below 0.003. */
  lemma FarPointsOffDuty(skels: seq<Skeleton>, pts: seq<Point>, dist: PointDistance)
    requires forall k, j :: 0 <= k < |pts| && 0 <= j < |skels| ==> dist(pts[k], skels[j].line) >= MatchThreshold
    ensures Label(BestRoute(skels, pts, dist)) == OffDuty
    ensures !(BestRoute(skels, pts, dist).score.Finite? && BestRoute(skels, pts, dist).score.value < MatchThreshold)
  {
    BestRouteInfinite(skels, pts, dist);
    if |skels| > 0 && |pts| > 0 {
      BestRouteIsEarliestMinimum(skels, pts, dist);
      var i :| 0 <= i < |skels| && EarliestMinimum(MeanDistances(skels, pts, dist), i)
        && BestRoute(skels, pts, dist) == Choice(skels[i].route, Finite(MeanDistance(pts, skels[i], dist)));
      FarMean(pts, skels[i], dist);
    }
  }

  /** Distances each at least 0.003 have a mean at least 0.003. */
  lemma FarMean(pts: seq<Point>, s: Skeleton, dist: PointDistance)
    requires |pts| > 0
    requires forall k :: 0 <= k < |pts| ==> dist(pts[k], s.line) >= MatchThreshold
    ensures MeanDistance(pts, s, dist) >= MatchThreshold
  {
    var ds := Distances(pts, s.line, dist);
    var n := |pts| as real;
    SumAtLeast(ds, MatchThreshold);
    var mean := Sum(ds) / n;
    assert mean * n == Sum(ds);
    if mean < MatchThreshold {
      assert mean * n < MatchThreshold * n;
    }
  }

  /** With no distance negative, no mean is negative. */
  lemma MeanNonNegative(pts: seq<Point>, s: Skeleton, dist: PointDistance)
    requires |pts| > 0
    requires forall p: Point, line: seq<Point> :: dist(p, line) >= 0.0
    ensures MeanDistance(pts, s, dist) >= 0.0
  {
    SumNonNegative(Distances(pts, s.line, dist));
  }
}
