/**
 * `build_route_skeletons`: one reference polyline per bus route, built from
 * the stop coordinates found in the route's folder.
 *
 * The folder listing and the CSV reads are inputs: a folder is its name
 * plus what reading each of its three files yields. A file that cannot be
 * read raises inside the `try` block, and the folder is then skipped.
 * Python's dict keeps insertion order, and overwriting a key leaves it in
 * place, so the skeleton map is an ordered list of entries updated by `Put`.
 */
module RouteSkeletons {
  import opened Wrappers
  import opened Rows

  /** A stop coordinate, `(Lng, Lat)` as `zip(df['Lng'], df['Lat'])` pairs them. */
  datatype Point = Point(lng: real, lat: real)

  /**
   * `route_by_id.csv`: absent, unreadable, or read with the `RouteNo` cell
   * of each row (`None` when the file has no `RouteNo` column).
   */
  datatype InfoFile = NoInfo | CorruptInfo | InfoTable(routeNo: seq<Option<string>>)

  /** `stops_by_var.csv` or `rev_stops_by_var.csv`: absent, unreadable, or read. */
  datatype StopFile = NoStops | CorruptStops | StopTable(hasLng: bool, hasLat: bool, points: seq<Point>)

  /** One sub-directory of the route directory. */
  datatype RouteFolder = RouteFolder(name: string, info: InfoFile, outbound: StopFile, inbound: StopFile)

  /** A route id and its polyline (`LineString(all_points)`). */
  datatype Skeleton = Skeleton(route: string, line: seq<Point>)

  /**
   * The route id: `RouteNo` of the first row of `route_by_id.csv` when the
   * file exists and has a row, otherwise the folder name. `None` when the
   * read raises (an unreadable file, or a file without a `RouteNo` column).
   */
  function RouteKey(f: RouteFolder): (k: Option<string>)
    ensures k.None? <==>
      f.info.CorruptInfo? || (f.info.InfoTable? && |f.info.routeNo| > 0 && f.info.routeNo[0].None?)
    ensures k.Some? && f.info.InfoTable? && |f.info.routeNo| > 0 ==> k.value == f.info.routeNo[0].value
    ensures k.Some? && !(f.info.InfoTable? && |f.info.routeNo| > 0) ==> k.value == f.name
  {
    match f.info
    case NoInfo => Some(f.name)
    case CorruptInfo => None
    case InfoTable(rows) =>
      if |rows| == 0 then Some(f.name)
      else rows[0]
  }

  /** What one stop file adds to the point list: its points only if it has both columns. */
  function Contributed(s: StopFile): seq<Point>
  {
    if s.StopTable? && s.hasLng && s.hasLat then s.points else []
  }

  /**
   * The route's points: the outbound stops then the return stops, each in
   * file order. `None` when reading either file raises.
   */
  function RoutePoints(f: RouteFolder): (p: Option<seq<Point>>)
    ensures p.None? <==> f.outbound.CorruptStops? || f.inbound.CorruptStops?
    ensures p.Some? ==> |p.value| == |Contributed(f.outbound)| + |Contributed(f.inbound)|
    ensures p.Some? ==> p.value[..|Contributed(f.outbound)|] == Contributed(f.outbound)
    ensures p.Some? ==> p.value[|Contributed(f.outbound)|..] == Contributed(f.inbound)
  {
    if f.outbound.CorruptStops? || f.inbound.CorruptStops? then None
    else Some(Contributed(f.outbound) + Contributed(f.inbound))
  }

  /** The skeleton a folder yields: only a readable folder with more than one point yields one. */
  function FolderSkeleton(f: RouteFolder): (e: Option<Skeleton>)
    ensures e.Some? <==> RouteKey(f).Some? && RoutePoints(f).Some? && |RoutePoints(f).value| > 1
    ensures e.Some? ==> e.value.route == RouteKey(f).value && e.value.line == RoutePoints(f).value
  {
    var key := RouteKey(f);
    var points := RoutePoints(f);
    if key.Some? && points.Some? && |points.value| > 1 then Some(Skeleton(key.value, points.value))
    else None
  }

  /** The keys of the map, in iteration order. */
  function Keys(d: seq<Skeleton>): seq<string>
  {
    seq(|d|, i requires 0 <= i < |d| => d[i].route)
  }

  /** `route_shapes.get(k)`: the line stored under `k`. */
  function Lookup(d: seq<Skeleton>, k: string): (v: Option<seq<Point>>)
    ensures v.None? <==> k !in Keys(d)
  {
    if k in Keys(d) then Some(d[FirstIndex(Keys(d), k)].line) else None
  }

  /**
   * `route_shapes[k] = v`: an existing key keeps its position and takes the
   * new line; a new key goes at the end.
   */
  function Put(d: seq<Skeleton>, k: string, v: seq<Point>): (r: seq<Skeleton>)
    ensures Keys(r) == if k in Keys(d) then Keys(d) else Keys(d) + [k]
    ensures forall i :: 0 <= i < |r| ==> r[i] == Skeleton(k, v) || (i < |d| && r[i] == d[i])
  {
    if k in Keys(d) then
      var r := d[FirstIndex(Keys(d), k) := Skeleton(k, v)];
      assert Keys(r) == Keys(d);
      r
    else
      var r := d + [Skeleton(k, v)];
      assert Keys(r) == Keys(d) + [k];
      r
  }

  /** After `Put`, the key holds the new line and every other key is unchanged. */
  lemma PutLookup(d: seq<Skeleton>, k: string, v: seq<Point>, k': string)
    ensures Lookup(Put(d, k, v), k') == if k' == k then Some(v) else Lookup(d, k')
  {
    var r := Put(d, k, v);
    if k' in Keys(d) {
      var i := FirstIndex(Keys(d), k');
      assert Keys(r)[i] == k';
    }
  }

  /** The map after the folders `fs` have been visited in order. */
  function Skeletons(fs: seq<RouteFolder>): (d: seq<Skeleton>)
    ensures forall i :: 0 <= i < |d| ==> |d[i].line| >= 2
    ensures forall i, j :: 0 <= i < j < |d| ==> d[i].route != d[j].route
  {
    if |fs| == 0 then []
    else
      var d := Skeletons(fs[..|fs| - 1]);
      var e := FolderSkeleton(fs[|fs| - 1]);
      if e.Some? then
        PutKeepsKeysUnique(d, e.value.route, e.value.line);
        Put(d, e.value.route, e.value.line)
      else d
  }

  lemma PutKeepsKeysUnique(d: seq<Skeleton>, k: string, v: seq<Point>)
    requires forall i, j :: 0 <= i < j < |d| ==> d[i].route != d[j].route
    ensures forall i, j :: 0 <= i < j < |Put(d, k, v)| ==> Put(d, k, v)[i].route != Put(d, k, v)[j].route
  {
    var r := Put(d, k, v);
    assert forall i :: 0 <= i < |r| ==> r[i].route == Keys(r)[i];
    assert forall i :: 0 <= i < |d| ==> d[i].route == Keys(d)[i];
  }

  /** The loop over the sub-folders, filling `route_shapes`. */
  method BuildRouteSkeletons(folders: seq<RouteFolder>) returns (shapes: seq<Skeleton>)
    ensures shapes == Skeletons(folders)
  {
    shapes := [];
    for i := 0 to |folders|
      invariant shapes == Skeletons(folders[..i])
    {
      assert folders[..i + 1][..i] == folders[..i];
      var folder := folders[i];
      var routeId := RouteKey(folder);
      var allPoints := RoutePoints(folder);
      if routeId.Some? && allPoints.Some? && |allPoints.value| > 1 {
        shapes := Put(shapes, routeId.value, allPoints.value);
      }
    }
    assert folders[..|folders|] == folders;
  }

  /** Folder `f` yields a skeleton under key `k`. */
  predicate Claims(f: RouteFolder, k: string)
  {
    FolderSkeleton(f).Some? && FolderSkeleton(f).value.route == k
  }

  /** No folder after index `j` yields a skeleton under `k`. */
  predicate NoLaterClaim(fs: seq<RouteFolder>, j: int, k: string)
  {
    forall l :: 0 <= l < |fs| && j < l ==> !Claims(fs[l], k)
  }

  /** A key is present exactly when some folder yields a skeleton under it. */
  lemma {:induction false} SkeletonPresent(fs: seq<RouteFolder>, k: string)
    ensures Lookup(Skeletons(fs), k).None? <==> forall j :: 0 <= j < |fs| ==> !Claims(fs[j], k)
    decreases |fs|
  {
    if |fs| > 0 {
      var n := |fs| - 1;
      var init := fs[..n];
      SkeletonPresent(init, k);
      assert forall j :: 0 <= j < n ==> init[j] == fs[j];
      var e := FolderSkeleton(fs[n]);
      if e.Some? {
        assert Skeletons(fs) == Put(Skeletons(init), e.value.route, e.value.line);
        PutLookup(Skeletons(init), e.value.route, e.value.line, k);
      } else {
        assert Skeletons(fs) == Skeletons(init);
      }
    }
  }

  /** A present key holds the points of the LAST folder that yields a skeleton under it. */
  lemma {:induction false} SkeletonLast(fs: seq<RouteFolder>, k: string, j: nat)
    requires j < |fs| && Claims(fs[j], k) && NoLaterClaim(fs, j, k)
    ensures Lookup(Skeletons(fs), k) == RoutePoints(fs[j])
    decreases |fs|
  {
    var n := |fs| - 1;
    var init := fs[..n];
    var e := FolderSkeleton(fs[n]);
    if j < n {
      assert !Claims(fs[n], k) && init[j] == fs[j];
      assert NoLaterClaim(init, j, k);
      SkeletonLast(init, k, j);
      if e.Some? {
        assert Skeletons(fs) == Put(Skeletons(init), e.value.route, e.value.line);
        PutLookup(Skeletons(init), e.value.route, e.value.line, k);
      } else {
        assert Skeletons(fs) == Skeletons(init);
      }
    } else {
      assert e.Some? && e.value.route == k;
      assert Skeletons(fs) == Put(Skeletons(init), k, e.value.line);
      PutLookup(Skeletons(init), k, e.value.line, k);
    }
  }

  /** The keys of the folders that yield a skeleton, in folder order (with repeats). */
  function ClaimedKeys(fs: seq<RouteFolder>): (ks: seq<string>)
    ensures forall k :: k in ks <==> exists j :: 0 <= j < |fs| && Claims(fs[j], k)
  {
    if |fs| == 0 then []
    else
      var init := fs[..|fs| - 1];
      var e := FolderSkeleton(fs[|fs| - 1]);
      assert forall j :: 0 <= j < |init| ==> init[j] == fs[j];
      ClaimedKeys(init) + if e.Some? then [e.value.route] else []
  }

  /**
   * The map iterates its routes in the order their keys were first
   * claimed: a later folder with a known key overwrites in place.
   */
  lemma {:induction false} SkeletonKeyOrder(fs: seq<RouteFolder>)
    ensures Keys(Skeletons(fs)) == Distinct(ClaimedKeys(fs))
    decreases |fs|
  {
    if |fs| > 0 {
      var init := fs[..|fs| - 1];
      SkeletonKeyOrder(init);
      var e := FolderSkeleton(fs[|fs| - 1]);
      if e.Some? {
        var s := ClaimedKeys(init) + [e.value.route];
        assert ClaimedKeys(fs) == s;
        assert s[..|s| - 1] == ClaimedKeys(init);
      } else {
        assert ClaimedKeys(fs) == ClaimedKeys(init);
        assert Skeletons(fs) == Skeletons(init);
      }
    }
  }
}
