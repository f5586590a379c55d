/**
 * GPS pings, their clock, and the `(vehicle, datetime)` ordering that
 * `sort_values(by=['anonymized_vehicle', 'datetime'])` produces.
 *
 * A timestamp is a whole number of seconds since 1970-01-01 00:00 of the
 * naive local clock the CSV files use, so its hour of day, day number and
 * weekday are plain integer arithmetic.
 */
module Pings {
  import opened Wrappers

  type VehicleId = string

  /** One row of a GPS file: `anonymized_vehicle, datetime, lat, lng, speed, door_up, door_down`. */
  datatype Ping = Ping(
    vehicle: VehicleId,
    time: int,
    lat: real,
    lng: real,
    speed: Option<real>,
    doorUp: int,
    doorDown: int)

  const SecondsPerHour := 3600
  const SecondsPerDay := 86400

  /** `.dt.hour` */
  function HourOf(t: int): (h: int)
    ensures 0 <= h < 24
    ensures (t - h * SecondsPerHour) % SecondsPerDay < SecondsPerHour
  {
    (t % SecondsPerDay) / SecondsPerHour
  }

  /** `.date()`, as a day number counted from 1970-01-01. */
  function DayNumber(t: int): (d: int)
    ensures d * SecondsPerDay <= t < (d + 1) * SecondsPerDay
  {
    t / SecondsPerDay
  }

  /** `.dayofweek`: Monday is 0 and Sunday 6; 1970-01-01 was a Thursday. */
  function DayOfWeek(t: int): (w: int)
    ensures 0 <= w < 7
  {
    (DayNumber(t) + 3) % 7
  }

  /**
   * The weekday advances by one, Sunday wrapping to Monday, with each day,
   * and 1970-01-05 was a Monday.
   */
  lemma DayOfWeekCalendar(t: int)
    ensures DayOfWeek(t + SecondsPerDay) == (DayOfWeek(t) + 1) % 7
    ensures DayOfWeek(t + 7 * SecondsPerDay) == DayOfWeek(t)
    ensures DayOfWeek(4 * SecondsPerDay) == 0
  {
    var d := DayNumber(t);
    assert DayNumber(t + SecondsPerDay) == d + 1 by {
      assert (d + 1) * SecondsPerDay <= t + SecondsPerDay < (d + 2) * SecondsPerDay;
    }
    assert DayNumber(t + 7 * SecondsPerDay) == d + 7 by {
      assert (d + 7) * SecondsPerDay <= t + 7 * SecondsPerDay < (d + 8) * SecondsPerDay;
    }
    assert DayNumber(4 * SecondsPerDay) == 4;
  }

  /** Python's `str` comparison: lexicographic by code point. */
  predicate LexLe(a: string, b: string)
  {
    |a| == 0 || (|b| > 0 && (a[0] < b[0] || (a[0] == b[0] && LexLe(a[1..], b[1..]))))
  }

  lemma {:induction false} LexLeTotal(a: string, b: string)
    ensures LexLe(a, b) || LexLe(b, a)
  {
    if |a| > 0 && |b| > 0 && a[0] == b[0] {
      LexLeTotal(a[1..], b[1..]);
    }
  }

  lemma {:induction false} LexLeAntisymmetric(a: string, b: string)
    requires LexLe(a, b) && LexLe(b, a)
    ensures a == b
  {
    if |a| > 0 {
      LexLeAntisymmetric(a[1..], b[1..]);
      assert a == [a[0]] + a[1..] && b == [b[0]] + b[1..];
    }
  }

  lemma {:induction false} LexLeTransitive(a: string, b: string, c: string)
    requires LexLe(a, b) && LexLe(b, c)
    ensures LexLe(a, c)
  {
    if |a| > 0 && a[0] == b[0] && b[0] == c[0] {
      LexLeTransitive(a[1..], b[1..], c[1..]);
    }
  }

  /** The sort key `(anonymized_vehicle, datetime)`. */
  predicate KeyLe(p: Ping, q: Ping)
  {
    if p.vehicle == q.vehicle then p.time <= q.time else LexLe(p.vehicle, q.vehicle)
  }

  lemma KeyLeTotal(p: Ping, q: Ping)
    ensures KeyLe(p, q) || KeyLe(q, p)
  {
    LexLeTotal(p.vehicle, q.vehicle);
  }

  lemma KeyLeTransitive(p: Ping, q: Ping, r: Ping)
    requires KeyLe(p, q) && KeyLe(q, r)
    ensures KeyLe(p, r)
  {
    if p.vehicle != q.vehicle && q.vehicle != r.vehicle {
      LexLeTransitive(p.vehicle, q.vehicle, r.vehicle);
      if p.vehicle == r.vehicle {
        LexLeAntisymmetric(p.vehicle, q.vehicle);
      }
    }
  }

  /** Each row is at most its successor. */
  predicate SortedAdjacent(s: seq<Ping>)
  {
    forall i :: 0 < i < |s| ==> KeyLe(s[i - 1], s[i])
  }

  /** Every row is at most every later row. */
  predicate Sorted(s: seq<Ping>)
  {
    forall i, j :: 0 <= i < j < |s| ==> KeyLe(s[i], s[j])
  }

  /** Each vehicle's rows are contiguous. */
  predicate Grouped(s: seq<Ping>)
  {
    forall i, j, k :: 0 <= i < j < k < |s| && s[i].vehicle == s[k].vehicle ==> s[j].vehicle == s[i].vehicle
  }

  lemma {:induction false} AdjacentIsSorted(s: seq<Ping>)
    requires SortedAdjacent(s)
    ensures Sorted(s)
    decreases |s|
  {
    if |s| > 1 {
      var s' := s[..|s| - 1];
      AdjacentIsSorted(s');
      forall i | 0 <= i < |s| - 1
        ensures KeyLe(s[i], s[|s| - 1])
      {
        if i < |s| - 2 {
          KeyLeTransitive(s[i], s[|s| - 2], s[|s| - 1]);
        }
      }
    }
  }

  /**
   * Sorting by `(vehicle, datetime)` groups each vehicle's rows together and
   * puts each vehicle's timestamps in non-decreasing order; equal timestamps
   * stay side by side, nothing removes them.
   */
  lemma SortedIsGrouped(s: seq<Ping>)
    requires Sorted(s)
    ensures Grouped(s)
    ensures forall i, j :: 0 <= i < j < |s| && s[i].vehicle == s[j].vehicle ==> s[i].time <= s[j].time
  {
    forall i, j, k | 0 <= i < j < k < |s| && s[i].vehicle == s[k].vehicle
      ensures s[j].vehicle == s[i].vehicle
    {
      assert KeyLe(s[i], s[j]) && KeyLe(s[j], s[k]);
      if s[j].vehicle != s[i].vehicle {
        LexLeAntisymmetric(s[i].vehicle, s[j].vehicle);
      }
    }
  }

  /** Inserts `p` into a sorted sequence in front of the first row it does not follow. */
  function Insert(p: Ping, s: seq<Ping>): (r: seq<Ping>)
    requires SortedAdjacent(s)
    ensures SortedAdjacent(r)
    ensures multiset(r) == multiset(s) + multiset{p}
    ensures |r| == |s| + 1 && (r[0] == p || (|s| > 0 && r[0] == s[0]))
  {
    if |s| == 0 then [p]
    else if KeyLe(p, s[0]) then [p] + s
    else
      KeyLeTotal(p, s[0]);
      var t := Insert(p, s[1..]);
      assert s == [s[0]] + s[1..];
      [s[0]] + t
  }

  /**
   * `sort_values(by=['anonymized_vehicle', 'datetime'])`: the same rows,
   * rearranged into `(vehicle, datetime)` order.
   */
  function SortRows(s: seq<Ping>): (r: seq<Ping>)
    ensures Sorted(r) && SortedAdjacent(r)
    ensures multiset(r) == multiset(s) && |r| == |s|
  {
    if |s| == 0 then []
    else
      var r := Insert(s[0], SortRows(s[1..]));
      assert s == [s[0]] + s[1..];
      AdjacentIsSorted(r);
      r
  }
}
