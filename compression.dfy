/**
 * Phase 2 of the trajectory cleaner (`compress_and_overwrite`): drop every
 * ping whose state signature repeats the previous ping of the same vehicle,
 * keeping each vehicle's first ping.
 */
module Compression {
  import opened Wrappers
  import opened Rows
  import opened Pings

  /** `lng.round(5)`, `lat.round(5)`, `door_up`, `door_down`; coordinates in units of 1e-5 degree. */
  datatype Signature = Signature(lng5: int, lat5: int, doorUp: int, doorDown: int)

  /** numpy's rounding of an exact value: to the nearest integer, halves to the even neighbour. */
  function RoundHalfEven(x: real): (n: int)
    ensures x - 0.5 <= n as real <= x + 0.5
    ensures n as real - x == 0.5 || x - n as real == 0.5 ==> n % 2 == 0
  {
    var f := x.Floor;
    var d := x - f as real;
    if d < 0.5 then f else if d > 0.5 then f + 1 else if f % 2 == 0 then f else f + 1
  }

  /** `round(5)`, as a count of 1e-5 degrees. */
  function Round5(x: real): int
  {
    RoundHalfEven(x * 100000.0)
  }

  /** `compression_signature` */
  function SignatureOf(p: Ping): Signature
  {
    Signature(Round5(p.lng), Round5(p.lat), p.doorUp, p.doorDown)
  }

  /**
   * The signature of the last row of vehicle `v` among `rows`: what
   * `groupby('anonymized_vehicle')['compression_signature'].shift(1)` reads
   * for the row that follows them (absent, NaN, for a vehicle's first row).
   */
  function LastSignature(rows: seq<Ping>, v: VehicleId): Option<Signature>
  {
    if |rows| == 0 then None
    else if rows[|rows| - 1].vehicle == v then Some(SignatureOf(rows[|rows| - 1]))
    else LastSignature(rows[..|rows| - 1], v)
  }

  /**
   * `mask_change | mask_start_of_vehicle`: the vehicle differs from the row
   * just above in the file, or the signature differs from the previous row
   * of the same vehicle.
   */
  predicate KeepAt(rows: seq<Ping>, i: nat)
    requires i < |rows|
  {
    || i == 0
    || rows[i - 1].vehicle != rows[i].vehicle
    || LastSignature(rows[..i], rows[i].vehicle) != Some(SignatureOf(rows[i]))
  }

  function KeepMask(rows: seq<Ping>): (m: seq<bool>)
    ensures |m| == |rows|
  {
    seq(|rows|, i requires 0 <= i < |rows| => KeepAt(rows, i))
  }

  /** The rows the compressor keeps, in order. */
  function Compressed(rows: seq<Ping>): seq<Ping>
  {
    Select(rows, KeepMask(rows))
  }

  /**
   * `compress_and_overwrite` without the file reading and writing: one pass
   * that remembers the last signature of each vehicle, then the filter.
   */
  method Compress(rows: seq<Ping>) returns (r: seq<Ping>)
    ensures r == Compressed(rows)
    ensures |r| <= |rows|
  {
    var last: map<VehicleId, Signature> := map[];
    var keep: seq<bool> := [];
    for i := 0 to |rows|
      invariant |keep| == i
      invariant forall k :: 0 <= k < i ==> keep[k] == KeepAt(rows, k)
      invariant forall v :: LastSignature(rows[..i], v) == if v in last then Some(last[v]) else None
    {
      var p := rows[i];
      var sig := SignatureOf(p);
      var startOfVehicle := i == 0 || rows[i - 1].vehicle != p.vehicle;
      var changed := !(p.vehicle in last && last[p.vehicle] == sig);
      keep := keep + [startOfVehicle || changed];
      last := last[p.vehicle := sig];
      assert rows[..i + 1][..i] == rows[..i];
    }
    assert keep == KeepMask(rows);
    r := ApplyMask(rows, keep);
  }

  /** The signatures of vehicle `v`'s rows, in order. */
  function SignaturesOf(rows: seq<Ping>, v: VehicleId): seq<Signature>
  {
    if |rows| == 0 then []
    else
      var earlier := SignaturesOf(rows[..|rows| - 1], v);
      if rows[|rows| - 1].vehicle == v then earlier + [SignatureOf(rows[|rows| - 1])] else earlier
  }

  /** A sequence with each run of equal consecutive elements collapsed to one. */
  function Dedup(s: seq<Signature>): (d: seq<Signature>)
    ensures |d| <= |s|
    ensures |d| == 0 <==> |s| == 0
    ensures |s| > 0 ==> d[|d| - 1] == s[|s| - 1]
    ensures forall k :: 0 < k < |d| ==> d[k - 1] != d[k]
  {
    if |s| == 0 then []
    else
      var n := |s| - 1;
      if n > 0 && s[n - 1] == s[n] then Dedup(s[..n]) else Dedup(s[..n]) + [s[n]]
  }

  lemma {:induction false} SignaturesAppend(a: seq<Ping>, b: seq<Ping>, v: VehicleId)
    ensures SignaturesOf(a + b, v) == SignaturesOf(a, v) + SignaturesOf(b, v)
    decreases |b|
  {
    if |b| == 0 {
      assert a + b == a;
    } else {
      assert (a + b)[..|a + b| - 1] == a + b[..|b| - 1];
      SignaturesAppend(a, b[..|b| - 1], v);
    }
  }

  /** The shifted signature is the last entry of the vehicle's signature sequence. */
  lemma {:induction false} LastSignatureIsLast(rows: seq<Ping>, v: VehicleId)
    ensures var s := SignaturesOf(rows, v);
      LastSignature(rows, v) == if |s| == 0 then None else Some(s[|s| - 1])
    decreases |rows|
  {
    if |rows| > 0 {
      LastSignatureIsLast(rows[..|rows| - 1], v);
    }
  }

  /** A vehicle with no rows has no signatures. */
  lemma {:induction false} AbsentVehicle(rows: seq<Ping>, v: VehicleId)
    requires forall j :: 0 <= j < |rows| ==> rows[j].vehicle != v
    ensures SignaturesOf(rows, v) == []
    decreases |rows|
  {
    if |rows| > 0 {
      AbsentVehicle(rows[..|rows| - 1], v);
    }
  }

  /** Whether a row is kept depends only on the rows up to it. */
  lemma KeepMaskPrefix(rows: seq<Ping>, i: nat)
    requires i <= |rows|
    ensures KeepMask(rows)[..i] == KeepMask(rows[..i])
  {
    forall k | 0 <= k < i
      ensures KeepAt(rows, k) == KeepAt(rows[..i], k)
    {
      assert rows[..i][..k] == rows[..k];
    }
  }

  /**
   * In rows grouped by vehicle, a row is kept exactly when its signature
   * differs from its vehicle's most recent earlier signature (or the vehicle
   * has no earlier row).
   */
  lemma KeepIffNewSignature(rows: seq<Ping>, i: nat)
    requires Grouped(rows) && i < |rows|
    ensures KeepAt(rows, i) <==> LastSignature(rows[..i], rows[i].vehicle) != Some(SignatureOf(rows[i]))
  {
    var v := rows[i].vehicle;
    if i == 0 || rows[i - 1].vehicle != v {
      assert forall j :: 0 <= j < i ==> rows[..i][j].vehicle != v;
      AbsentVehicle(rows[..i], v);
      LastSignatureIsLast(rows[..i], v);
    }
  }

  /**
   * In rows grouped by vehicle, a row is kept exactly when it starts its
   * vehicle's rows or its signature differs from the row before it.
   */
  lemma KeepIffStateChange(rows: seq<Ping>, i: nat)
    requires Grouped(rows) && i < |rows|
    ensures KeepMask(rows)[i] <==>
      i == 0 || rows[i - 1].vehicle != rows[i].vehicle || SignatureOf(rows[i - 1]) != SignatureOf(rows[i])
  {
    KeepIffNewSignature(rows, i);
    if i > 0 {
      assert rows[..i][i - 1] == rows[i - 1];
    }
  }

  /** The first row of every vehicle survives, whatever the order of the file. */
  lemma CompressKeepsFirstRows(rows: seq<Ping>, i: nat)
    requires i < |rows|
    requires forall j :: 0 <= j < i ==> rows[j].vehicle != rows[i].vehicle
    ensures KeepMask(rows)[i] && rows[i] in Compressed(rows)
  {
    assert forall j :: 0 <= j < i ==> rows[..i][j].vehicle != rows[i].vehicle;
    AbsentVehicle(rows[..i], rows[i].vehicle);
    LastSignatureIsLast(rows[..i], rows[i].vehicle);
    SelectAt(rows, KeepMask(rows), i);
  }

  /** One more input row adds itself to the output exactly when it is kept. */
  lemma CompressedSnoc(rows: seq<Ping>)
    requires |rows| > 0
    ensures var n := |rows| - 1;
      Compressed(rows) == Compressed(rows[..n]) + if KeepAt(rows, n) then [rows[n]] else []
  {
    KeepMaskPrefix(rows, |rows| - 1);
  }

  lemma SignaturesSnoc(a: seq<Ping>, x: Ping, v: VehicleId)
    ensures SignaturesOf(a + [x], v) == SignaturesOf(a, v) + if x.vehicle == v then [SignatureOf(x)] else []
  {
    assert (a + [x])[..|a|] == a;
  }

  lemma DedupSnoc(s: seq<Signature>, x: Signature)
    ensures Dedup(s + [x]) == if |s| > 0 && s[|s| - 1] == x then Dedup(s) else Dedup(s) + [x]
  {
    assert (s + [x])[..|s|] == s;
  }

  /** The last row is kept exactly when it opens a new run of its vehicle's signatures. */
  lemma KeepLastIff(rows: seq<Ping>)
    requires Grouped(rows) && |rows| > 0
    ensures var n := |rows| - 1;
      var s := SignaturesOf(rows[..n], rows[n].vehicle);
      KeepAt(rows, n) <==> |s| == 0 || s[|s| - 1] != SignatureOf(rows[n])
  {
    var n := |rows| - 1;
    KeepIffNewSignature(rows, n);
    LastSignatureIsLast(rows[..n], rows[n].vehicle);
  }

  /**
   * Run-length equivalence: in rows grouped by vehicle, each vehicle's
   * signatures after compression are its signatures before, with runs of
   * equal consecutive signatures collapsed.
   */
  lemma {:induction false} CompressRunLength(rows: seq<Ping>, v: VehicleId)
    requires Grouped(rows)
    ensures SignaturesOf(Compressed(rows), v) == Dedup(SignaturesOf(rows, v))
    decreases |rows|
  {
    if |rows| > 0 {
      var n := |rows| - 1;
      var init, x := rows[..n], rows[n];
      assert rows == init + [x];
      var keep := KeepAt(rows, n);
      var s := SignaturesOf(init, v);
      CompressRunLength(init, v);
      CompressedSnoc(rows);
      SignaturesSnoc(init, x, v);
      if keep {
        SignaturesSnoc(Compressed(init), x, v);
      } else {
        assert Compressed(rows) == Compressed(init);
      }
      assert SignaturesOf(Compressed(rows), v) == Dedup(s) + if keep && x.vehicle == v then [SignatureOf(x)] else [];
      if x.vehicle == v {
        KeepLastIff(rows);
        DedupSnoc(s, SignatureOf(x));
      }
    }
  }

  /** The compressed output up to a kept row is the compression of the rows before it. */
  lemma CompressedPrefix(rows: seq<Ping>, i: nat)
    requires i <= |rows|
    ensures Rank(KeepMask(rows), i) <= |Compressed(rows)|
    ensures Compressed(rows)[..Rank(KeepMask(rows), i)] == Compressed(rows[..i])
  {
    SelectPrefix(rows, KeepMask(rows), i);
    KeepMaskPrefix(rows, i);
  }

  /** Compression leaves the last signature of every vehicle as it was. */
  lemma CompressKeepsLastSignature(rows: seq<Ping>, v: VehicleId)
    requires Grouped(rows)
    ensures LastSignature(Compressed(rows), v) == LastSignature(rows, v)
  {
    CompressRunLength(rows, v);
    LastSignatureIsLast(Compressed(rows), v);
    LastSignatureIsLast(rows, v);
  }

  /** Before a kept row, the output holds the same last signature of its vehicle as the input. */
  lemma CompressedPrefixLast(rows: seq<Ping>, i: nat)
    requires Grouped(rows) && i < |rows|
    ensures Rank(KeepMask(rows), i) <= |Compressed(rows)|
    ensures LastSignature(Compressed(rows)[..Rank(KeepMask(rows), i)], rows[i].vehicle)
         == LastSignature(rows[..i], rows[i].vehicle)
  {
    CompressedPrefix(rows, i);
    assert Grouped(rows[..i]);
    CompressKeepsLastSignature(rows[..i], rows[i].vehicle);
  }

  /** A kept row is kept again when the compressor runs on the output. */
  lemma KeptRowStaysKept(rows: seq<Ping>, i: nat)
    requires Grouped(rows) && i < |rows| && KeepMask(rows)[i]
    ensures Rank(KeepMask(rows), i) < |Compressed(rows)|
    ensures KeepAt(Compressed(rows), Rank(KeepMask(rows), i))
  {
    var m := KeepMask(rows);
    SelectAt(rows, m, i);
    CompressedPrefixLast(rows, i);
    KeepIffNewSignature(rows, i);
    KeepOnNewSignature(Compressed(rows), Rank(m, i));
  }

  lemma KeepOnNewSignature(rows: seq<Ping>, i: nat)
    requires i < |rows| && LastSignature(rows[..i], rows[i].vehicle) != Some(SignatureOf(rows[i]))
    ensures KeepAt(rows, i)
  {
  }

  /** On rows grouped by vehicle, compressing twice is compressing once. */
  lemma CompressIdempotent(rows: seq<Ping>)
    requires Grouped(rows)
    ensures Compressed(Compressed(rows)) == Compressed(rows)
  {
    var out := Compressed(rows);
    var m := KeepMask(rows);
    forall p | 0 <= p < |out|
      ensures KeepMask(out)[p]
    {
      SelectFrom(rows, m, p);
      var i :| 0 <= i < |rows| && m[i] && Rank(m, i) == p;
      KeptRowStaysKept(rows, i);
    }
    SelectAll(out, KeepMask(out));
  }
}
