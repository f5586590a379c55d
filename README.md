# Bus GPS pipeline — a Dafny model

This project models the data-preparation core of an HCMC bus-telemetry
pipeline:

- **Trajectory cleaning, phase 1** (`process_one_file`). Sort the pings by
  `(vehicle, datetime)`. Reconcile each reported speed with the speed
  observed between consecutive pings. Drop the hours 23:00–03:59. Then
  "Smart Trim" each vehicle's idle head and tail, keeping one ping of
  context on each side. Modules `Pings` and `Cleaning`.
- **Trajectory cleaning, phase 2** (`compress_and_overwrite`). Drop every
  ping whose state signature repeats the previous ping of the same vehicle.
  The signature is the 5-decimal coordinates and the two door counters.
  Module `Compression`.
- **Route skeletons** (`build_route_skeletons`). Build one polyline per
  route folder: its outbound stops followed by its return stops. The
  polylines are kept in an insertion-ordered dictionary keyed by route
  number. Module `RouteSkeletons`.
- **Vehicle-to-route matching** (`identify_vehicles_in_file`). Clean the
  rows. Sample up to 50 positions per vehicle. Pick the route whose polyline
  is nearest on average, with strict `<`, so ties go to the earlier route.
  Label the vehicle with that route when the score is below 0.003, and
  `Off-Duty/Unknown` otherwise. Module `RouteMatching`.
- **Travel-time dataset** (`create_travel_time_dataset`). For every vehicle
  mapped to route 88, find its first ping inside a ±0.001° square around
  each stop. Then emit one record per adjacent stop pair reached between
  0.5 and 60 minutes apart. Module `TravelTimes`.

`Rows` holds the generic machinery: masked selection `Select` (a DataFrame
boolean filter), `Distinct` (`unique()`), `FirstIndex` and `Sum`.
`Wrappers` holds `Option`.

How the model represents the source:

- Timestamps are whole seconds since 1970-01-01 00:00 on the files' naive
  clock.
- `.dt.hour`, `.date()` and `.dayofweek` are integer arithmetic on those
  seconds (`Pings.HourOf`, `DayNumber`, `DayOfWeek`; 1970-01-01 was a
  Thursday).
- Coordinates and speeds are `real`.
- A missing value (NaN) is `None` in the fields where the model lets one
  occur:
  - a ping's speed (`Pings.Ping.speed`);
  - the vehicle and coordinates of a GPS row read for route matching
    (`RouteMatching.GpsRow`, where a coordinate may also be non-numeric).

  Every other field always holds a value (see "Left out").
- In `RouteSkeletons.InfoFile`, a `None` `RouteNo` means the file has no
  `RouteNo` column: the read raises and the folder is skipped.
- Vehicle ids are strings, ordered by code point, as pandas sorts an object
  column.
- Each step that mutates a DataFrame in the source is a method. It is proved
  equal to a specification function, and the properties are lemmas about
  that function:
  - column assignments and filters become loops over sequences;
  - Smart Trim's `cumsum` scans fill `array<bool>` buffers;
  - the route dictionary is an ordered list of entries.
- The two haversine and shapely distance functions are parameters (function
  values), since their floating-point trigonometry is outside the model:
  - `Cleaning.Haversine`;
  - `RouteMatching.PointDistance`.
- `sample(50)` is a parameter too: a `draw` function returning 50 distinct
  row positions.

Three behaviours of the code are worth stating, since each is easy to
misread:

- **Sorting keeps equal timestamps.** The rows are only sorted, so a vehicle
  may have two pings with the same timestamp. `Pings.SortedIsGrouped` states
  the non-strict time order that holds. `Cleaning.ObservedSpeedAbsent` shows
  that the observed speed is absent at such a duplicate.
- **A score of exactly 0.003 is `Off-Duty/Unknown`.** A vehicle is matched
  only when `min_score < 0.003` (`RouteMatching.RecordLabel`).
- **The two `continue` guards at mapping.py:85-86 and 98-99 never fire.** A
  vehicle taken from the rows themselves always has a row and a non-empty
  sample (`RouteMatching.IdentifyVehicle`), so every distinct vehicle gets a
  record.

## Model

| member | source | states |
|---|---|---|
| Rows.Select | data_cleaning.py:68 | definition of a boolean filter `df[mask]`: the rows whose bit is set, in order; as many rows as set bits |
| Rows.ApplyMask | data_cleaning.py:84 | the one-pass filter loop returns exactly `Select` of the rows and the mask |
| Rows.SelectAt | data_cleaning.py:84 | a row whose bit is set lands in the output at the position given by the set bits before it |
| Rows.SelectFrom | data_cleaning.py:84 | every output row is an input row whose bit is set, at that rank |
| Rows.SelectKeepsPairs | data_cleaning.py:68 | a filter keeps every pairwise order relation of the rows (a sorted frame stays sorted) |
| Rows.Distinct | mapping.py:74 | `unique()`: the values are exactly those of the column, with no repeats |
| Rows.DistinctFirstAppearance | mapping.py:74 | `unique()` lists the values in the order of their first occurrences |
| Rows.Sum | mapping.py:110 | definition of `sum(distances)`, adding left to right; `Rows.SumNonNegative` bounds it |
| Rows.SumNonNegative | mapping.py:110 | a sum of non-negative values is non-negative |
| Rows.SumAtLeast | mapping.py:110 | a sum of values each at least `c` is at least its length times `c` |
| Pings.HourOf | data_cleaning.py:67 | the hour lies in 0..23, and the timestamp is less than one hour past the start of that hour of its day |
| Pings.DayNumber | data_train.py:86 | the timestamp lies within the day it names |
| Pings.DayOfWeek | data_train.py:88 | the weekday lies in 0..6 (Monday = 0) |
| Pings.DayOfWeekCalendar | data_train.py:88 | the weekday advances by one each day, wrapping from Sunday (6) to Monday (0), repeats every seven days, and 1970-01-05 is a Monday |
| Pings.SortRows | data_cleaning.py:45 | the result is sorted by `(vehicle, datetime)` and is a permutation of the input |
| Pings.SortedIsGrouped | data_cleaning.py:45-50 | after the sort each vehicle's rows are contiguous, and their timestamps are non-decreasing (ties kept) |
| Pings.KeyLeTransitive | data_cleaning.py:45 | the sort key order is transitive |
| Pings.KeyLeTotal | data_cleaning.py:45 | the sort key order is total |
| Cleaning.ObservedSpeed | data_cleaning.py:52-58 | the observed speed is absent exactly when the elapsed time is zero (an infinite or NaN quotient); otherwise speed × seconds = metres × 3.6 |
| Cleaning.ObservedSpeedAbsent | data_cleaning.py:48-59 | on grouped rows, the observed speed is absent exactly for a vehicle's first ping or a ping repeating the previous timestamp |
| Cleaning.ObservedAt | data_cleaning.py:48-58 | definition: the speed observed from the previous row when it belongs to the same vehicle (`groupby(...).shift(1)` on grouped rows), absent for a vehicle's first row; its absence is characterised by `Cleaning.ObservedSpeedAbsent` |
| Cleaning.Reconcile | data_cleaning.py:61-64 | a missing speed takes the observed one; with both present the result is their midpoint; a lone reported speed stays; the result is absent only if both are |
| Cleaning.Reconciled | data_cleaning.py:47-64 | definition of the speed column after section C: each row's speed is `Reconcile` of its reported and observed speeds, nothing else changes, the length is kept; `Cleaning.ReconcileSpeeds` is proved to compute it and `Cleaning.ReconciledKeepsOrder` states the order it keeps |
| Cleaning.FillMissing | data_cleaning.py:61-62 | exactly the rows without a speed take the observed speed; the others are unchanged |
| Cleaning.AverageReported | data_cleaning.py:63-64 | exactly the rows that had a reported speed before the fill and have an observed speed get the mean |
| Cleaning.FillThenAverage | data_cleaning.py:61-64 | filling then averaging one row is `Reconcile` on its reported and observed speeds, so a filled row is never averaged with itself |
| Cleaning.ReconcileSpeeds | data_cleaning.py:47-64 | the whole speed column is reconciled row by row against the previous same-vehicle ping |
| Cleaning.ReconciledKeepsOrder | data_cleaning.py:45-64 | reconciling speeds keeps the `(vehicle, datetime)` order |
| Cleaning.DropNightHours | data_cleaning.py:66-68 | every surviving row has hour in 4..22, and every row with hour in 4..22 survives, in the original order |
| Cleaning.InServiceHours | data_cleaning.py:66-68 | definition: an hour survives the night filter iff it lies in 4..22 (not `>= 23` and not `< 4`) |
| Cleaning.ServiceMask | data_cleaning.py:66-68 | one flag per row, set iff the row's hour is in service hours; `Cleaning.DropNightHours` is proved against it |
| Cleaning.MovedByStep | data_cleaning.py:74-75 | on grouped rows `cumsum_fwd > 0` follows the forward recurrence over the previous row of the same vehicle |
| Cleaning.MovesLaterStep | data_cleaning.py:76 | on grouped rows `cumsum_bwd > 0` follows the backward recurrence over the next row of the same vehicle |
| Cleaning.ForwardScan | data_cleaning.py:72-75 | fills `is_moving` (speed > 3.0, NaN not moving) and the forward "some earlier ping moved" flags |
| Cleaning.BackwardScan | data_cleaning.py:76 | fills the backward "some later ping moves" flags |
| Cleaning.BufferedMask | data_cleaning.py:78-84 | the final mask is core, or the same-vehicle next row is core, or the same-vehicle previous row is core |
| Cleaning.Moving | data_cleaning.py:72 | definition of `is_moving`: a speed is present and above 3.0 (a NaN speed is not moving) |
| Cleaning.MovedBy | data_cleaning.py:74-75 | definition of `cumsum_fwd > 0`: this ping or an earlier one of its vehicle is moving; characterised by `Cleaning.MovedByStep`, computed by `Cleaning.ForwardScan` |
| Cleaning.MovesLater | data_cleaning.py:76 | definition of `cumsum_bwd > 0`: this ping or a later one of its vehicle is moving; characterised by `Cleaning.MovesLaterStep`, computed by `Cleaning.BackwardScan` |
| Cleaning.Core | data_cleaning.py:74-78 | definition of `mask_core`: some ping of the vehicle at or before the row moves and some at or after it moves; characterised by `Cleaning.MovedByStep`, `Cleaning.MovesLaterStep` |
| Cleaning.Kept | data_cleaning.py:80-83 | definition of `final_mask`: the row, or the same-vehicle next or previous row, is core; characterised by `Cleaning.KeptNearMovement` |
| Cleaning.TrimMask | data_cleaning.py:83 | one `final_mask` flag per row; `Cleaning.BufferedMask` is proved to compute it |
| Cleaning.Trimmed | data_cleaning.py:70-84 | definition of Smart Trim: the rows whose `final_mask` flag is set, in order; its properties are `Cleaning.TrimWindow`, `Cleaning.TrimIdempotent` and the rows below |
| Cleaning.SmartTrim | data_cleaning.py:70-85 | the rows kept are exactly those the buffered core mask selects, in order |
| Cleaning.KeptNearMovement | data_cleaning.py:72-84 | a ping is kept iff some moving ping of its vehicle lies at most one row after it and another at most one row before it |
| Cleaning.TrimWindow | data_cleaning.py:72-84 | per vehicle the kept pings are the window from one before its first moving ping to one after its last |
| Cleaning.TrimKeepsMoving | data_cleaning.py:72-85 | every moving ping survives the trim |
| Cleaning.TrimDropsIdleVehicles | data_cleaning.py:72-85 | a vehicle with no moving ping disappears entirely |
| Cleaning.TrimExample | data_cleaning.py:72-84 | speeds `[0, 0, 20, 0]` of one vehicle keep indices 1, 2, 3 |
| Cleaning.TrimmedRowKept | data_cleaning.py:70-85 | every row of a trimmed trajectory passes a second trim |
| Cleaning.TrimIdempotent | data_cleaning.py:70-85 | trimming twice is trimming once |
| Cleaning.ProcessOneFile | data_cleaning.py:43-85 | sort, reconcile, drop night hours, trim on a non-empty frame: the result is the composed specification |
| Cleaning.Cleaned | data_cleaning.py:43-85 | definition of phase 1: sort, reconcile speeds, drop night hours, then trim when rows remain; `Cleaning.CleanedIsSortedAndInService` states its order and hour properties |
| Cleaning.CleanedIsSortedAndInService | data_cleaning.py:43-85 | the cleaned file is sorted, grouped by vehicle, and every row lies in service hours |
| Compression.RoundHalfEven | data_cleaning.py:125-126 | rounding lands within one half of the value, and a tie goes to the even neighbour |
| Compression.Round5 | data_cleaning.py:125-126 | definition: `round(5)` as a count of 1e-5 degrees, via `Compression.RoundHalfEven` |
| Compression.SignatureOf | data_cleaning.py:124-129 | definition of `compression_signature`: rounded longitude and latitude and the two door counters |
| Compression.LastSignature | data_cleaning.py:132-134 | definition of the `groupby(...).shift(1)` signature: the signature of the vehicle's last earlier row, absent (NaN) when there is none |
| Compression.KeepAt | data_cleaning.py:131-136 | definition of `mask_keep`: the row starts a vehicle in file order, or its signature differs from the shifted one; characterised by `Compression.KeepIffNewSignature`, `Compression.KeepIffStateChange` |
| Compression.KeepMask | data_cleaning.py:136 | one `mask_keep` flag per row |
| Compression.Compressed | data_cleaning.py:139-140 | definition of phase 2: the rows whose `mask_keep` flag is set, in order; `Compression.Compress` is proved to compute it |
| Compression.Compress | data_cleaning.py:122-144 | the one-pass compressor keeps exactly the rows of the keep mask, in order |
| Compression.KeepMaskPrefix | data_cleaning.py:132-136 | whether a row is kept depends only on the rows up to it |
| Compression.KeepIffNewSignature | data_cleaning.py:132-136 | on grouped rows a row is kept iff its signature differs from the last one of its vehicle |
| Compression.KeepIffStateChange | data_cleaning.py:132-136 | on grouped rows a row is kept iff it starts its vehicle or its signature differs from the row above |
| Compression.CompressKeepsFirstRows | data_cleaning.py:132-136 | the first row of every vehicle is kept, whatever the file order |
| Compression.CompressRunLength | data_cleaning.py:122-140 | on grouped rows each vehicle's signature sequence after compression is its sequence before, with consecutive repeats collapsed |
| Compression.CompressKeepsLastSignature | data_cleaning.py:134-140 | compression leaves every vehicle's last signature unchanged |
| Compression.KeptRowStaysKept | data_cleaning.py:132-140 | a kept row is kept again when the compressor runs on the output |
| Compression.CompressIdempotent | data_cleaning.py:122-144 | on grouped rows, compressing twice is compressing once |
| RouteSkeletons.RouteKey | mapping.py:22-30 | the route key is the first row's `RouteNo` when the info file exists and has a row, otherwise the folder name; none when the read raises |
| RouteSkeletons.Contributed | mapping.py:37-41 | definition: a stop file adds its points only when it exists, is readable and has both `Lng` and `Lat` columns |
| RouteSkeletons.RoutePoints | mapping.py:34-42 | the points are the outbound stops then the return stops, each only if both coordinate columns exist; none when a read raises |
| RouteSkeletons.FolderSkeleton | mapping.py:44-46 | a folder yields a skeleton iff it is readable and has more than one point |
| RouteSkeletons.Lookup | mapping.py:46 | a key has no line exactly when it is not in the dictionary |
| RouteSkeletons.Put | mapping.py:46 | an existing key keeps its position and a new key goes last; each entry is either the new one or unchanged |
| RouteSkeletons.PutLookup | mapping.py:46 | after an assignment, the key holds the new line and every other key is unchanged |
| RouteSkeletons.Skeletons | mapping.py:19-46 | every stored line has at least two points, and route keys are unique |
| RouteSkeletons.BuildRouteSkeletons | mapping.py:13-52 | the loop over the folders builds exactly the specified dictionary |
| RouteSkeletons.SkeletonPresent | mapping.py:19-46 | a route is present iff some folder yields a skeleton under its key |
| RouteSkeletons.SkeletonLast | mapping.py:19-46 | a present route holds the points of the last folder that yields it (later folders overwrite) |
| RouteSkeletons.ClaimedKeys | mapping.py:19-46 | a key is listed iff some folder yields a skeleton under it |
| RouteSkeletons.SkeletonKeyOrder | mapping.py:15-46 | routes iterate in the order their keys were first produced |
| RouteMatching.UsableMask | mapping.py:63-68 | a row survives both `dropna` calls iff its vehicle is present and both coordinates are present and numeric |
| RouteMatching.Usable | mapping.py:63-68 | definition: a row survives both `dropna` calls iff its vehicle is present and both coordinates are present and numeric |
| RouteMatching.Fixes | mapping.py:62-68 | there is one cleaned row per usable row |
| RouteMatching.NoFixesIffNoUsableRow | mapping.py:62-72 | the cleaned frame is empty iff no row is usable |
| RouteMatching.Vehicles | mapping.py:74 | definition of `unique_vehicles`: `Rows.Distinct` of the cleaned vehicle column; characterised by `RouteMatching.OneRecordPerVehicle` |
| RouteMatching.OfVehicle | mapping.py:82 | definition of `veh_data`: the cleaned rows of the vehicle, in file order; characterised by `RouteMatching.OfVehicleNonEmpty` |
| RouteMatching.OfVehicleNonEmpty | mapping.py:80-86 | a vehicle read from the cleaned rows has at least one row, all its own |
| RouteMatching.Sample | mapping.py:88-92 | the sample has `min(n, 50)` rows, all drawn from the vehicle's rows |
| RouteMatching.SampleOfVehicle | mapping.py:82-92 | a vehicle's sample is non-empty, of size `min(n, 50)`, all of that vehicle |
| RouteMatching.MeanDistance | mapping.py:106-110 | definition of `avg_dist`: the sum of the sample points' distances to the skeleton divided by their number; bounded by `RouteMatching.MeanNonNegative` and `RouteMatching.FarMean` |
| RouteMatching.Improves | mapping.py:112 | definition of `avg_dist < min_score`: every mean improves on an infinite score, otherwise only a strictly smaller one; its tie-breaking effect is `RouteMatching.ArgminIsEarliestMinimum` |
| RouteMatching.ChooseRoute | mapping.py:101-114 | the loop over the routes computes the specified best route and score |
| RouteMatching.ArgminInfinite | mapping.py:101-114 | the score stays infinite, with route `"Unknown"`, iff there is no route |
| RouteMatching.ArgminIsEarliestMinimum | mapping.py:105-114 | the choice is the earliest route of minimum mean, with that mean as score |
| RouteMatching.EarliestMinimumSnoc | mapping.py:112-114 | a new route either strictly undercuts the minimum and becomes the choice, or the earlier choice stays |
| RouteMatching.Argmin | mapping.py:101-114 | definition of the route loop: strict `<` against the running minimum, starting from `"Unknown"` and infinity; characterised by `RouteMatching.ArgminInfinite` and `RouteMatching.ArgminIsEarliestMinimum` |
| RouteMatching.BestRoute | mapping.py:101-114 | definition: `Argmin` over the skeleton keys and the mean distances of the sample points; characterised by `RouteMatching.BestRouteInfinite` and `RouteMatching.BestRouteIsEarliestMinimum` |
| RouteMatching.Label | mapping.py:116-130 | definition: the chosen route when the score is finite and below 0.003, `Off-Duty/Unknown` otherwise; stated per record by `RouteMatching.RecordLabel` |
| RouteMatching.BestRouteInfinite | mapping.py:101-114 | the score is infinite iff there is no skeleton or no sample point |
| RouteMatching.BestRouteIsEarliestMinimum | mapping.py:101-114 | with skeletons and sample points, the route is the earliest skeleton of minimum mean distance, and the score is that mean |
| RouteMatching.IdentifyVehicle | mapping.py:80-130 | one vehicle's record is the specified one, and its sample is never empty, so neither `continue` fires |
| RouteMatching.RecordFor | mapping.py:80-130 | definition of one vehicle's record: file name, vehicle, label and score of its sample; `RouteMatching.IdentifyVehicle` is proved to compute it |
| RouteMatching.Identified | mapping.py:62-132 | definition of the table: no record when no row is usable, else one record per distinct vehicle; characterised by `RouteMatching.OneRecordPerVehicle` |
| RouteMatching.IdentifyVehiclesInFile | mapping.py:55-132 | the function returns exactly the specified table |
| RouteMatching.OneRecordPerVehicle | mapping.py:74-130 | there is one record per distinct vehicle, in first-appearance order, each with the file name; the table is empty iff no row is usable |
| RouteMatching.SampleNonEmpty | mapping.py:84-99 | every vehicle of the table has at least one sample point |
| RouteMatching.RecordLabel | mapping.py:116-130 | the label is the chosen route iff the score is below 0.003 (strict), otherwise `Off-Duty/Unknown`; a label is always a route key or `Off-Duty/Unknown` |
| RouteMatching.RecordScoreIsMinimum | mapping.py:101-114 | with skeletons, the score is finite, at most every skeleton's mean distance, and attained by one |
| RouteMatching.NoSkeletonsAllOffDuty | mapping.py:101-130 | with no skeleton, every vehicle is `Off-Duty/Unknown` with an infinite score |
| RouteMatching.OnRouteIsMatched | mapping.py:104-123 | a vehicle whose positions all lie on a skeleton (and no distance is negative) gets score 0 and a route label |
| RouteMatching.FarVehicleIsOffDuty | mapping.py:80-130 | a vehicle all of whose positions lie at least 0.003 from every skeleton is labelled `Off-Duty/Unknown`, with a score not below 0.003 |
| RouteMatching.FarPointsOffDuty | mapping.py:101-130 | sample points all at least 0.003 from every skeleton give the off-duty label and a score not below 0.003 |
| RouteMatching.FarMean | mapping.py:106-110 | distances each at least 0.003 have a mean at least 0.003 |
| RouteMatching.SampleOnSkeleton | mapping.py:89-95 | the sample points lie wherever all of the vehicle's rows lie |
| RouteMatching.ZeroMeanIsMinimum | mapping.py:105-114 | a skeleton with mean distance 0 gives score 0 when no distance is negative |
| RouteMatching.MeanNonNegative | mapping.py:110 | a mean of non-negative distances is non-negative |
| TravelTimes.ArrivalIsEarliest | data_train.py:61-69 | on a trip in time order the arrival is the earliest in-square ping time, and absent iff no ping is in the square |
| TravelTimes.TargetVehicles | data_train.py:26 | definition: the vehicles of the mapping rows whose predicted route is `"88"` |
| TravelTimes.TargetMask | data_train.py:44 | definition of `isin(vehicles_route_01)`: one flag per GPS row, set iff its vehicle is a target; `TravelTimes.NonTargetRowIgnored` shows the other rows never matter |
| TravelTimes.NearStop | data_train.py:61-62 | definition: the ping lies strictly within 0.001 degrees of the stop in both latitude and longitude |
| TravelTimes.Arrival | data_train.py:61-68 | definition: the time of the first in-square ping of the trip, absent when there is none; characterised by `TravelTimes.ArrivalIsEarliest` |
| TravelTimes.Arrivals | data_train.py:58-68 | definition: the trip's arrival at each stop, in stop order; `TravelTimes.StopTimesKeys` and `TravelTimes.StopTimesLast` characterise the dictionary built from it |
| TravelTimes.VehicleArrival | data_train.py:48-69 | after sorting, a vehicle's arrival at a stop is the time of one of its in-square pings of the file and no later than any other of them; absent iff there are none |
| TravelTimes.TripChronological | data_train.py:48-52 | after sorting, each `groupby` trip holds only that vehicle's rows, in time order |
| TravelTimes.Trip | data_train.py:52 | definition of one `groupby` group: the vehicle's rows, in order; characterised by `TravelTimes.TripChronological` |
| TravelTimes.ArrivalTimes | data_train.py:56-69 | the loop over the stops fills exactly the specified `stop_times` |
| TravelTimes.TimesFrom | data_train.py:58-69 | definition of `stop_times` from the arrivals, later stops overwriting; characterised by `TravelTimes.StopTimesKeys`, `TravelTimes.StopTimesLast` |
| TravelTimes.StopTimes | data_train.py:56-69 | definition of a trip's `stop_times`: `TimesFrom` of its arrivals at every stop; `TravelTimes.ArrivalTimes` is proved to compute it |
| TravelTimes.StopTimesKeys | data_train.py:56-69 | a stop id has a time iff some stop with that id was reached |
| TravelTimes.StopTimesLast | data_train.py:58-69 | a stop id holds the arrival at the last reached stop carrying it (later stops overwrite) |
| TravelTimes.SegmentAt | data_train.py:73-93 | pair `i` yields a record iff both stops have arrivals 30 to 3600 s apart (exclusive); the record has index `i`, the two names, duration × 60 = the gap, and the date, hour and weekday of the first arrival |
| TravelTimes.SegmentsBefore | data_train.py:73-93 | every record is its own pair's record and is well formed (index ≤ len−2, names, 0.5 < minutes < 60); indices strictly increase |
| TravelTimes.SegmentEmitted | data_train.py:73-93 | every pair that yields a record appears in the output |
| TravelTimes.SegmentRecords | data_train.py:73-93 | the loop over adjacent pairs emits exactly the specified records |
| TravelTimes.TripSegments | data_train.py:73-93 | definition of one vehicle's records: the pair records over its `stop_times`; characterised by `TravelTimes.TripSegmentIff`, computed by `TravelTimes.ArrivalTimes` then `TravelTimes.SegmentRecords` |
| TravelTimes.TripSegmentIff | data_train.py:73-93 | for one vehicle, pair `i` appears iff both arrivals exist and lie 30–3600 s apart; at most one record per index; hour from the first arrival |
| TravelTimes.VehiclesSegments | data_train.py:52-93 | every record of a file's vehicles is well formed |
| TravelTimes.FileSegments | data_train.py:41-93 | every record of one GPS file is well formed |
| TravelTimes.Dataset | data_train.py:39-96 | every record of the dataset is well formed |
| TravelTimes.GroupTravelTimes | data_train.py:52-93 | the loop over the vehicle groups builds the specified records |
| TravelTimes.FileTravelTimes | data_train.py:41-93 | the processing of one file builds the specified records |
| TravelTimes.CreateTravelTimeDataset | data_train.py:24-96 | the whole loop over the GPS files builds the specified dataset, for the vehicles mapped to route `"88"` |
| TravelTimes.NonTargetRowIgnored | data_train.py:44 | adding a GPS row of a vehicle outside the target set leaves a file's records unchanged |

## Left out

- Reading and writing CSV files are not modelled. Neither are `glob`/`os`
  path handling, `gc`, timing or printing. The files' contents are inputs
  and the results are outputs.
- `haversine_np` (data_cleaning.py:9-20) and shapely's `Point.distance`
  (mapping.py:106) are floating-point geometry. Each is a function parameter
  (`Cleaning.Haversine`, `RouteMatching.PointDistance`). The missing clamp
  before `arcsin` is therefore not modelled.
- `RouteMatching.Sample` takes the random `sample(50)` as a `draw`
  parameter. It only requires 50 distinct in-range positions. The
  distribution of the random draw is not modelled.
- `round(min_score, 6)` (mapping.py:122, 129) is not modelled. The record
  carries the unrounded score.
- Floating-point rounding and NaN propagation in the means and speeds are
  not modelled. Arithmetic is on exact reals.
- `Compression.Round5`: the 5-decimal `round` of the coordinates
  (data_cleaning.py:125-126) is computed on the exact real value, half to
  even. The float's binary representation and `astype(str)` formatting are
  not modelled, so a coordinate whose float sits just beside a half-way point
  may round differently in the source.
- Pings in phases 1 and 2 and in the travel-time dataset always carry a
  vehicle, a timestamp, both coordinates and both door counters. The
  source's implicit handling of a NaN in those columns is not modelled:
  - `groupby` drops a NaN-vehicle row from Smart Trim's scans;
  - a NaN coordinate makes `haversine_np` return NaN, so the observed speed
    is absent;
  - a NaN coordinate or door counter becomes the text `nan` in the
    compression signature;
  - an unparseable timestamp becomes `NaT`.
- Timestamps are whole seconds. Sub-second parts, time zones and
  `pd.to_datetime` parsing errors are not modelled.
- `RouteSkeletons.RouteKey`: a NaN `RouteNo` cell is not modelled. The
  source keeps that route under the key `"nan"` (`str(nan)`).
- `RouteSkeletons.RouteKey`: `RouteNo` is taken as the text the file holds.
  pandas may parse a numeric column, so `"01"` could become `1` before
  `str()`. That effect is not modelled.
- The `try`/`except` blocks that swallow an exception are modelled only for
  unreadable files:
  - `CorruptInfo`/`CorruptStops` skip a route folder;
  - `GpsFile.Unreadable` skips a GPS file.

  An exception raised midway through a file is not modelled. In
  data_train.py it would keep the records already appended from that file.
- `RouteMatching.UsableMask`: the two `dropna` calls of mapping.py:63 and 68
  are modelled as one filter (vehicle present and both coordinates numeric).
  Its result is the same rows in the same order.
- `Cleaning.ProcessOneFile` does not model dropping the `anonymized_driver`
  column or the scratch columns (data_cleaning.py:40-41, 88-90). Columns
  outside `Ping` are not modelled.
- `TravelTimes.Segment.date` is the day number of the first arrival, not a
  calendar date.
- `Pings.SortRows` keeps the input order among rows with the same vehicle
  and timestamp. Each row is inserted in front of the equal rows that follow
  it, but no lemma states this stability. pandas does not promise that
  order, and the model does not cover another one. Phase 1 depends on it:
  after two pings with the same timestamp, the next ping's observed speed is
  measured from the later of the two. A travel-time trip is a stable
  selection of the sorted rows, but an arrival reads only the timestamp, so
  no travel-time record depends on the tie order.
- `smart_schedule.py`, `visualize.py` and `training.py` are not part of this
  model. They cover model inference, map rendering and model fitting.
