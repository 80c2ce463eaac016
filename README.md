# Bike-share station trends, modelled in Dafny

This project models the data-handling core of a small Blue Bikes pipeline:

- **Snapshot normalisation** (`process_data.py`). Each station feature of a raw feed snapshot becomes a processed record. The record carries an activity flag: installed, renting and returning. An active station also carries its bike-angels action and a signed score. An unknown action, or a missing action or points field, stops the run. (`SnapshotNormalizer`)
- **Hourly selection** (`map_station_trends.py`, first loop of `main`). Walk the processed snapshot files in listing order and read a file only when its local date-hour differs from the last file read. For every station, record the number of bikes at each timestamp read. (`HourlySelection`)
- **Date-hour tests** (`is_one_hour_after`, `in_time_interval`). (`TrendTime`)
- **Trend statistics** (second loop of `main`). Per station, collect the hour-over-hour changes in bikes that start at the requested hour, on weekdays or on weekends. A station with fewer than two changes aborts the run. Otherwise the result is the mean and spread of the changes. (`TrendStats`)
- **Diverging pairs** (last loop of `main`). Visit every pair of stations once. Flag a pair that lies within 0.5 miles and whose mean changes differ by more than 2.5. (`PairFinder`)
- **Station fullness decoding** (`plot_station_fullness.py`). Look one station up in every processed snapshot and spread its compact records over six parallel series. (`StationFullness`)

`Feed` holds the shared data. A local time is modelled as a day number since 1970-01-01 plus an hour of day. A processed snapshot is a key-ordered list of `(station id, compact record)` with distinct keys.

The conversion `datetime.fromtimestamp` is a parameter `clock` from epoch seconds to local date-hour. The geodesic distance is also a parameter. The script globals (`desired_hour`, `is_weekend`, `station_id`) are parameters too.

Each loop is a method proved against a fold over a prefix of its input or against a per-index predicate. The properties are proved about those folds and predicates.

Behaviour of the code worth noting:
- a station with fewer than two deltas raises `ValueError` and ends the whole run; it is not just omitted;
- an active station without a `bike_angels_action` field is a `KeyError`; it does not just drop the score;
- files are read in directory-listing order, unsorted (see Findings); the fullness plot too takes `start_date` from the first file listed and `end_time` from the last (plot_station_fullness.py:46-48), not from the earliest and the latest, so with an unsorted listing its weekday shading (line 73) can cover the wrong days or none; `StationFullness.FullnessSeries` keeps this as written;
- coordinates are passed through as the feed gives them, with no axis reversal;
- `process_file_contents` (process_data.py:6-42) builds the list `processed` and never returns it, so a caller receives `None`; `SnapshotNormalizer.ProcessFileContents` gives the list that the loop builds;
- with exactly one station, `statistics.stdev(stdevs_list)` (map_station_trends.py:127) raises `StatisticsError`, because a sample spread needs two values; that print comes after the statistics the model produces.

## Model

| member | source | states |
|---|---|---|
| `Feed.Find` | plot_station_fullness.py:15-16 | a station is found exactly when its id is a key of the snapshot, and what is found is that key's record |
| `Feed.FindUnique` | plot_station_fullness.py:15-16 | in a snapshot with distinct keys the lookup returns the one record stored under the id |
| `TrendTime.NextHour` | map_station_trends.py:23-29 | the next date-hour is one step later on the linear hour scale, with 23:00 rolling over to 00:00 of the next day |
| `TrendTime.OneHourAfterIsNextHour` | map_station_trends.py:23-29 | `is_one_hour_after(later, earlier)` holds iff `later` is the next date-hour after `earlier`, iff their hour indices differ by exactly one |
| `TrendTime.OneHourAfterCases` | map_station_trends.py:25-29 | same date: adjacent iff the hours differ by one; dates one day apart: adjacent iff 23:00 then 00:00; any other gap or an earlier `later`: never; and the relation is never true both ways |
| `TrendTime.InTimeIntervalClassifies` | map_station_trends.py:32-37 | `in_time_interval` holds iff the hour is the desired one and the day is Saturday or Sunday exactly when weekends were asked for |
| `TrendTime.WeekdayClassesPartition` | map_station_trends.py:32-37 | every date-hour is in exactly one of the weekday and weekend intervals for its own hour |
| `TrendTime.InTimeIntervalWeekly` | map_station_trends.py:32-37 | the interval test gives the same answer seven days later |
| `HourlySelection.Put` | map_station_trends.py:91 | `d[ts] = v` on an insertion-ordered dict: the key set gains `ts`; a new key is appended; an existing key leaves the length unchanged; keys stay distinct |
| `HourlySelection.PutReplaces` | map_station_trends.py:91 | with distinct keys, an existing key keeps its place and takes the new value, and every other entry is unchanged |
| `HourlySelection.RecordSelf` | map_station_trends.py:89-91 | recording a sample sets the station's series to its old series with the bikes put at the timestamp |
| `HourlySelection.RecordOther` | map_station_trends.py:89-91 | recording a sample of one station leaves every other station's series as it was |
| `HourlySelection.RecordValid` | map_station_trends.py:89-91 | recording one sample keeps the dict-of-dicts shape: key order lists each station once and no series repeats a timestamp |
| `HourlySelection.RecordEffect` | map_station_trends.py:89-91 | recording a sample adds the station if new, and then at the end of the key order; it sets only that station's series and leaves every other station's series unchanged |
| `HourlySelection.FirstIndexSpec` | map_station_trends.py:88-90 | the first position of a value in a list is within the list iff the value occurs, holds the value, and no earlier position does |
| `HourlySelection.FirstIndexAppend` | map_station_trends.py:88-90 | appending a value keeps every earlier first position, and a value seen for the first time is first at the old length |
| `HourlySelection.FirstSeenOrderAppend` | map_station_trends.py:88-90 | appending a station to the ids met so far keeps the key order in first-seen order when the station is added to the keys only if it is new |
| `HourlySelection.RecordFirstSeen` | map_station_trends.py:88-91 | recording a sample keeps the key order in the order in which the stations were first met |
| `HourlySelection.RecordSnapshotOrder` | map_station_trends.py:88-91 | reading a file's entries keeps the key order in first-seen order, counting that file's entries in their stored order |
| `HourlySelection.RecordSnapshotValid` | map_station_trends.py:88-91 | reading one file keeps the dict-of-dicts shape: key order lists each station once and no series repeats a timestamp |
| `HourlySelection.CollectAllValid` | map_station_trends.py:82-93 | the stations collected from any sequence of files have that shape |
| `HourlySelection.CollectAllOrder` | map_station_trends.py:82-97 | the key order of `all_stations`, which the statistics loop follows, lists each station once, exactly the stations in the files read, in the order in which the files first mention them |
| `HourlySelection.RecordSnapshotSeriesAbsent` | map_station_trends.py:88-91 | reading entries that do not name a station leaves that station's series unchanged |
| `HourlySelection.RecordSnapshotSeriesPresent` | map_station_trends.py:88-91 | reading entries that name a station once changes its series only by putting that entry's bikes at the file's timestamp |
| `HourlySelection.RecordWholeSnapshot` | map_station_trends.py:88-91 | the same for a whole file, through the lookup of the station in the snapshot |
| `HourlySelection.ReadingsTimestamps` | map_station_trends.py:88-91 | every timestamp in a station's readings is the timestamp of a file read |
| `HourlySelection.CollectAllSeries` | map_station_trends.py:82-93 | when the files read have distinct timestamps, each station's collected series is exactly its `(timestamp, bikes)` readings in the files read, in reading order; the value stored is the record's bike count |
| `HourlySelection.ReadSnapshot` | map_station_trends.py:88-91 | the inner loop over `contents.items()` produces the stations of the fold over the snapshot's entries |
| `HourlySelection.CollectHourly` | map_station_trends.py:63-93 | an empty listing is an error; otherwise the loop yields the stations collected from exactly the files the selection keeps |
| `HourlySelection.SelectedFromListing` | map_station_trends.py:82-93 | every file read is one of the files listed |
| `HourlySelection.LastReadHasLastHour` | map_station_trends.py:85-93 | `(previous_date, previous_hour)` always equals the date-hour of the last file listed so far |
| `HourlySelection.ReadIffHourChanges` | map_station_trends.py:85 | a file is read iff it is the first listed or its date-hour differs from that of the file listed just before it |
| `HourlySelection.ConsecutiveReadsDiffer` | map_station_trends.py:85-93 | two files read one after the other never share a date-hour |
| `HourlySelection.EveryListedHourIsRead` | map_station_trends.py:82-93 | whatever the listing order, every date-hour that occurs among the listed files is read at least once |
| `HourlySelection.HourChangeIsNewHour` | map_station_trends.py:85 | in a chronological listing, a file whose date-hour differs from its predecessor's is later than every earlier file's date-hour |
| `HourlySelection.ChronologicalReadsIncrease` | map_station_trends.py:82-93 | in a chronological listing the date-hours of the files read strictly increase |
| `HourlySelection.ReadsNoLaterThanListed` | map_station_trends.py:82-93 | in a chronological listing no file read so far is later than the next file listed |
| `HourlySelection.NewHourIsEarliest` | map_station_trends.py:85 | in a chronological listing a file whose date-hour differs from its predecessor's is the earliest listed so far of its date-hour |
| `HourlySelection.ChronologicalReadsEarliest` | map_station_trends.py:82-93 | in a chronological listing no file read is later than any listed file of its date-hour |
| `HourlySelection.ChronologicalDistinctHours` | map_station_trends.py:82-93 | in a chronological listing no two files read share a date-hour |
| `HourlySelection.ListingHoursAllRead` | map_station_trends.py:82-93 | every listed file's date-hour is among the files read |
| `HourlySelection.ChronologicalEarliest` | map_station_trends.py:82-93 | in a chronological listing each file read is listed and is the earliest of its date-hour |
| `HourlySelection.ChronologicalListingOnePerHour` | map_station_trends.py:82-93 | for a listing in timestamp order with local time not running backwards, exactly one file per date-hour is read, and it is that hour's earliest |
| `HourlySelection.OnePerHourEarliestSameFiles` | map_station_trends.py:63 | corrected listing (see Findings): the one-per-hour-earliest property depends only on which files are listed, not on their order |
| `HourlySelection.InsertByTimestampAdds` | map_station_trends.py:63 | corrected listing (see Findings): inserting a file into a listing adds exactly that file: the result is the listing's multiset plus the file, one longer |
| `HourlySelection.InsertByTimestampSorted` | map_station_trends.py:63 | corrected listing (see Findings): inserting a file into a timestamp-sorted listing keeps it sorted |
| `HourlySelection.SortByTimestamp` | map_station_trends.py:63 | corrected listing (see Findings): the sorted listing is in timestamp order and is a permutation of the listing |
| `HourlySelection.SortKeepsTies` | map_station_trends.py:63 | corrected listing (see Findings): two files with the same timestamp keep their listed order |
| `HourlySelection.SortedSelectionOnePerHour` | map_station_trends.py:63-93 | corrected listing (see Findings): sorting the listing first makes the selection read exactly one file per date-hour among the listed files, the earliest, whatever order the directory gave |
| `HourlySelection.CollectHourlySorted` | map_station_trends.py:63-93 | corrected listing (see Findings): the selection loop run on the sorted listing: an error iff the listing is empty, else the stations collected from the files the sorted selection keeps |
| `HourlySelection.ExampleSelection` | map_station_trends.py:82-93 | four listed files whose first, second and fourth share a date-hour that the third does not: the first, third and fourth are read, so the listing 10:15, 10:00, 11:00, 10:30 reads 10:15, 11:00 and 10:30 |
| `HourlySelection.ListingOrderRereadsHour` | map_station_trends.py:82-93 | with a clock that never runs backwards, that listing reads exactly 10:15, 11:00 and 10:30: hour 10 twice, and never its earliest file 10:00 |
| `TrendStats.QualifiesIsMeasuredChange` | map_station_trends.py:104-106 | a pair is used iff the second sample is exactly one local hour after the first, and the first is at the desired hour on a day of the requested class |
| `TrendStats.DeltasUpToMembers` | map_station_trends.py:99-106 | after `n` pairs, a value is a delta iff it is `second - first` for some measured pair among them, and there are at most `n` deltas |
| `TrendStats.DeltasMembers` | map_station_trends.py:97-112 | the deltas of a series are exactly the changes over its measured adjacent pairs, at most one per adjacent pair |
| `TrendStats.MeasuredPairsStep` | map_station_trends.py:99-106 | one more pair adds its index to the measured pairs iff it is measured, and the index is new |
| `TrendStats.DeltasUpToCount` | map_station_trends.py:99-106 | after `n` pairs there are exactly as many deltas as measured pairs among them, repeated values included |
| `TrendStats.DeltasCount` | map_station_trends.py:97-112 | a series yields exactly one delta per measured adjacent pair |
| `TrendStats.ComputeDeltas` | map_station_trends.py:97-112 | the delta loop appends, in order, the change of each pair that passes both tests |
| `TrendStats.SumBounds` | map_station_trends.py:115 | a sum of `n` values each in `[lo, hi]` lies in `[n*lo, n*hi]` |
| `TrendStats.MeanWithinBounds` | map_station_trends.py:115 | `sum(deltas) / len(deltas)` lies between the smallest and the largest delta |
| `TrendStats.ScaledDeviations` | map_station_trends.py:116 | the scaled sum of squared deviations is never negative |
| `TrendStats.ScaledDeviationsZero` | map_station_trends.py:116 | it is zero iff every value equals the mean |
| `TrendStats.AllEqualAtMean` | map_station_trends.py:115-116 | all deltas are equal iff each equals the mean |
| `TrendStats.SampleVarianceZero` | map_station_trends.py:116 | the sample variance (divisor `n - 1`) is never negative, and is zero iff all deltas are equal |
| `TrendStats.ScaledTerm` | map_station_trends.py:116 | one integer term `(n·x − Σx)²` is `n²` times the squared deviation of `x` from the mean |
| `TrendStats.ScaledDeviationsReal` | map_station_trends.py:116 | the integer sum of scaled deviations is `n²` times the real sum of squared deviations from the mean |
| `TrendStats.SampleVarianceIsTextbook` | map_station_trends.py:116 | the variance is the textbook sample variance of `statistics.stdev`: `Σ (x − mean)² / (n − 1)` |
| `TrendStats.StationStatistics` | map_station_trends.py:96-119 | succeeds iff there is a station and every station has at least two deltas, and then gives each station's mean and variance in the key order of the stations, which `HourlySelection.CollectAllOrder` shows is first-seen order; otherwise names the first station with too few deltas, or reports no stations |
| `TrendStats.ThreeSampleSelection` | map_station_trends.py:82-93 | three listed files whose first two share a date-hour that the third does not: the first and third are read |
| `TrendStats.ThreeSampleSeries` | map_station_trends.py:88-91 | station "3" read at 10:00 with 12 bikes and at 11:00 with 9 gets the series `[(10:00, 12), (11:00, 9)]` |
| `TrendStats.ThreeSampleDeltas` | map_station_trends.py:99-106 | that series, at 10:00 and 11:00 on a Thursday, gives the 10:00 weekday bucket the one delta `-3` |
| `TrendStats.ThreeSampleRun` | map_station_trends.py:82-117 | station "3" at 10:00, 10:15 and 11:00 with 12, 14 and 9 bikes: 10:15 is skipped, the series is `[(10:00, 12), (11:00, 9)]`, and the 10:00 weekday delta is `-3` |
| `PairFinder.RowUpToMembers` | map_station_trends.py:151-157 | the inner loop for `i` flags exactly the pairs `(i, j)`, `j > i`, that pass the test, in increasing `j` |
| `PairFinder.PairsUpToMembers` | map_station_trends.py:150-157 | after the first `i` outer iterations, the flagged pairs are exactly the passing pairs whose first index is below `i`, in loop order |
| `PairFinder.DivergingPairsExact` | map_station_trends.py:150-157 | the lines drawn are exactly the pairs `i < j` within `RADIUS_MILES` whose means differ by more than `MIN_DIFF`, each once, in strictly increasing order |
| `PairFinder.DivergingSymmetric` | map_station_trends.py:156 | with a symmetric distance, the test gives the same answer for `(a, b)` and `(b, a)` |
| `PairFinder.NoPairMissed` | map_station_trends.py:150-156 | visiting only `j > i` misses no pair: any two distinct stations that pass the test are joined by a line |
| `PairFinder.FindDivergingPairs` | map_station_trends.py:150-157 | the nested loops produce exactly the diverging pairs in drawing order |
| `SnapshotNormalizer.ParseAction` | process_data.py:17-24 | a recognised action string is the name of the action it is parsed as |
| `SnapshotNormalizer.ParseActionName` | process_data.py:17-22 | each of "neutral", "take" and "give" is recognised as itself |
| `SnapshotNormalizer.ParseActionAccepts` | process_data.py:17-24 | exactly those three strings are recognised; anything else takes the error branch |
| `SnapshotNormalizer.SignedPoints` | process_data.py:17-22 | the score fails iff the action is "take" or "give" and the points are missing; "neutral" never reads them |
| `SnapshotNormalizer.SignedPointsRoundTrip` | process_data.py:19-22 | for "take" and "give" the raw points are recovered from the score, and a positive magnitude gives a positive score iff the action is "take" |
| `SnapshotNormalizer.NormalizeFeatureCases` | process_data.py:10-42 | coords and id pass through; active iff installed, renting and returning; an inactive station never fails and has no bike-angels data; an active one succeeds iff its action is one of the three and points are present unless "neutral"; an unknown action is the error naming action and station; the score is 0, the points, or the negated points |
| `SnapshotNormalizer.ProcessFileContents` | process_data.py:6-42 | succeeds iff every feature normalises, and then gives one record per feature in input order; otherwise the error of the first feature that fails |
| `SnapshotNormalizer.ActionScenarios` | process_data.py:15-24 | "give" with 4 scores -4, "take" with 4 scores +4, "neutral" scores 0, "sideways" is the unknown-action error |
| `StationFullness.ProcessFileContents` | plot_station_fullness.py:14-18 | returns the station's record iff the station is a key of the snapshot, else the error naming the station and the timestamp |
| `StationFullness.ProcessFileContentsExact` | plot_station_fullness.py:15-16 | the record returned is the one stored under the station id |
| `StationFullness.Appended` | plot_station_fullness.py:50-58 | one loop iteration's appends: each of the six lists grows by one, the new entry is the decoding of the record, and earlier entries are unchanged |
| `StationFullness.AppendedDecodes` | plot_station_fullness.py:42-58 | appending the next file's decoding extends the prefix of entries that decode the first files' records by one |
| `StationFullness.FullnessSeries` | plot_station_fullness.py:38-58 | an empty listing is an error; so is a file without the station, and the error names the first such file; otherwise the six lists have one entry per file in listing order (time, colour by activity, bikes, bikes plus docks, capacity, points present iff the record has five elements), the start day is the first file's date and the end time is the last file's timestamp |

## Left out

- Plotting, colours, marker sizes, annotations, titles and axes. This includes `average_to_color`, `stdev_to_size` and the weekday shading loop of plot_station_fullness.py (lines 73-81). These are presentation only.
- `TrendStats.StationStatistics`: reports the sample variance, not its square root `statistics.stdev`. There is no square root on Dafny reals. The mean is exact real arithmetic, not floating point, and the 2-digit rounding and printing are left out.
- `HourlySelection.SortedSelectionOnePerHour`: assumes local time never goes back to a date-hour already left. An ordinary fall-back from 02:00 to 01:00 keeps this, since hour 1 just lasts two hours. A zone change that returns to an earlier date-hour, such as 00:00 back to 23:00 of the day before, breaks it, and then even a sorted listing can read that date-hour twice.
- `HourlySelection.CollectAllSeries`: requires that the files read have distinct timestamps. The timestamp is the text of a file name before its first dot (map_station_trends.py:83), so this holds when every name is `<timestamp>.json`, one per poll; `1600000000.json` beside `1600000000.json.bak` would give two files one timestamp, and the second read would overwrite the first in place.
- Local-time conversion (`datetime.fromtimestamp`) is the parameter `clock`; `utcfromtimestamp` (process_data.py:9) only feeds a print and goes with the prints below. The geodesic distance of geopy is the parameter `distance`.
- File and argument I/O is left out: `os.listdir`, `json.load`, parsing a file name into a timestamp, `argparse` and `sys.argv`.
- Reading `overall_stations.txt` is left out. `PairFinder` receives each station's coordinates, and a station missing from that file, a `KeyError` in the source, is not modelled. The station name of the fullness plot is left out too.
- The whole of `main` in process_data.py is left out, and so is its use of only the first listed file. So are the prints of `process_file_contents`. Its `timestamp` argument is read only for printing. The `bikes_available`/`docks_available` fields are read into locals that are never used, and the `KeyError` they can raise is not modelled. Nor is the prints' `IndexError` on `coords[0]`/`coords[1]` (process_data.py:27, 37) for a feature with fewer than two coordinates, which the model accepts with any number, nor a `KeyError` on `name`, on the `geometry`/`properties` path, or on `contents["features"]` (process_data.py:7) for a payload without `features`, such as an upstream error object: `SnapshotNormalizer.ProcessFileContents` starts from the feature list.
- JSON values are typed: the three activity flags are booleans, not Python truthy values, and the compact record has typed fields.
- `timestamps` in the fullness series, its `endTime`, and the time `at` of the `Absent` error hold epoch seconds. The source holds the `datetime` that `clock` would give for them (plot_station_fullness.py:18, 45, 48).
- test/plot_station_fullness_test.py imports `split_dates_and_modulo_time`, which the modelled plot_station_fullness.py does not define. There is nothing to model it against.

## Findings

| source | as written | input that shows it | evidently intended | confidence | as-written member | corrected member |
|---|---|---|---|---|---|---|
| map_station_trends.py:63-93 | files are read in `os.listdir` order, and a file is read whenever its date-hour differs from the last file read | a listing of 10:15, 10:00, 11:00, 10:30 on one day reads 10:15, 11:00 and 10:30: hour 10 is read twice and its earliest file, 10:00, never | read exactly one file per date-hour, the earliest, which needs the listing sorted by timestamp first | not executed; medium (directory order is arbitrary on common file systems) | `HourlySelection.ListingOrderRereadsHour` | `HourlySelection.SortedSelectionOnePerHour` |
