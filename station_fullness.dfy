/**
 * The decoding side of plot_station_fullness.py: look one station up in every processed
 * snapshot and spread its compact records over six parallel series (time, an activity
 * colour, bikes, bikes plus docks, capacity, bike-angels points), remembering the date
 * of the first file and the time of the last. The requested station id, a global of the
 * script, is a parameter; `datetime.fromtimestamp` is the parameter `clock`.
 */
module StationFullness {
  import opened Wrappers
  import opened Feed

  datatype FullnessError =
    | NoFiles                                 // the exception raised for an empty listing
    | Absent(stationId: StationId, at: int)   // the station is missing from the snapshot taken at `at`

  /** `process_file_contents(timestamp, contents)`: the station's record, or an error naming the station and the time. */
  function ProcessFileContents(timestamp: int, contents: Snapshot, stationId: StationId): (r: Result<CompactRecord, FullnessError>)
    ensures r.Ok? <==> stationId in Keys(contents)
    ensures r.Ok? ==> (stationId, r.value) in contents
    ensures r.Err? ==> r.error == Absent(stationId, timestamp)
  {
    var found := Find(contents, stationId);
    if found.Some? then Ok(found.value) else Err(Absent(stationId, timestamp))
  }

  /** The lookup returns the one record a snapshot holds for the station. */
  lemma ProcessFileContentsExact(timestamp: int, contents: Snapshot, stationId: StationId, v: CompactRecord)
    requires (stationId, v) in contents
    ensures ProcessFileContents(timestamp, contents, stationId) == Ok(v)
  {
    FindUnique(contents, stationId, v);
  }

  type Colour = (real, real, real)

  /** The marker colour for an active and for an inactive station. */
  const ACTIVE_COLOUR: Colour := (0.0, 1.0, 0.0)
  const INACTIVE_COLOUR: Colour := (0.0, 0.5, 0.0)

  /** The six lists the loop fills, with `start_date` as a day number and `end_time` as seconds. */
  datatype Fullness = Fullness(
    timestamps: seq<int>,
    valid: seq<Colour>,
    bikes: seq<int>,
    bikesAndDocks: seq<int>,
    capacities: seq<int>,
    points: seq<Option<int>>,
    startDay: int,
    endTime: int)

  /** Every file handled appended exactly one element to each list. */
  predicate SameLength(f: Fullness, n: nat)
  {
    |f.timestamps| == n && |f.valid| == n && |f.bikes| == n &&
    |f.bikesAndDocks| == n && |f.capacities| == n && |f.points| == n
  }

  /** Entry `i` of the lists is the decoding of record `r` of the file stamped `ts`. */
  predicate DecodedAt(f: Fullness, i: nat, ts: int, r: CompactRecord)
    requires SameLength(f, |f.timestamps|) && i < |f.timestamps|
  {
    && f.timestamps[i] == ts
    && f.valid[i] == (if r.isActive then ACTIVE_COLOUR else INACTIVE_COLOUR)
    && f.bikes[i] == r.bikes
    && f.bikesAndDocks[i] == r.bikes + r.docks
    && f.capacities[i] == r.capacity
    && f.points[i] == (if TupleLength(r) == 5 then Some(r.points.value) else None)
  }

  /** The decoding of record `r` of the file stamped `ts` appended to each list. */
  function Appended(f: Fullness, ts: int, r: CompactRecord): (g: Fullness)
    requires SameLength(f, |f.timestamps|)
    ensures SameLength(g, |f.timestamps| + 1)
    ensures DecodedAt(g, |f.timestamps|, ts, r)
    ensures forall i :: 0 <= i < |f.timestamps| ==> f.timestamps[i] == g.timestamps[i] && f.valid[i] == g.valid[i]
    ensures forall i :: 0 <= i < |f.timestamps| ==> f.bikes[i] == g.bikes[i] && f.bikesAndDocks[i] == g.bikesAndDocks[i]
    ensures forall i :: 0 <= i < |f.timestamps| ==> f.capacities[i] == g.capacities[i] && f.points[i] == g.points[i]
  {
    f.(timestamps := f.timestamps + [ts],
       valid := f.valid + [if r.isActive then ACTIVE_COLOUR else INACTIVE_COLOUR],
       bikes := f.bikes + [r.bikes],
       bikesAndDocks := f.bikesAndDocks + [r.bikes + r.docks],
       capacities := f.capacities + [r.capacity],
       points := f.points + [if TupleLength(r) == 5 then Some(r.points.value) else None])
  }

  /** Every one of the first `n` files holds the station. */
  predicate AllHold(files: seq<SnapshotFile>, stationId: StationId, n: nat)
    requires n <= |files|
  {
    forall k :: 0 <= k < n ==> stationId in Keys(files[k].contents)
  }

  /** Entries `0 .. n-1` decode, in order, the station's records in the first `n` files. */
  predicate DecodedUpTo(f: Fullness, files: seq<SnapshotFile>, stationId: StationId, n: nat)
    requires n <= |files| && AllHold(files, stationId, n) && SameLength(f, n)
  {
    forall j :: 0 <= j < n ==> DecodedAt(f, j, files[j].timestamp, Find(files[j].contents, stationId).value)
  }

  /** Appending the next file's decoding extends the decoded prefix by one. */
  lemma AppendedDecodes(f: Fullness, files: seq<SnapshotFile>, stationId: StationId, n: nat)
    requires n < |files| && AllHold(files, stationId, n + 1) && SameLength(f, n)
    requires DecodedUpTo(f, files, stationId, n)
    ensures SameLength(Appended(f, files[n].timestamp, Find(files[n].contents, stationId).value), n + 1)
    ensures DecodedUpTo(Appended(f, files[n].timestamp, Find(files[n].contents, stationId).value), files, stationId, n + 1)
  {
    var g := Appended(f, files[n].timestamp, Find(files[n].contents, stationId).value);
    forall j | 0 <= j < n + 1
      ensures DecodedAt(g, j, files[j].timestamp, Find(files[j].contents, stationId).value)
    {
      if j < n {
        assert DecodedAt(f, j, files[j].timestamp, Find(files[j].contents, stationId).value);
      }
    }
  }

  /**
   * The loop of `main` over the listed files. With an empty listing, or when a file lacks
   * the station, it fails (naming the first such file); otherwise every list has one entry
   * per file, in listing order, decoded from that file's record for the station, the start
   * day is the first file's date and the end time is the last file's timestamp.
   */
  method FullnessSeries(files: seq<SnapshotFile>, stationId: StationId, clock: int -> LocalTime)
    returns (r: Result<Fullness, FullnessError>)
    ensures r == Err(NoFiles) <==> files == []
    ensures r.Ok? <==> files != [] && AllHold(files, stationId, |files|)
    ensures r.Ok? ==> SameLength(r.value, |files|)
    ensures r.Ok? ==> forall i :: 0 <= i < |files| ==>
      DecodedAt(r.value, i, files[i].timestamp, Find(files[i].contents, stationId).value)
    ensures r.Ok? ==> r.value.startDay == clock(files[0].timestamp).day && r.value.endTime == files[|files| - 1].timestamp
    ensures r.Err? && r.error.Absent? ==>
      exists k :: 0 <= k < |files| && AllHold(files, stationId, k) && stationId !in Keys(files[k].contents) &&
                  r.error == Absent(stationId, files[k].timestamp)
  {
    if files == [] {
      return Err(NoFiles);
    }
    var acc := Fullness([], [], [], [], [], [], 0, 0);
    var startDay: Option<int> := None;
    var endTime := 0;
    for i := 0 to |files|
      invariant AllHold(files, stationId, i)
      invariant SameLength(acc, i)
      invariant DecodedUpTo(acc, files, stationId, i)
      invariant i == 0 <==> startDay.None?
      invariant i > 0 ==> startDay == Some(clock(files[0].timestamp).day) && endTime == files[i - 1].timestamp
    {
      var timestamp := files[i].timestamp;
      if startDay.None? {
        startDay := Some(clock(timestamp).day);
      }
      endTime := timestamp;
      var looked := ProcessFileContents(timestamp, files[i].contents, stationId);
      if looked.Err? {
        return Err(looked.error);
      }
      AppendedDecodes(acc, files, stationId, i);
      acc := Appended(acc, timestamp, looked.value);
    }
    return Ok(acc.(startDay := startDay.value, endTime := endTime));
  }
}
