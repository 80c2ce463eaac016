/**
 * The first loop of `main` in map_station_trends.py: walk the snapshot files, keep one
 * file per local date-hour (a file is read only when its date or hour differs from the
 * last file read), and record, per station, the number of bikes at each kept timestamp.
 * `datetime.fromtimestamp` is the parameter `clock`.
 */
module HourlySelection {
  import opened Wrappers
  import opened Feed

  /** One station's `{timestamp: bikes}` dict, in insertion order. */
  type Series = seq<(int, int)>

  function Timestamps(items: Series): set<int>
  {
    set i | 0 <= i < |items| :: items[i].0
  }

  predicate DistinctTimestamps(items: Series)
  {
    forall i, j :: 0 <= i < j < |items| ==> items[i].0 != items[j].0
  }

  lemma TimestampsConcat(xs: Series, ys: Series)
    ensures Timestamps(xs + ys) == Timestamps(xs) + Timestamps(ys)
  {
    var zs := xs + ys;
    forall t | t in Timestamps(zs) ensures t in Timestamps(xs) + Timestamps(ys) {
      var i :| 0 <= i < |zs| && zs[i].0 == t;
      if i >= |xs| { assert ys[i - |xs|].0 == t; }
    }
    forall t | t in Timestamps(xs) + Timestamps(ys) ensures t in Timestamps(zs) {
      if t in Timestamps(xs) {
        var i :| 0 <= i < |xs| && xs[i].0 == t;
        assert zs[i].0 == t;
      } else {
        var i :| 0 <= i < |ys| && ys[i].0 == t;
        assert zs[|xs| + i].0 == t;
      }
    }
  }

  lemma TimestampsSingleton(p: (int, int))
    ensures Timestamps([p]) == {p.0}
  {
    assert [p][0].0 == p.0;
  }

  lemma DistinctCons(p: (int, int), rest: Series)
    ensures DistinctTimestamps([p] + rest) <==> p.0 !in Timestamps(rest) && DistinctTimestamps(rest)
  {
    var zs := [p] + rest;
    if p.0 in Timestamps(rest) {
      var i :| 0 <= i < |rest| && rest[i].0 == p.0;
      assert zs[0].0 == zs[i + 1].0;
    }
    if DistinctTimestamps(zs) {
      forall i, j | 0 <= i < j < |rest| ensures rest[i].0 != rest[j].0 {
        assert zs[i + 1] == rest[i] && zs[j + 1] == rest[j];
      }
    }
    if p.0 !in Timestamps(rest) && DistinctTimestamps(rest) {
      forall i, j | 0 <= i < j < |zs| ensures zs[i].0 != zs[j].0 {
        assert zs[j] == rest[j - 1];
        if i > 0 { assert zs[i] == rest[i - 1]; }
      }
    }
  }

  /**
   * `d[ts] = v` on an insertion-ordered dict: an existing key keeps its position and
   * takes the new value; a new key goes at the end.
   */
  function Put(items: Series, ts: int, v: int): (r: Series)
    ensures Timestamps(r) == Timestamps(items) + {ts}
    ensures ts !in Timestamps(items) ==> r == items + [(ts, v)]
    ensures ts in Timestamps(items) ==> |r| == |items|
    ensures DistinctTimestamps(items) ==> DistinctTimestamps(r)
  {
    TimestampsSingleton((ts, v));
    if items == [] then [(ts, v)]
    else
      TimestampsConcat([items[0]], items[1..]);
      assert items == [items[0]] + items[1..];
      TimestampsSingleton(items[0]);
      DistinctCons(items[0], items[1..]);
      if items[0].0 == ts then
        TimestampsConcat([(ts, v)], items[1..]);
        DistinctCons((ts, v), items[1..]);
        [(ts, v)] + items[1..]
      else
        var rest := Put(items[1..], ts, v);
        TimestampsConcat([items[0]], rest);
        DistinctCons(items[0], rest);
        [items[0]] + rest
  }

  /** An existing key keeps its place and takes the new value; every other entry is unchanged. */
  lemma {:induction false} PutReplaces(items: Series, ts: int, v: int)
    requires DistinctTimestamps(items) && ts in Timestamps(items)
    ensures forall i :: 0 <= i < |items| ==> Put(items, ts, v)[i] == (if items[i].0 == ts then (ts, v) else items[i])
  {
    TimestampsConcat([items[0]], items[1..]);
    assert items == [items[0]] + items[1..];
    TimestampsSingleton(items[0]);
    if items[0].0 != ts {
      PutReplaces(items[1..], ts, v);
    }
  }

  /** `all_stations`: station id to series, with the dict's key order kept in `order`. */
  datatype Stations = Stations(order: seq<StationId>, series: map<StationId, Series>)

  /** What a Python dict of dicts guarantees: the key order lists each key once, and no series repeats a timestamp. */
  ghost predicate Valid(c: Stations)
  {
    && (forall s :: s in c.series <==> s in c.order)
    && (forall i, j :: 0 <= i < j < |c.order| ==> c.order[i] != c.order[j])
    && (forall s :: s in c.series ==> DistinctTimestamps(c.series[s]))
  }

  const NO_STATIONS := Stations([], map[])

  /** The series of `s`, empty when the station has not been seen. */
  function SeriesOf(c: Stations, s: StationId): Series
  {
    if s in c.series then c.series[s] else []
  }

  /** `if station not in all_stations: all_stations[station] = {}` then `all_stations[station][ts] = bikes`. */
  function Record(c: Stations, s: StationId, ts: int, bikes: int): Stations
  {
    var c' := if s in c.series then c else Stations(c.order + [s], c.series[s := []]);
    Stations(c'.order, c'.series[s := Put(c'.series[s], ts, bikes)])
  }

  /**
   * Recording touches only the series of `s`, and adds `s` to the stations if it was new,
   * at the end of the key order.
   */
  lemma RecordEffect(c: Stations, s: StationId, ts: int, bikes: int)
    ensures Record(c, s, ts, bikes).series.Keys == c.series.Keys + {s}
    ensures Record(c, s, ts, bikes).order == if s in c.series then c.order else c.order + [s]
    ensures forall t :: t != s ==> SeriesOf(Record(c, s, ts, bikes), t) == SeriesOf(c, t)
    ensures SeriesOf(Record(c, s, ts, bikes), s) == Put(SeriesOf(c, s), ts, bikes)
  {
    RecordSelf(c, s, ts, bikes);
    forall t | t != s ensures SeriesOf(Record(c, s, ts, bikes), t) == SeriesOf(c, t) {
      RecordOther(c, s, ts, bikes, t);
    }
  }

  /** The series of the station recorded gets the sample put into it. */
  lemma RecordSelf(c: Stations, s: StationId, ts: int, bikes: int)
    ensures SeriesOf(Record(c, s, ts, bikes), s) == Put(SeriesOf(c, s), ts, bikes)
  {
  }

  /** Recording a sample of another station leaves the series of `t` as it was. */
  lemma RecordOther(c: Stations, s: StationId, ts: int, bikes: int, t: StationId)
    requires t != s
    ensures SeriesOf(Record(c, s, ts, bikes), t) == SeriesOf(c, t)
  {
  }

  /** Recording one sample keeps the dict-of-dicts shape. */
  lemma RecordValid(c: Stations, s: StationId, ts: int, bikes: int)
    requires Valid(c)
    ensures Valid(Record(c, s, ts, bikes))
  {
    var c' := if s in c.series then c else Stations(c.order + [s], c.series[s := []]);
    assert Valid(c');
  }

  /** Recording keeps the dict-of-dicts shape. */
  lemma {:induction false} RecordSnapshotValid(c: Stations, ts: int, entries: Snapshot, n: nat)
    requires Valid(c) && n <= |entries|
    ensures Valid(RecordSnapshot(c, ts, entries, n))
  {
    if n > 0 {
      RecordSnapshotValid(c, ts, entries, n - 1);
      RecordValid(RecordSnapshot(c, ts, entries, n - 1), entries[n - 1].0, ts, entries[n - 1].1.bikes);
    }
  }

  /** The collected stations always have the dict-of-dicts shape. */
  lemma {:induction false} CollectAllValid(kept: seq<SnapshotFile>)
    ensures Valid(CollectAll(kept))
  {
    if kept != [] {
      var f := kept[|kept| - 1];
      CollectAllValid(kept[..|kept| - 1]);
      RecordSnapshotValid(CollectAll(kept[..|kept| - 1]), f.timestamp, f.contents, |f.contents|);
    }
  }

  /** The inner loop over the first `n` entries of one kept snapshot. */
  function RecordSnapshot(c: Stations, ts: int, entries: Snapshot, n: nat): Stations
    requires n <= |entries|
  {
    if n == 0 then c
    else Record(RecordSnapshot(c, ts, entries, n - 1), entries[n - 1].0, ts, entries[n - 1].1.bikes)
  }

  /** The stations and series built from the kept files, in order. */
  function CollectAll(kept: seq<SnapshotFile>): Stations
  {
    if kept == [] then NO_STATIONS
    else
      var f := kept[|kept| - 1];
      RecordSnapshot(CollectAll(kept[..|kept| - 1]), f.timestamp, f.contents, |f.contents|)
  }

  /** The readings of station `s` in the kept files, in order: each file that lists `s` gives `(timestamp, bikes)`. */
  function Readings(kept: seq<SnapshotFile>, s: StationId): Series
  {
    if kept == [] then []
    else
      var f := kept[|kept| - 1];
      Readings(kept[..|kept| - 1], s) + (match Find(f.contents, s) case None => [] case Some(r) => [(f.timestamp, r.bikes)])
  }

  lemma {:induction false} ReadingsTimestamps(kept: seq<SnapshotFile>, s: StationId)
    ensures forall t :: t in Timestamps(Readings(kept, s)) ==> exists k :: 0 <= k < |kept| && kept[k].timestamp == t
  {
    if kept != [] {
      var init := kept[..|kept| - 1];
      var f := kept[|kept| - 1];
      ReadingsTimestamps(init, s);
      var tail: Series := match Find(f.contents, s) case None => [] case Some(r) => [(f.timestamp, r.bikes)];
      TimestampsConcat(Readings(init, s), tail);
      forall t | t in Timestamps(Readings(kept, s))
        ensures exists k :: 0 <= k < |kept| && kept[k].timestamp == t
      {
        if t in Timestamps(Readings(init, s)) {
          var k :| 0 <= k < |init| && init[k].timestamp == t;
          assert kept[k] == init[k];
        } else {
          assert tail != [] && t == tail[0].0;
          assert kept[|kept| - 1].timestamp == t;
        }
      }
    }
  }

  /** Recording one snapshot changes the series of `s` only when the snapshot lists `s`. */
  lemma {:induction false} RecordSnapshotSeriesAbsent(c: Stations, ts: int, entries: Snapshot, n: nat, s: StationId)
    requires n <= |entries|
    requires forall i :: 0 <= i < n ==> entries[i].0 != s
    ensures SeriesOf(RecordSnapshot(c, ts, entries, n), s) == SeriesOf(c, s)
  {
    if n > 0 {
      RecordSnapshotSeriesAbsent(c, ts, entries, n - 1, s);
      RecordOther(RecordSnapshot(c, ts, entries, n - 1), entries[n - 1].0, ts, entries[n - 1].1.bikes, s);
    }
  }

  /** ... and then puts its bikes at the snapshot's timestamp. */
  lemma {:induction false} RecordSnapshotSeriesPresent(c: Stations, ts: int, entries: Snapshot, n: nat, s: StationId, i: nat)
    requires i < n <= |entries| && entries[i].0 == s
    ensures SeriesOf(RecordSnapshot(c, ts, entries, n), s) == Put(SeriesOf(c, s), ts, entries[i].1.bikes)
  {
    var prev := RecordSnapshot(c, ts, entries, n - 1);
    var (t, r) := entries[n - 1];
    assert RecordSnapshot(c, ts, entries, n) == Record(prev, t, ts, r.bikes);
    if i == n - 1 {
      assert forall k :: 0 <= k < n - 1 ==> entries[k].0 != s;
      RecordSnapshotSeriesAbsent(c, ts, entries, n - 1, s);
      RecordSelf(prev, s, ts, r.bikes);
    } else {
      RecordSnapshotSeriesPresent(c, ts, entries, n - 1, s, i);
      assert t != s;
      RecordOther(prev, t, ts, r.bikes, s);
    }
  }

  /** The series of one whole snapshot's recording, through `Find`. */
  lemma RecordWholeSnapshot(c: Stations, ts: int, entries: Snapshot, s: StationId)
    ensures SeriesOf(RecordSnapshot(c, ts, entries, |entries|), s) ==
      match Find(entries, s) case None => SeriesOf(c, s) case Some(r) => Put(SeriesOf(c, s), ts, r.bikes)
  {
    match Find(entries, s)
    case None =>
      assert forall i :: 0 <= i < |entries| ==> entries[i].0 in Keys(entries);
      RecordSnapshotSeriesAbsent(c, ts, entries, |entries|, s);
    case Some(r) =>
      var i :| 0 <= i < |entries| && entries[i] == (s, r);
      RecordSnapshotSeriesPresent(c, ts, entries, |entries|, s, i);
  }

  /**
   * When no two kept files share a timestamp, the collected series of every station lists
   * exactly its readings in the kept files, in the order the files were read.
   */
  lemma {:induction false} CollectAllSeries(kept: seq<SnapshotFile>, s: StationId)
    requires forall a, b :: 0 <= a < b < |kept| ==> kept[a].timestamp != kept[b].timestamp
    ensures SeriesOf(CollectAll(kept), s) == Readings(kept, s)
  {
    if kept != [] {
      var init := kept[..|kept| - 1];
      var f := kept[|kept| - 1];
      CollectAllSeries(init, s);
      RecordWholeSnapshot(CollectAll(init), f.timestamp, f.contents, s);
      ReadingsTimestamps(init, s);
    }
  }

  /** The station ids of the first `n` entries of a snapshot, in its key order. */
  function EntryIds(entries: Snapshot, n: nat): seq<StationId>
    requires n <= |entries|
  {
    if n == 0 then [] else EntryIds(entries, n - 1) + [entries[n - 1].0]
  }

  /** The station ids of every entry of the kept files, file after file. */
  function KeptIds(kept: seq<SnapshotFile>): seq<StationId>
  {
    if kept == [] then []
    else
      var f := kept[|kept| - 1];
      KeptIds(kept[..|kept| - 1]) + EntryIds(f.contents, |f.contents|)
  }

  /** The position of the first occurrence of `x` in `xs`, or `|xs|` when there is none. */
  function FirstIndex(xs: seq<StationId>, x: StationId): nat
  {
    if xs == [] then 0
    else if xs[0] == x then 0
    else 1 + FirstIndex(xs[1..], x)
  }

  /** `FirstIndex` finds the first occurrence, and only a missing id gets `|xs|`. */
  lemma {:induction false} FirstIndexSpec(xs: seq<StationId>, x: StationId)
    ensures FirstIndex(xs, x) <= |xs|
    ensures FirstIndex(xs, x) < |xs| <==> x in xs
    ensures FirstIndex(xs, x) < |xs| ==> xs[FirstIndex(xs, x)] == x
    ensures forall k :: 0 <= k < FirstIndex(xs, x) ==> xs[k] != x
  {
    if xs != [] && xs[0] != x {
      FirstIndexSpec(xs[1..], x);
      assert forall k :: 1 <= k < |xs| ==> xs[k] == xs[1..][k - 1];
      assert x in xs ==> x in xs[1..];
    }
  }

  /** Appending `x` moves no first occurrence, and gives `x` one at the end if it had none. */
  lemma {:induction false} FirstIndexAppend(xs: seq<StationId>, x: StationId, y: StationId)
    requires y in xs || y == x
    ensures FirstIndex(xs + [x], y) == if y in xs then FirstIndex(xs, y) else |xs|
  {
    if xs != [] && xs[0] != y {
      assert (xs + [x])[1..] == xs[1..] + [x];
      assert y in xs ==> y in xs[1..];
      FirstIndexAppend(xs[1..], x, y);
    }
  }

  /** `order` lists each id of `ids` once, in the order of their first occurrences. */
  ghost predicate FirstSeenOrder(order: seq<StationId>, ids: seq<StationId>)
  {
    && (forall s :: s in order <==> s in ids)
    && (forall i, j :: 0 <= i < j < |order| ==> FirstIndex(ids, order[i]) < FirstIndex(ids, order[j]))
  }

  /** Adding a station the first time it is met keeps the stations in first-seen order. */
  lemma FirstSeenOrderAppend(order: seq<StationId>, ids: seq<StationId>, x: StationId)
    requires FirstSeenOrder(order, ids)
    ensures FirstSeenOrder(if x in order then order else order + [x], ids + [x])
  {
    var ids' := ids + [x];
    var order' := if x in order then order else order + [x];
    forall i, j | 0 <= i < j < |order'|
      ensures FirstIndex(ids', order'[i]) < FirstIndex(ids', order'[j])
    {
      var a, b := order'[i], order'[j];
      assert a == order[i] && a in ids;
      FirstIndexAppend(ids, x, a);
      FirstIndexSpec(ids, a);
      if j < |order| {
        assert b == order[j] && b in ids;
        FirstIndexAppend(ids, x, b);
      } else {
        assert b == x && x !in ids;
        FirstIndexAppend(ids, x, x);
      }
    }
  }

  /** Recording one sample of a station meets that station after all those met before. */
  lemma RecordFirstSeen(c: Stations, ids: seq<StationId>, s: StationId, ts: int, bikes: int)
    requires Valid(c) && FirstSeenOrder(c.order, ids)
    ensures FirstSeenOrder(Record(c, s, ts, bikes).order, ids + [s])
  {
    RecordEffect(c, s, ts, bikes);
    FirstSeenOrderAppend(c.order, ids, s);
  }

  /** Recording the first `n` entries of a snapshot meets their stations in key order. */
  lemma {:induction false} RecordSnapshotOrder(c: Stations, ids: seq<StationId>, ts: int, entries: Snapshot, n: nat)
    requires Valid(c) && FirstSeenOrder(c.order, ids) && n <= |entries|
    ensures FirstSeenOrder(RecordSnapshot(c, ts, entries, n).order, ids + EntryIds(entries, n))
  {
    if n > 0 {
      var (s, r) := entries[n - 1];
      var prev := RecordSnapshot(c, ts, entries, n - 1);
      var seen := ids + EntryIds(entries, n - 1);
      RecordSnapshotOrder(c, ids, ts, entries, n - 1);
      RecordSnapshotValid(c, ts, entries, n - 1);
      RecordFirstSeen(prev, seen, s, ts, r.bikes);
      assert RecordSnapshot(c, ts, entries, n) == Record(prev, s, ts, r.bikes);
      assert ids + EntryIds(entries, n) == seen + [s];
    } else {
      assert ids + EntryIds(entries, n) == ids;
    }
  }

  /**
   * The key order of `all_stations` is the order in which the files read, entry by entry,
   * first mention each station: the order the statistics and the pairs follow.
   */
  lemma {:induction false} CollectAllOrder(kept: seq<SnapshotFile>)
    ensures FirstSeenOrder(CollectAll(kept).order, KeptIds(kept))
  {
    if kept != [] {
      var init := kept[..|kept| - 1];
      var f := kept[|kept| - 1];
      CollectAllOrder(init);
      CollectAllValid(init);
      RecordSnapshotOrder(CollectAll(init), KeptIds(init), f.timestamp, f.contents, |f.contents|);
    }
  }

  /** The files the loop reads among the first `n` listed: each whose date-hour differs from the last file read. */
  function SelectedUpTo(files: seq<SnapshotFile>, clock: int -> LocalTime, n: nat): seq<SnapshotFile>
    requires n <= |files|
  {
    if n == 0 then []
    else
      var kept := SelectedUpTo(files, clock, n - 1);
      var f := files[n - 1];
      if kept == [] || clock(kept[|kept| - 1].timestamp) != clock(f.timestamp) then kept + [f] else kept
  }

  function Selected(files: seq<SnapshotFile>, clock: int -> LocalTime): seq<SnapshotFile>
  {
    SelectedUpTo(files, clock, |files|)
  }

  /** `(previous_date, previous_hour)`: the date-hour of the last file read, if any. */
  function LastTime(kept: seq<SnapshotFile>, clock: int -> LocalTime): Option<LocalTime>
  {
    if kept == [] then None else Some(clock(kept[|kept| - 1].timestamp))
  }

  /** The loop over `contents.items()` of one file that is read. */
  method ReadSnapshot(stations: Stations, f: SnapshotFile) returns (r: Stations)
    ensures r == RecordSnapshot(stations, f.timestamp, f.contents, |f.contents|)
  {
    r := stations;
    for j := 0 to |f.contents|
      invariant r == RecordSnapshot(stations, f.timestamp, f.contents, j)
    {
      var (station, record) := f.contents[j];
      r := Record(r, station, f.timestamp, record.bikes);
    }
  }

  /** Reading one more file extends what was collected by that file's snapshot. */
  lemma CollectAllAppend(kept: seq<SnapshotFile>, f: SnapshotFile)
    ensures CollectAll(kept + [f]) == RecordSnapshot(CollectAll(kept), f.timestamp, f.contents, |f.contents|)
  {
    assert (kept + [f])[..|kept|] == kept;
  }

  /** One step of the selection: file `i` is kept exactly when its date-hour differs from the last one kept. */
  lemma SelectedStep(files: seq<SnapshotFile>, clock: int -> LocalTime, i: nat)
    requires i < |files|
    ensures LastTime(SelectedUpTo(files, clock, i), clock) == Some(clock(files[i].timestamp)) ==>
      SelectedUpTo(files, clock, i + 1) == SelectedUpTo(files, clock, i)
    ensures LastTime(SelectedUpTo(files, clock, i), clock) != Some(clock(files[i].timestamp)) ==>
      SelectedUpTo(files, clock, i + 1) == SelectedUpTo(files, clock, i) + [files[i]]
    ensures LastTime(SelectedUpTo(files, clock, i + 1), clock) == Some(clock(files[i].timestamp))
  {
  }

  datatype SelectionError = NoFiles

  /**
   * The selection loop, over the files in the order they are listed. An empty listing
   * raises, as `main` does before the loop.
   */
  method CollectHourly(files: seq<SnapshotFile>, clock: int -> LocalTime) returns (r: Result<Stations, SelectionError>)
    ensures r.Err? <==> files == []
    ensures r.Ok? ==> r.value == CollectAll(Selected(files, clock))
  {
    if files == [] {
      return Err(NoFiles);
    }
    var previous: Option<LocalTime> := None;
    var stations := NO_STATIONS;
    for i := 0 to |files|
      invariant previous == LastTime(SelectedUpTo(files, clock, i), clock)
      invariant stations == CollectAll(SelectedUpTo(files, clock, i))
    {
      var f := files[i];
      var dt := clock(f.timestamp);
      SelectedStep(files, clock, i);
      if previous.None? || previous.value != dt {
        CollectAllAppend(SelectedUpTo(files, clock, i), f);
        stations := ReadSnapshot(stations, f);
        previous := Some(dt);
      }
    }
    return Ok(stations);
  }

  // ---------------------------------------------------------------------------
  // What the selection keeps

  /** Every file read is one of the first `n` listed. */
  ghost predicate ReadFromListing(kept: seq<SnapshotFile>, files: seq<SnapshotFile>, n: nat)
    requires n <= |files|
  {
    forall k :: 0 <= k < |kept| ==> kept[k] in files[..n]
  }

  /** Each of the first `n` files listed has its date-hour among the files read. */
  ghost predicate CoversHours(kept: seq<SnapshotFile>, files: seq<SnapshotFile>, n: nat, clock: int -> LocalTime)
    requires n <= |files|
  {
    forall i :: 0 <= i < n ==> exists k :: 0 <= k < |kept| && clock(kept[k].timestamp) == clock(files[i].timestamp)
  }

  /** The date-hours of the files read strictly increase. */
  ghost predicate HoursIncrease(kept: seq<SnapshotFile>, clock: int -> LocalTime)
  {
    forall a, b :: 0 <= a < b < |kept| ==> HourIndex(clock(kept[a].timestamp)) < HourIndex(clock(kept[b].timestamp))
  }

  /** No file read is later than any of the first `n` listed files of its date-hour. */
  ghost predicate EarliestOfHour(kept: seq<SnapshotFile>, files: seq<SnapshotFile>, n: nat, clock: int -> LocalTime)
    requires n <= |files|
  {
    forall k, j :: 0 <= k < |kept| && 0 <= j < n && clock(files[j].timestamp) == clock(kept[k].timestamp) ==>
      kept[k].timestamp <= files[j].timestamp
  }

  lemma {:induction false} SelectedFromListing(files: seq<SnapshotFile>, clock: int -> LocalTime, n: nat)
    requires n <= |files|
    ensures ReadFromListing(SelectedUpTo(files, clock, n), files, n)
  {
    if n > 0 {
      SelectedFromListing(files, clock, n - 1);
      assert files[..n] == files[..n - 1] + [files[n - 1]];
    }
  }

  /** The last file read always has the date-hour of the last file listed. */
  lemma {:induction false} LastReadHasLastHour(files: seq<SnapshotFile>, clock: int -> LocalTime, n: nat)
    requires 0 < n <= |files|
    ensures LastTime(SelectedUpTo(files, clock, n), clock) == Some(clock(files[n - 1].timestamp))
  {
    if n > 1 {
      LastReadHasLastHour(files, clock, n - 1);
    }
  }

  /**
   * Comparing with the last file read is comparing with the file listed just before:
   * a file is read iff it is the first one listed or its date-hour differs from its
   * predecessor's in the listing.
   */
  lemma ReadIffHourChanges(files: seq<SnapshotFile>, clock: int -> LocalTime, n: nat)
    requires n < |files|
    ensures SelectedUpTo(files, clock, n + 1) ==
      SelectedUpTo(files, clock, n) +
      (if n == 0 || clock(files[n].timestamp) != clock(files[n - 1].timestamp) then [files[n]] else [])
  {
    if n > 0 {
      LastReadHasLastHour(files, clock, n);
    }
  }

  /** Two files read one after the other never share a date-hour. */
  lemma {:induction false} ConsecutiveReadsDiffer(files: seq<SnapshotFile>, clock: int -> LocalTime, n: nat, k: nat)
    requires n <= |files| && k + 1 < |SelectedUpTo(files, clock, n)|
    ensures clock(SelectedUpTo(files, clock, n)[k].timestamp) != clock(SelectedUpTo(files, clock, n)[k + 1].timestamp)
  {
    var kept := SelectedUpTo(files, clock, n - 1);
    if k + 1 < |kept| {
      ConsecutiveReadsDiffer(files, clock, n - 1, k);
    } else {
      LastReadHasLastHour(files, clock, n - 1);
    }
  }

  /** Every date-hour that occurs in the listing is read at least once, whatever the order. */
  lemma {:induction false} EveryListedHourIsRead(files: seq<SnapshotFile>, clock: int -> LocalTime, n: nat)
    requires n <= |files|
    ensures CoversHours(SelectedUpTo(files, clock, n), files, n, clock)
  {
    if n > 0 {
      EveryListedHourIsRead(files, clock, n - 1);
      LastReadHasLastHour(files, clock, n);
      var kept := SelectedUpTo(files, clock, n - 1);
      var kept' := SelectedUpTo(files, clock, n);
      assert kept' == kept || kept' == kept + [files[n - 1]];
      forall i | 0 <= i < n
        ensures exists k :: 0 <= k < |kept'| && clock(kept'[k].timestamp) == clock(files[i].timestamp)
      {
        if i == n - 1 {
          assert clock(kept'[|kept'| - 1].timestamp) == clock(files[i].timestamp);
        } else {
          var k :| 0 <= k < |kept| && clock(kept[k].timestamp) == clock(files[i].timestamp);
          assert kept'[k] == kept[k];
        }
      }
    }
  }

  /** The listing is in timestamp order and local date-hours do not go backwards along it. */
  ghost predicate Chronological(files: seq<SnapshotFile>, clock: int -> LocalTime)
  {
    forall i, j :: 0 <= i < j < |files| ==>
      files[i].timestamp <= files[j].timestamp &&
      HourIndex(clock(files[i].timestamp)) <= HourIndex(clock(files[j].timestamp))
  }

  /** In a chronological listing, a file whose date-hour differs from its predecessor's is later than every earlier file's. */
  lemma HourChangeIsNewHour(files: seq<SnapshotFile>, clock: int -> LocalTime, n: nat)
    requires Chronological(files, clock) && 0 < n < |files|
    requires clock(files[n].timestamp) != clock(files[n - 1].timestamp)
    ensures forall j :: 0 <= j < n ==> HourIndex(clock(files[j].timestamp)) < HourIndex(clock(files[n].timestamp))
  {
    HourIndexOrder(clock(files[n].timestamp), clock(files[n - 1].timestamp));
    forall j | 0 <= j < n
      ensures HourIndex(clock(files[j].timestamp)) < HourIndex(clock(files[n].timestamp))
    {
      if j < n - 1 {
        assert HourIndex(clock(files[j].timestamp)) <= HourIndex(clock(files[n - 1].timestamp));
      }
    }
  }

  /** In a chronological listing the date-hours read strictly increase. */
  lemma {:induction false} ChronologicalReadsIncrease(files: seq<SnapshotFile>, clock: int -> LocalTime, n: nat)
    requires Chronological(files, clock) && n <= |files|
    ensures HoursIncrease(SelectedUpTo(files, clock, n), clock)
  {
    if n > 1 {
      ChronologicalReadsIncrease(files, clock, n - 1);
      ReadIffHourChanges(files, clock, n - 1);
      var kept := SelectedUpTo(files, clock, n - 1);
      var kept' := SelectedUpTo(files, clock, n);
      if kept' != kept {
        HourChangeIsNewHour(files, clock, n - 1);
        SelectedFromListing(files, clock, n - 1);
        forall a, b | 0 <= a < b < |kept'|
          ensures HourIndex(clock(kept'[a].timestamp)) < HourIndex(clock(kept'[b].timestamp))
        {
          if b == |kept| {
            assert kept'[a] in files[..n - 1];
          }
        }
      }
    }
  }

  /** No file of `kept` is later than `t`. */
  ghost predicate NoneLaterThan(kept: seq<SnapshotFile>, t: int)
  {
    forall k :: 0 <= k < |kept| ==> kept[k].timestamp <= t
  }

  /** In a chronological listing a file read before position `n - 1` is no later than the file listed there. */
  lemma ReadsNoLaterThanListed(files: seq<SnapshotFile>, clock: int -> LocalTime, n: nat)
    requires Chronological(files, clock) && 0 < n <= |files|
    ensures NoneLaterThan(SelectedUpTo(files, clock, n - 1), files[n - 1].timestamp)
  {
    SelectedFromListing(files, clock, n - 1);
    var kept := SelectedUpTo(files, clock, n - 1);
    forall k | 0 <= k < |kept| ensures kept[k].timestamp <= files[n - 1].timestamp {
      assert kept[k] in files[..n - 1];
      var i :| 0 <= i < n - 1 && files[i] == kept[k];
    }
  }

  /** In a chronological listing a file whose date-hour is new is the earliest listed so far of its date-hour. */
  lemma NewHourIsEarliest(files: seq<SnapshotFile>, clock: int -> LocalTime, n: nat)
    requires Chronological(files, clock) && 0 < n <= |files|
    requires n == 1 || clock(files[n - 1].timestamp) != clock(files[n - 2].timestamp)
    ensures forall j :: 0 <= j < n && clock(files[j].timestamp) == clock(files[n - 1].timestamp) ==>
      files[n - 1].timestamp <= files[j].timestamp
  {
    if n > 1 {
      HourChangeIsNewHour(files, clock, n - 1);
    }
  }

  /**
   * In a chronological listing, a file whose date-hour is that of its predecessor is not
   * read, and the files read stay the earliest of their date-hours.
   */
  lemma EarliestWithoutRead(files: seq<SnapshotFile>, clock: int -> LocalTime, n: nat)
    requires Chronological(files, clock) && 0 < n <= |files|
    requires EarliestOfHour(SelectedUpTo(files, clock, n - 1), files, n - 1, clock)
    ensures EarliestOfHour(SelectedUpTo(files, clock, n - 1), files, n, clock)
  {
    ReadsNoLaterThanListed(files, clock, n);
  }

  /** ... and a file whose date-hour is new is read and is the earliest of its date-hour. */
  lemma EarliestWithRead(files: seq<SnapshotFile>, clock: int -> LocalTime, n: nat)
    requires Chronological(files, clock) && 0 < n <= |files|
    requires n == 1 || clock(files[n - 1].timestamp) != clock(files[n - 2].timestamp)
    requires EarliestOfHour(SelectedUpTo(files, clock, n - 1), files, n - 1, clock)
    ensures EarliestOfHour(SelectedUpTo(files, clock, n - 1) + [files[n - 1]], files, n, clock)
  {
    ReadsNoLaterThanListed(files, clock, n);
    NewHourIsEarliest(files, clock, n);
    var kept := SelectedUpTo(files, clock, n - 1);
    var kept' := kept + [files[n - 1]];
    forall k, j | 0 <= k < |kept'| && 0 <= j < n && clock(files[j].timestamp) == clock(kept'[k].timestamp)
      ensures kept'[k].timestamp <= files[j].timestamp
    {
      if k < |kept| {
        assert kept'[k] == kept[k];
      }
    }
  }

  /**
   * In a chronological listing each file read is the earliest of its date-hour among
   * the files listed so far.
   */
  lemma {:induction false} ChronologicalReadsEarliest(files: seq<SnapshotFile>, clock: int -> LocalTime, n: nat)
    requires Chronological(files, clock) && n <= |files|
    ensures EarliestOfHour(SelectedUpTo(files, clock, n), files, n, clock)
  {
    if n > 0 {
      ChronologicalReadsEarliest(files, clock, n - 1);
      ReadIffHourChanges(files, clock, n - 1);
      if n == 1 || clock(files[n - 1].timestamp) != clock(files[n - 2].timestamp) {
        EarliestWithRead(files, clock, n);
      } else {
        EarliestWithoutRead(files, clock, n);
      }
    }
  }

  /** No two files of `kept` share a date-hour. */
  ghost predicate DistinctHours(kept: seq<SnapshotFile>, clock: int -> LocalTime)
  {
    forall a, b :: 0 <= a < b < |kept| ==> clock(kept[a].timestamp) != clock(kept[b].timestamp)
  }

  /** Every date-hour occurring in `files` occurs in `kept`. */
  ghost predicate HasEveryHourOf(kept: seq<SnapshotFile>, files: seq<SnapshotFile>, clock: int -> LocalTime)
  {
    forall f :: f in files ==> exists k :: 0 <= k < |kept| && clock(kept[k].timestamp) == clock(f.timestamp)
  }

  /** Every file of `kept` is one of `files`, and none is later than a file of `files` with its date-hour. */
  ghost predicate EarliestOf(kept: seq<SnapshotFile>, files: seq<SnapshotFile>, clock: int -> LocalTime)
  {
    && (forall k :: 0 <= k < |kept| ==> kept[k] in files)
    && (forall k, g :: 0 <= k < |kept| && g in files && clock(g.timestamp) == clock(kept[k].timestamp) ==>
          kept[k].timestamp <= g.timestamp)
  }

  /**
   * `kept` holds one file per date-hour that occurs in `files` and no more: each is one
   * of `files`, and each is the earliest of `files` with its date-hour.
   */
  ghost predicate OnePerHourEarliest(kept: seq<SnapshotFile>, files: seq<SnapshotFile>, clock: int -> LocalTime)
  {
    DistinctHours(kept, clock) && HasEveryHourOf(kept, files, clock) && EarliestOf(kept, files, clock)
  }

  lemma ChronologicalDistinctHours(files: seq<SnapshotFile>, clock: int -> LocalTime, kept: seq<SnapshotFile>)
    requires Chronological(files, clock) && kept == SelectedUpTo(files, clock, |files|)
    ensures DistinctHours(kept, clock)
  {
    ChronologicalReadsIncrease(files, clock, |files|);
    forall a, b | 0 <= a < b < |kept|
      ensures clock(kept[a].timestamp) != clock(kept[b].timestamp)
    {
      assert HourIndex(clock(kept[a].timestamp)) < HourIndex(clock(kept[b].timestamp));
    }
  }

  lemma ListingHoursAllRead(files: seq<SnapshotFile>, clock: int -> LocalTime, kept: seq<SnapshotFile>)
    requires kept == SelectedUpTo(files, clock, |files|)
    ensures HasEveryHourOf(kept, files, clock)
  {
    EveryListedHourIsRead(files, clock, |files|);
    forall f | f in files
      ensures exists k :: 0 <= k < |kept| && clock(kept[k].timestamp) == clock(f.timestamp)
    {
      var i :| 0 <= i < |files| && files[i] == f;
    }
  }

  lemma ChronologicalEarliest(files: seq<SnapshotFile>, clock: int -> LocalTime, kept: seq<SnapshotFile>)
    requires Chronological(files, clock) && kept == SelectedUpTo(files, clock, |files|)
    ensures EarliestOf(kept, files, clock)
  {
    assert files[..|files|] == files;
    SelectedFromListing(files, clock, |files|);
    ChronologicalReadsEarliest(files, clock, |files|);
    forall k, g | 0 <= k < |kept| && g in files && clock(g.timestamp) == clock(kept[k].timestamp)
      ensures kept[k].timestamp <= g.timestamp
    {
      var j :| 0 <= j < |files| && files[j] == g;
    }
  }

  /**
   * For a listing in chronological order the loop reads exactly one file per date-hour
   * that occurs, and that file is the earliest of its date-hour.
   */
  lemma ChronologicalListingOnePerHour(files: seq<SnapshotFile>, clock: int -> LocalTime)
    requires Chronological(files, clock)
    ensures OnePerHourEarliest(Selected(files, clock), files, clock)
  {
    var kept := SelectedUpTo(files, clock, |files|);
    ChronologicalDistinctHours(files, clock, kept);
    ListingHoursAllRead(files, clock, kept);
    ChronologicalEarliest(files, clock, kept);
  }

  // ---------------------------------------------------------------------------
  // Sorting the listing first

  predicate SortedByTimestamp(files: seq<SnapshotFile>)
  {
    forall i, j :: 0 <= i < j < |files| ==> files[i].timestamp <= files[j].timestamp
  }

  /** Insert `f` before the first file that is later, so after any with the same timestamp. */
  function InsertByTimestamp(f: SnapshotFile, sorted: seq<SnapshotFile>): seq<SnapshotFile>
  {
    if sorted == [] || f.timestamp < sorted[0].timestamp then [f] + sorted
    else [sorted[0]] + InsertByTimestamp(f, sorted[1..])
  }

  /** Insertion adds exactly `f`, and puts either `f` or the old first file first. */
  lemma {:induction false} InsertByTimestampAdds(f: SnapshotFile, sorted: seq<SnapshotFile>)
    ensures multiset(InsertByTimestamp(f, sorted)) == multiset(sorted) + multiset{f}
    ensures |InsertByTimestamp(f, sorted)| == |sorted| + 1
    ensures InsertByTimestamp(f, sorted)[0] == f || InsertByTimestamp(f, sorted)[0] == sorted[0]
  {
    if sorted != [] && f.timestamp >= sorted[0].timestamp {
      var tail := sorted[1..];
      assert sorted == [sorted[0]] + tail;
      InsertByTimestampAdds(f, tail);
    }
  }

  /** Inserting into a sorted listing keeps it sorted. */
  lemma {:induction false} InsertByTimestampSorted(f: SnapshotFile, sorted: seq<SnapshotFile>)
    requires SortedByTimestamp(sorted)
    ensures SortedByTimestamp(InsertByTimestamp(f, sorted))
  {
    if sorted != [] && f.timestamp >= sorted[0].timestamp {
      var tail := sorted[1..];
      InsertByTimestampSorted(f, tail);
      InsertByTimestampAdds(f, tail);
      var rest := InsertByTimestamp(f, tail);
      var r := [sorted[0]] + rest;
      assert sorted[0].timestamp <= rest[0].timestamp;
      forall a, b | 0 <= a < b < |r| ensures r[a].timestamp <= r[b].timestamp {
        if a == 0 {
          assert rest[0].timestamp <= rest[b - 1].timestamp || b == 1;
        } else {
          assert r[a] == rest[a - 1] && r[b] == rest[b - 1];
        }
      }
    }
  }

  /**
   * The listing sorted by timestamp: an insertion sort that inserts each file after the
   * earlier-listed files with its timestamp.
   */
  function SortByTimestamp(files: seq<SnapshotFile>): (r: seq<SnapshotFile>)
    ensures SortedByTimestamp(r)
    ensures multiset(r) == multiset(files)
  {
    if files == [] then []
    else
      assert files == files[..|files| - 1] + [files[|files| - 1]];
      InsertByTimestampSorted(files[|files| - 1], SortByTimestamp(files[..|files| - 1]));
      InsertByTimestampAdds(files[|files| - 1], SortByTimestamp(files[..|files| - 1]));
      InsertByTimestamp(files[|files| - 1], SortByTimestamp(files[..|files| - 1]))
  }

  /** Two files with the same timestamp stay in the order they were listed in. */
  lemma SortKeepsTies(a: SnapshotFile, b: SnapshotFile)
    requires a.timestamp == b.timestamp
    ensures SortByTimestamp([a, b]) == [a, b]
  {
    assert [a, b][..1] == [a];
    assert [a][..0] == [];
  }

  /**
   * Local time whose date-hour never goes back to one already left. An ordinary fall-back
   * from 02:00 to 01:00 keeps this (hour 1 lasts two hours); a zone change that returns to
   * an earlier date-hour, such as 00:00 back to 23:00 of the day before, breaks it.
   */
  ghost predicate MonotoneClock(clock: int -> LocalTime)
  {
    forall a, b :: a <= b ==> HourIndex(clock(a)) <= HourIndex(clock(b))
  }

  /**
   * With the listing sorted by timestamp first, whatever order the directory lists the
   * files in, the loop reads exactly one file per date-hour that occurs among them, and
   * it is the earliest file of that date-hour.
   */
  lemma SortedSelectionOnePerHour(files: seq<SnapshotFile>, clock: int -> LocalTime)
    requires MonotoneClock(clock)
    ensures OnePerHourEarliest(Selected(SortByTimestamp(files), clock), files, clock)
  {
    var sorted := SortByTimestamp(files);
    SortedIsChronological(sorted, clock);
    ChronologicalListingOnePerHour(sorted, clock);
    SameFiles(files, sorted);
    OnePerHourEarliestSameFiles(Selected(sorted, clock), sorted, files, clock);
  }

  lemma SortedIsChronological(sorted: seq<SnapshotFile>, clock: int -> LocalTime)
    requires MonotoneClock(clock) && SortedByTimestamp(sorted)
    ensures Chronological(sorted, clock)
  {
  }

  lemma SameFiles(files: seq<SnapshotFile>, sorted: seq<SnapshotFile>)
    requires multiset(sorted) == multiset(files)
    ensures forall f :: f in files <==> f in sorted
  {
    forall f
      ensures f in files <==> f in sorted
    {
      assert f in files <==> f in multiset(files);
      assert f in sorted <==> f in multiset(sorted);
    }
  }

  /** Which files the listing holds is all that `OnePerHourEarliest` depends on. */
  lemma OnePerHourEarliestSameFiles(kept: seq<SnapshotFile>, a: seq<SnapshotFile>, b: seq<SnapshotFile>, clock: int -> LocalTime)
    requires forall f :: f in a <==> f in b
    requires OnePerHourEarliest(kept, a, clock)
    ensures OnePerHourEarliest(kept, b, clock)
  {
    assert HasEveryHourOf(kept, b, clock) by {
      forall f | f in b
        ensures exists k :: 0 <= k < |kept| && clock(kept[k].timestamp) == clock(f.timestamp)
      {
        assert f in a;
      }
    }
  }

  /** The selection loop run over the listing sorted by timestamp. */
  method CollectHourlySorted(files: seq<SnapshotFile>, clock: int -> LocalTime) returns (r: Result<Stations, SelectionError>)
    ensures r.Err? <==> files == []
    ensures r.Ok? ==> r.value == CollectAll(Selected(SortByTimestamp(files), clock))
  {
    var sorted := SortByTimestamp(files);
    assert |sorted| == |files| by {
      assert |multiset(sorted)| == |multiset(files)|;
    }
    r := CollectHourly(sorted, clock);
  }

  // ---------------------------------------------------------------------------
  // The listing as the directory returns it

  /** Local time in a zone with no offset and no daylight saving. */
  function UtcClock(ts: int): (t: LocalTime)
    ensures HourIndex(t) == ts / 3600
  {
    LocalTime(ts / 86400, (ts % 86400) / 3600)
  }

  lemma UtcClockMonotone()
    ensures MonotoneClock(UtcClock)
  {
    forall a: int, b: int | a <= b
      ensures HourIndex(UtcClock(a)) <= HourIndex(UtcClock(b))
    {
      HoursMonotone(a, b);
    }
  }

  lemma HoursMonotone(a: int, b: int)
    requires a <= b
    ensures a / 3600 <= b / 3600
  {
    assert a == 3600 * (a / 3600) + a % 3600;
    assert b == 3600 * (b / 3600) + b % 3600;
  }

  function FileAt(ts: int): SnapshotFile
  {
    SnapshotFile(ts, [])
  }

  /** The listing of the example below: 10:15, 10:00, 11:00 and 10:30 on 1970-01-01. */
  function ExampleListing(): seq<SnapshotFile>
  {
    [FileAt(36900), FileAt(36000), FileAt(39600), FileAt(37800)]
  }

  lemma ExampleHours()
    ensures UtcClock(36900) == UtcClock(36000) == UtcClock(37800) == LocalTime(0, 10)
    ensures UtcClock(39600) == LocalTime(0, 11)
  {
  }

  /**
   * Four files whose first, second and fourth share a date-hour that the third does not:
   * the loop keeps the first, the third and the fourth.
   */
  lemma {:induction false} ExampleSelection(files: seq<SnapshotFile>, clock: int -> LocalTime)
    requires |files| == 4
    requires clock(files[0].timestamp) == clock(files[1].timestamp) == clock(files[3].timestamp)
    requires clock(files[2].timestamp) != clock(files[0].timestamp)
    ensures Selected(files, clock) == [files[0], files[2], files[3]]
  {
    SelectedStep(files, clock, 0);
    SelectedStep(files, clock, 1);
    SelectedStep(files, clock, 2);
    SelectedStep(files, clock, 3);
  }

  /**
   * Read in the order listed (10:15, 10:00, 11:00, 10:30), the loop reads hour 10 twice and
   * never reads 10:00, the earliest file of hour 10, although the clock is monotone.
   */
  lemma {:induction false} ListingOrderRereadsHour()
    ensures MonotoneClock(UtcClock)
    ensures Selected(ExampleListing(), UtcClock) == [FileAt(36900), FileAt(39600), FileAt(37800)]
    ensures UtcClock(36900) == UtcClock(37800)
    ensures FileAt(36000) !in Selected(ExampleListing(), UtcClock)
    ensures !OnePerHourEarliest(Selected(ExampleListing(), UtcClock), ExampleListing(), UtcClock)
  {
    UtcClockMonotone();
    ExampleHours();
    ExampleSelection(ExampleListing(), UtcClock);
    var kept := Selected(ExampleListing(), UtcClock);
    assert UtcClock(kept[0].timestamp) == UtcClock(kept[2].timestamp);
    assert !DistinctHours(kept, UtcClock);
  }
}
