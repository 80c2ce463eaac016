/**
 * The data shared by the three scripts: station identifiers, local date-hours
 * (what `datetime.fromtimestamp` yields, reduced to the parts the pipeline reads),
 * and the compact per-station records of a processed snapshot file.
 */
module Feed {
  import opened Wrappers

  type StationId = string

  /** `datetime.hour`. */
  type Hour = h: int | 0 <= h < 24

  /**
   * A local calendar date and hour. `day` counts days from 1970-01-01, so that
   * `dt2.date() - dt1.date() == timedelta(days=1)` is `t2.day - t1.day == 1`.
   */
  datatype LocalTime = LocalTime(day: int, hour: Hour)

  /** `date.weekday()`: Monday is 0 and Sunday is 6; 1970-01-01 was a Thursday. */
  function Weekday(day: int): int
  {
    (day + 3) % 7
  }

  /** Hours elapsed since midnight of 1970-01-01: a linear clock on date-hours. */
  function HourIndex(t: LocalTime): int
  {
    t.day * 24 + t.hour
  }

  /** Date-hours are ordered and identified by their hour index. */
  lemma HourIndexOrder(a: LocalTime, b: LocalTime)
    ensures HourIndex(a) == HourIndex(b) <==> a == b
    ensures HourIndex(a) < HourIndex(b) <==> a.day < b.day || (a.day == b.day && a.hour < b.hour)
  {
  }

  /**
   * One entry of a processed snapshot: the JSON list
   * `[is_active, bikes, docks, capacity]`, with the bike-angels score as a fifth
   * element when the feed carried one.
   */
  datatype CompactRecord = CompactRecord(isActive: bool, bikes: int, docks: int, capacity: int, points: Option<int>)

  /** `len(tuple)` of the JSON list a record is stored as. */
  function TupleLength(r: CompactRecord): nat
  {
    if r.points.Some? then 5 else 4
  }

  predicate DistinctKeys<V>(s: seq<(StationId, V)>)
  {
    forall i, j :: 0 <= i < j < |s| ==> s[i].0 != s[j].0
  }

  /** A processed snapshot: a JSON object from station id to record, in its key order. */
  type Snapshot = s: seq<(StationId, CompactRecord)> | DistinctKeys(s)

  function Keys<V>(s: seq<(StationId, V)>): set<StationId>
  {
    set i | 0 <= i < |s| :: s[i].0
  }

  /** `key in contents` / `contents[key]` on a snapshot. */
  function Find(s: seq<(StationId, CompactRecord)>, id: StationId): (r: Option<CompactRecord>)
    ensures r.Some? <==> id in Keys(s)
    ensures r.Some? ==> (id, r.value) in s
  {
    if s == [] then None
    else if s[0].0 == id then Some(s[0].1)
    else Find(s[1..], id)
  }

  /** In a snapshot a station has one record, so `Find` returns exactly that record. */
  lemma {:induction false} FindUnique(s: Snapshot, id: StationId, v: CompactRecord)
    requires (id, v) in s
    ensures Find(s, id) == Some(v)
  {
    if s[0].0 != id {
      var k :| 0 <= k < |s| && s[k] == (id, v);
      assert k != 0;
      var rest: Snapshot := s[1..];
      assert rest[k - 1] == (id, v);
      FindUnique(rest, id, v);
    }
  }

  /** One file of `processed_output/`: the timestamp its name carries and its contents. */
  datatype SnapshotFile = SnapshotFile(timestamp: int, contents: Snapshot)
}
