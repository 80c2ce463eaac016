/**
 * The last loop of `main` in map_station_trends.py: over every pair of stations, taken
 * once each in the order of the statistics, draw a line between two stations that lie
 * within half a mile of each other but whose mean hourly change differs by more than
 * 2.5 bikes. The geodesic distance is the parameter `distance`, in miles; the model
 * returns the index pairs a line is drawn for, in drawing order.
 */
module PairFinder {
  import opened Feed

  const RADIUS_MILES: real := 0.5
  const MIN_DIFF: real := 2.5

  /** A station of the statistics, with its `(latitude, longitude)` and its mean change. */
  datatype PlacedStation = PlacedStation(id: StationId, position: (real, real), mean: real)

  type Distance = ((real, real), (real, real)) -> real

  function Abs(x: real): real
  {
    if x < 0.0 then -x else x
  }

  /** The test of the inner loop: close together, yet with means far apart. */
  predicate Diverging(a: PlacedStation, b: PlacedStation, distance: Distance)
  {
    distance(a.position, b.position) < RADIUS_MILES && Abs(a.mean - b.mean) > MIN_DIFF
  }

  /** The pairs `(i, k)` flagged by the inner loop for `i` once it has reached `j`. */
  function RowUpTo(stations: seq<PlacedStation>, distance: Distance, i: nat, j: nat): seq<(nat, nat)>
    requires i < j <= |stations|
    decreases j
  {
    if j == i + 1 then []
    else
      RowUpTo(stations, distance, i, j - 1) +
      (if Diverging(stations[i], stations[j - 1], distance) then [(i, j - 1)] else [])
  }

  /** The pairs flagged once the outer loop has handled its first `i` stations. */
  function PairsUpTo(stations: seq<PlacedStation>, distance: Distance, i: nat): seq<(nat, nat)>
    requires i <= |stations|
  {
    if i == 0 then [] else PairsUpTo(stations, distance, i - 1) + RowUpTo(stations, distance, i - 1, |stations|)
  }

  function DivergingPairs(stations: seq<PlacedStation>, distance: Distance): seq<(nat, nat)>
  {
    PairsUpTo(stations, distance, |stations|)
  }

  /** `(i, k)` is a pair of stations, earlier one first, that the test flags. */
  predicate Flagged(stations: seq<PlacedStation>, distance: Distance, p: (nat, nat))
  {
    p.0 < p.1 < |stations| && Diverging(stations[p.0], stations[p.1], distance)
  }

  /** Lexicographic order on index pairs: the order the nested loops visit them in. */
  predicate Before(p: (nat, nat), q: (nat, nat))
  {
    p.0 < q.0 || (p.0 == q.0 && p.1 < q.1)
  }

  predicate StrictlyIncreasing(ps: seq<(nat, nat)>)
  {
    forall a, b :: 0 <= a < b < |ps| ==> Before(ps[a], ps[b])
  }

  lemma {:induction false} RowUpToMembers(stations: seq<PlacedStation>, distance: Distance, i: nat, j: nat)
    requires i < j <= |stations|
    ensures forall p :: p in RowUpTo(stations, distance, i, j) <==> p.0 == i && p.1 < j && Flagged(stations, distance, p)
    ensures StrictlyIncreasing(RowUpTo(stations, distance, i, j))
    decreases j
  {
    if j > i + 1 {
      RowUpToMembers(stations, distance, i, j - 1);
    }
  }

  /** Two increasing runs, the first wholly before the second, make one increasing run. */
  lemma IncreasingConcat(xs: seq<(nat, nat)>, ys: seq<(nat, nat)>)
    requires StrictlyIncreasing(xs) && StrictlyIncreasing(ys)
    requires forall a, b :: 0 <= a < |xs| && 0 <= b < |ys| ==> Before(xs[a], ys[b])
    ensures StrictlyIncreasing(xs + ys)
  {
    forall a, b | 0 <= a < b < |xs + ys|
      ensures Before((xs + ys)[a], (xs + ys)[b])
    {
      if b < |xs| {
        assert (xs + ys)[a] == xs[a] && (xs + ys)[b] == xs[b];
      } else if a < |xs| {
        assert (xs + ys)[a] == xs[a] && (xs + ys)[b] == ys[b - |xs|];
      } else {
        assert (xs + ys)[a] == ys[a - |xs|] && (xs + ys)[b] == ys[b - |xs|];
      }
    }
  }

  lemma {:induction false} PairsUpToMembers(stations: seq<PlacedStation>, distance: Distance, i: nat)
    requires i <= |stations|
    ensures forall p :: p in PairsUpTo(stations, distance, i) <==> p.0 < i && Flagged(stations, distance, p)
    ensures StrictlyIncreasing(PairsUpTo(stations, distance, i))
  {
    if i > 0 {
      PairsUpToMembers(stations, distance, i - 1);
      RowUpToMembers(stations, distance, i - 1, |stations|);
      var prev := PairsUpTo(stations, distance, i - 1);
      var row := RowUpTo(stations, distance, i - 1, |stations|);
      forall a, b | 0 <= a < |prev| && 0 <= b < |row|
        ensures Before(prev[a], row[b])
      {
        assert prev[a] in prev && row[b] in row;
      }
      IncreasingConcat(prev, row);
    }
  }

  /**
   * The lines drawn are exactly the flagged pairs, each once, earlier station first, in
   * the order the nested loops reach them.
   */
  lemma DivergingPairsExact(stations: seq<PlacedStation>, distance: Distance)
    ensures forall p :: p in DivergingPairs(stations, distance) <==> Flagged(stations, distance, p)
    ensures StrictlyIncreasing(DivergingPairs(stations, distance))
  {
    PairsUpToMembers(stations, distance, |stations|);
  }

  /** The test is symmetric whenever the distance is. */
  lemma DivergingSymmetric(a: PlacedStation, b: PlacedStation, distance: Distance)
    requires distance(a.position, b.position) == distance(b.position, a.position)
    ensures Diverging(a, b, distance) == Diverging(b, a, distance)
  {
    assert Abs(a.mean - b.mean) == Abs(b.mean - a.mean);
  }

  /**
   * Looking only at `j > i` misses nothing: with a symmetric distance, any two distinct
   * stations that pass the test in either order are joined by a line.
   */
  lemma NoPairMissed(stations: seq<PlacedStation>, distance: Distance, i: nat, j: nat)
    requires i < |stations| && j < |stations| && i != j
    requires distance(stations[i].position, stations[j].position) == distance(stations[j].position, stations[i].position)
    requires Diverging(stations[i], stations[j], distance)
    ensures (if i < j then (i, j) else (j, i)) in DivergingPairs(stations, distance)
  {
    DivergingSymmetric(stations[i], stations[j], distance);
    DivergingPairsExact(stations, distance);
  }

  /** The nested loops `for i ...: for j in range(i + 1, n): ...`. */
  method FindDivergingPairs(stations: seq<PlacedStation>, distance: Distance) returns (pairs: seq<(nat, nat)>)
    ensures pairs == DivergingPairs(stations, distance)
  {
    pairs := [];
    for i := 0 to |stations|
      invariant pairs == PairsUpTo(stations, distance, i)
    {
      for j := i + 1 to |stations|
        invariant pairs == PairsUpTo(stations, distance, i) + RowUpTo(stations, distance, i, j)
      {
        var a := stations[i];
        var b := stations[j];
        if distance(a.position, b.position) < RADIUS_MILES && Abs(a.mean - b.mean) > MIN_DIFF {
          pairs := pairs + [(i, j)];
        }
      }
    }
  }
}
