/**
 * `process_file_contents` of process_data.py: turn each station feature of a raw feed
 * snapshot into a processed record. A station is active when it is installed, renting
 * and returning; an active station also carries its bike-angels action and a signed
 * score (0 for "neutral", the points for "take", the negated points for "give"). Any
 * other action stops the run. Fields the feed may lack are `Option`s, so that a missing
 * key is the `KeyError` the source raises.
 */
module SnapshotNormalizer {
  import opened Wrappers
  import opened Feed

  /** One element of `contents["features"]`: the fields the function reads. */
  datatype Feature = Feature(
    coords: seq<real>,          // geometry.coordinates
    id: StationId,              // properties.station.id
    installed: bool,            // properties.station.installed
    renting: bool,              // properties.station.renting
    returning: bool,            // properties.station.returning
    action: Option<string>,     // properties.bike_angels_action, when present
    points: Option<int>)        // properties.bike_angels_points, when present

  /** The three actions the function recognises. */
  datatype Action = Neutral | Take | Give

  function ActionName(a: Action): string
  {
    match a
    case Neutral => "neutral"
    case Take => "take"
    case Give => "give"
  }

  /** The `if`/`elif` chain on the action string; `None` is the `else` branch. */
  function ParseAction(s: string): (r: Option<Action>)
    ensures r.Some? ==> ActionName(r.value) == s
  {
    if s == "neutral" then Some(Neutral)
    else if s == "take" then Some(Take)
    else if s == "give" then Some(Give)
    else None
  }

  /** Every action name is recognised, as that action. */
  lemma ParseActionName(a: Action)
    ensures ParseAction(ActionName(a)) == Some(a)
  {
  }

  /** The strings the chain accepts are exactly the three action names. */
  lemma ParseActionAccepts(s: string)
    ensures ParseAction(s).Some? <==> s in {"neutral", "take", "give"}
  {
  }

  datatype BikeAngels = BikeAngels(action: Action, points: int)

  /** A processed record; `bikeAngels` is present exactly for an active station. */
  datatype ProcessedStation = ProcessedStation(coords: seq<real>, isActive: bool, id: StationId, bikeAngels: Option<BikeAngels>)

  datatype NormalizeError =
    | MissingAction(id: StationId)                    // KeyError on bike_angels_action
    | UnknownAction(action: string, id: StationId)    // the ValueError of the else branch
    | MissingPoints(id: StationId)                    // KeyError on bike_angels_points

  /** `all(...)` over "installed", "renting" and "returning". */
  predicate IsActive(f: Feature)
  {
    f.installed && f.renting && f.returning
  }

  /** The signed score of an action; "neutral" does not read the points. */
  function SignedPoints(a: Action, points: Option<int>, id: StationId): (r: Result<int, NormalizeError>)
    ensures r.Err? <==> a != Neutral && points.None?
  {
    match a
    case Neutral => Ok(0)
    case Take => if points.Some? then Ok(points.value) else Err(MissingPoints(id))
    case Give => if points.Some? then Ok(points.value * -1) else Err(MissingPoints(id))
  }

  /** The raw points read back from a signed score: the sign undoes "give". */
  function RawPoints(a: Action, signed: int): int
  {
    if a == Give then -signed else signed
  }

  /** The score keeps the magnitude of the points and carries the direction in its sign. */
  lemma SignedPointsRoundTrip(a: Action, points: int, id: StationId)
    requires a != Neutral
    ensures SignedPoints(a, Some(points), id).Ok?
    ensures RawPoints(a, SignedPoints(a, Some(points), id).value) == points
    ensures points > 0 ==> (SignedPoints(a, Some(points), id).value > 0 <==> a == Take)
  {
  }

  /** One iteration of the loop body. */
  function NormalizeFeature(f: Feature): Result<ProcessedStation, NormalizeError>
  {
    if IsActive(f) then
      if f.action.None? then Err(MissingAction(f.id))
      else
        match ParseAction(f.action.value)
        case None => Err(UnknownAction(f.action.value, f.id))
        case Some(a) =>
          match SignedPoints(a, f.points, f.id)
          case Err(e) => Err(e)
          case Ok(p) => Ok(ProcessedStation(f.coords, true, f.id, Some(BikeAngels(a, p))))
    else Ok(ProcessedStation(f.coords, false, f.id, None))
  }

  /**
   * What a feature becomes: coords and id pass through; an inactive station never fails
   * and carries no bike-angels data; an active one fails exactly when the action is
   * missing or unrecognised, or the points are missing for "take" or "give".
   */
  lemma NormalizeFeatureCases(f: Feature)
    ensures NormalizeFeature(f).Ok? ==>
      var p := NormalizeFeature(f).value;
      && p.coords == f.coords && p.id == f.id
      && p.isActive == (f.installed && f.renting && f.returning)
      && (p.bikeAngels.Some? <==> p.isActive)
    ensures !IsActive(f) ==> NormalizeFeature(f) == Ok(ProcessedStation(f.coords, false, f.id, None))
    ensures IsActive(f) ==>
      (NormalizeFeature(f).Ok? <==>
        f.action.Some? && f.action.value in {"neutral", "take", "give"} &&
        (f.action.value == "neutral" || f.points.Some?))
    ensures IsActive(f) && f.action.Some? && f.action.value !in {"neutral", "take", "give"} ==>
      NormalizeFeature(f) == Err(UnknownAction(f.action.value, f.id))
    ensures IsActive(f) && NormalizeFeature(f).Ok? ==>
      var b := NormalizeFeature(f).value.bikeAngels.value;
      && ActionName(b.action) == f.action.value
      && b.points == (match b.action case Neutral => 0 case Take => f.points.value case Give => -f.points.value)
  {
    if IsActive(f) && f.action.Some? {
      ParseActionAccepts(f.action.value);
    }
  }

  /**
   * The loop over `stations`. It returns the list the source builds (and then drops): one
   * record per feature, in order, when every feature normalises; otherwise the error of
   * the first feature that does not.
   */
  method ProcessFileContents(features: seq<Feature>) returns (r: Result<seq<ProcessedStation>, NormalizeError>)
    ensures r.Ok? <==> forall i :: 0 <= i < |features| ==> NormalizeFeature(features[i]).Ok?
    ensures r.Ok? ==> |r.value| == |features|
    ensures r.Ok? ==> forall i :: 0 <= i < |features| ==> r.value[i] == NormalizeFeature(features[i]).value
    ensures r.Err? ==>
      exists i :: 0 <= i < |features| && NormalizeFeature(features[i]) == Err(r.error) &&
                  forall j :: 0 <= j < i ==> NormalizeFeature(features[j]).Ok?
  {
    var processed: seq<ProcessedStation> := [];
    for i := 0 to |features|
      invariant |processed| == i
      invariant forall j :: 0 <= j < i ==> NormalizeFeature(features[j]).Ok? && processed[j] == NormalizeFeature(features[j]).value
    {
      var station := features[i];
      var isActive := station.installed && station.renting && station.returning;
      if isActive {
        if station.action.None? {
          return Err(MissingAction(station.id));
        }
        var action := station.action.value;
        var points: int;
        if action == "neutral" {
          points := 0;
        } else if action == "take" {
          if station.points.None? {
            return Err(MissingPoints(station.id));
          }
          points := station.points.value;
        } else if action == "give" {
          if station.points.None? {
            return Err(MissingPoints(station.id));
          }
          points := station.points.value * -1;
        } else {
          return Err(UnknownAction(action, station.id));
        }
        processed := processed + [ProcessedStation(station.coords, isActive, station.id, Some(BikeAngels(ParseAction(action).value, points)))];
      } else {
        processed := processed + [ProcessedStation(station.coords, isActive, station.id, None)];
      }
    }
    return Ok(processed);
  }

  /** An active station reporting "give", "take" or "neutral" with magnitude 4, or the unknown "sideways". */
  function Reporting(action: string): Feature
  {
    Feature([-71.0, 42.3], "7", true, true, true, Some(action), Some(4))
  }

  /** "give" 4 scores -4, "take" 4 scores +4, "neutral" scores 0, and "sideways" is an error naming the station. */
  lemma ActionScenarios()
    ensures NormalizeFeature(Reporting("give")).value.bikeAngels == Some(BikeAngels(Give, -4))
    ensures NormalizeFeature(Reporting("take")).value.bikeAngels == Some(BikeAngels(Take, 4))
    ensures NormalizeFeature(Reporting("neutral")).value.bikeAngels == Some(BikeAngels(Neutral, 0))
    ensures NormalizeFeature(Reporting("sideways")) == Err(UnknownAction("sideways", "7"))
  {
  }
}
