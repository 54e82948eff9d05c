/**
  The trip estimate of `plan_trip`: endpoint check, route search, speed
  lookup for the transport mode and the travel time in whole minutes.
 */
module TripEstimate {
  import opened Wrappers
  import opened Graphs
  import opened Relaxation
  import opened Dijkstra

  /** Average speed in km/h of each transport mode the planner knows. */
  const TransportSpeeds: map<string, nat> := map["Bike" := 40, "Car" := 60, "Bus" := 50]

  /** Speed assumed for a mode missing from the table. */
  const DefaultSpeed: nat := 50

  /** The speed of a mode: its table entry, or the default for any other string. */
  function Speed(mode: string): (kmh: nat)
    ensures 40 <= kmh <= 60
    ensures kmh == 60 <==> mode == "Car"
    ensures kmh == 40 <==> mode == "Bike"
    ensures kmh == 50 <==> mode != "Car" && mode != "Bike"
  {
    if mode in TransportSpeeds then TransportSpeeds[mode] else DefaultSpeed
  }

  /** `int(distance / speed * 60)`: the travel time truncated to whole minutes. */
  function Minutes(km: nat, kmh: nat): (m: nat)
    requires kmh > 0
    ensures m * kmh <= km * 60 < (m + 1) * kmh
  {
    (km * 60) / kmh
  }

  /** A faster mode never takes longer over the same distance. */
  lemma FasterIsSooner(km: nat, slow: nat, fast: nat)
    requires 0 < slow <= fast
    ensures Minutes(km, fast) <= Minutes(km, slow)
  {
    var m := Minutes(km, fast);
    MulMonotone(m, slow, fast);
    WholeMinutesFit(km, slow, m);
  }

  /** Multiplying by the same factor keeps `<=`. */
  lemma MulMonotone(a: nat, b: nat, c: nat)
    requires b <= c
    ensures a * b <= a * c
  {
  }

  /** A strict `<` between two products with the same factor is a strict `<` between the others. */
  lemma MulCancel(a: nat, b: nat, c: nat)
    ensures a * c < b * c ==> a < b
  {
    if b <= a {
      MulMonotone(c, b, a);
    }
  }

  /** Any whole number of minutes that fits into the trip is at most the truncated duration. */
  lemma WholeMinutesFit(km: nat, kmh: nat, m: nat)
    requires kmh > 0 && m * kmh <= km * 60
    ensures m <= Minutes(km, kmh)
  {
    MulCancel(m, Minutes(km, kmh) + 1, kmh);
  }

  /** The worked examples: 60 km by car and 50 km by an unknown mode both take 60 minutes. */
  lemma DocumentedExamples()
    ensures Minutes(60, Speed("Car")) == 60
    ensures Speed("Unknown") == DefaultSpeed && Minutes(50, Speed("Unknown")) == 60
  {
  }

  /** Why a trip could not be planned. */
  datatype PlanError =
    | NotFound                       // source or destination is not a node
    | Malformed(cause: RouteError)   // the search raised on a malformed graph
    | InfiniteDuration               // `int(inf)` on an unreachable destination

  /** What the planner displays: path, distance, minutes and mode. */
  datatype Trip = Trip(path: seq<string>, km: nat, minutes: nat, mode: string)

  /**
    The duration of a trip over `distance` by `mode`; an infinite distance
    has no integer duration.
   */
  function Estimate(distance: Distance, mode: string): (r: Result<nat, PlanError>)
    ensures r.Failure? <==> distance.Infinite?
    ensures r.Failure? ==> r.error == InfiniteDuration
    ensures r.Success? ==>
      r.value * Speed(mode) <= distance.km * 60 < (r.value + 1) * Speed(mode)
  {
    match distance
    case Infinite => Failure(InfiniteDuration)
    case Finite(km) => Success(Minutes(km, Speed(mode)))
  }

  /**
    `plan_trip`: rejects unknown endpoints, searches the shortest route and
    estimates its duration for the chosen mode.
   */
  method PlanTrip(g: Graph, source: string, destination: string, mode: string) returns (r: Result<Trip, PlanError>)
    ensures r == Failure(NotFound) <==> source !in g.nodes || destination !in g.nodes
    ensures r.Failure? && r.error.Malformed? ==>
      Defect(g, r.error.cause) && Reachable(g, source, r.error.cause.node)
    ensures (r.Failure? && r.error.Malformed?) <==>
      source in g.nodes && destination in g.nodes && !SoundFrom(g, source)
    ensures r == Failure(InfiniteDuration) ==>
      forall p :: !IsWalkBetween(g, p, source, destination)
    ensures (source in g.nodes && destination in g.nodes && SoundFrom(g, source) &&
             exists p :: IsWalkBetween(g, p, source, destination)) ==> r.Success?
    ensures r.Success? ==>
      && r.value.mode == mode
      && IsWalkBetween(g, r.value.path, source, destination)
      && WalkWeight(g, r.value.path) == r.value.km
      && (forall p :: IsWalkBetween(g, p, source, destination) ==> r.value.km <= WalkWeight(g, p))
      && r.value.minutes * Speed(mode) <= r.value.km * 60 < (r.value.minutes + 1) * Speed(mode)
      && (forall i, j :: 0 <= i < j < |r.value.path| ==> r.value.path[i] != r.value.path[j])
    ensures r.Success? && source == destination ==>
      r.value.path == [source] && r.value.km == 0 && r.value.minutes == 0
  {
    if source !in g.nodes || destination !in g.nodes {
      return Failure(NotFound);
    }
    var found := ShortestPath(g, source, destination);
    if found.Failure? {
      return Failure(Malformed(found.error));
    }
    var route := found.value;
    var duration := Estimate(route.distance, mode);
    if duration.Failure? {
      return Failure(duration.error);
    }
    r := Success(Trip(route.path, route.distance.km, duration.value, mode));
  }
}
