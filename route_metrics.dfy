/**
 * Per-route metrics (analysis/common.py, lines 161-183): the number of hops of
 * a '|'-joined route string and the total distance along a coordinate route.
 * The geodesic is the parameter `dist`; rounding to two decimals is not modelled.
 */
module RouteMetrics {
  import opened Wrappers
  import opened PyStr
  import opened RouteTypes
  import opened Search

  type Distance = (Coordinate, Coordinate) -> real

  /** The distance travelled along `hops`: the sum of `dist` over consecutive hops. */
  function PathLength(hops: RouteInCoordinate, dist: Distance): real
    decreases |hops|
  {
    if |hops| <= 1 then 0.0
    else PathLength(hops[..|hops| - 1], dist) + dist(hops[|hops| - 2], hops[|hops| - 1])
  }

  /**
   * `calculate_total_distance_km`: sums the pairwise distances with a memo that
   * lives for this one call. The memo only ever holds true distances, so the
   * total is the path length.
   */
  method TotalDistanceKm(hops: RouteInCoordinate, dist: Distance) returns (total: real)
    ensures total == PathLength(hops, dist)
  {
    if |hops| <= 1 {
      return 0.0;
    }
    var memo: map<(Coordinate, Coordinate), real> := map[];
    total := 0.0;
    var i := 0;
    while i < |hops| - 1
      invariant 0 <= i <= |hops| - 1
      invariant total == PathLength(hops[..i + 1], dist)
      invariant forall key :: key in memo ==> memo[key] == dist(key.0, key.1)
    {
      var key := (hops[i], hops[i + 1]);
      var d: real;
      if key in memo {
        d := memo[key];
      } else {
        d := dist(hops[i], hops[i + 1]);
        memo := memo[key := d];
      }
      assert hops[..i + 2][..i + 1] == hops[..i + 1];
      total := total + d;
      i := i + 1;
    }
    assert hops[..|hops|] == hops;
  }

  /** With a non-negative distance the total distance is non-negative. */
  lemma {:induction false} PathLengthNonNegative(hops: RouteInCoordinate, dist: Distance)
    requires forall a, b :: dist(a, b) >= 0.0
    ensures PathLength(hops, dist) >= 0.0
    decreases |hops|
  {
    if |hops| > 1 {
      PathLengthNonNegative(hops[..|hops| - 1], dist);
    }
  }

  /** A route that stays on one point has length 0 when a point is at distance 0 from itself. */
  lemma {:induction false} PathLengthOfRepeatedPoint(hops: RouteInCoordinate, dist: Distance)
    requires forall c :: dist(c, c) == 0.0
    requires forall k :: 0 < k < |hops| ==> hops[k] == hops[k - 1]
    ensures PathLength(hops, dist) == 0.0
    decreases |hops|
  {
    if |hops| > 1 {
      var front := hops[..|hops| - 1];
      assert forall k :: 0 < k < |front| ==> front[k] == front[k - 1];
      PathLengthOfRepeatedPoint(front, dist);
    }
  }

  /** Travelling `a` and then `b` costs both lengths plus the step that joins them. */
  lemma {:induction false} PathLengthAppend(a: RouteInCoordinate, b: RouteInCoordinate, dist: Distance)
    requires |a| >= 1 && |b| >= 1
    ensures PathLength(a + b, dist) == PathLength(a, dist) + dist(a[|a| - 1], b[0]) + PathLength(b, dist)
    decreases |b|
  {
    var ab := a + b;
    if |b| == 1 {
      assert ab[..|ab| - 1] == a;
    } else {
      var b' := b[..|b| - 1];
      assert ab[..|ab| - 1] == a + b';
      PathLengthAppend(a, b', dist);
    }
  }

  /** `hop_count`: the number of '|'-separated pieces, at least one. */
  function CountHops(route: string): (n: nat)
    ensures n >= 1
  {
    |Split(route, '|')|
  }

  /**
   * `ast.literal_eval` of one '|'-separated piece: the coordinate it reads, or
   * None where it raises (`literal_eval('')` raises, for one).
   */
  type Parse = string -> Option<Coordinate>

  /** The test for a piece `literal_eval` rejects. */
  function Unparsable(parse: Parse): string -> bool {
    e => parse(e).None?
  }

  /**
   * `[ast.literal_eval(e) for e in route.split('|')]`: the coordinates of all
   * pieces, or the index of the first piece that raises.
   */
  function ParseHops(route: string, parse: Parse): (r: Result<RouteInCoordinate, nat>)
    ensures r.Success? ==> |r.value| == CountHops(route)
    ensures r.Success? ==> forall k :: 0 <= k < |r.value| ==> parse(Split(route, '|')[k]) == Some(r.value[k])
    ensures r.Failure? ==> r.error < |Split(route, '|')| && parse(Split(route, '|')[r.error]).None?
    ensures r.Failure? ==> forall k :: 0 <= k < r.error ==> parse(Split(route, '|')[k]).Some?
  {
    var pieces := Split(route, '|');
    var i := FirstWhere(pieces, Unparsable(parse));
    ParsedBefore(pieces, parse, i);
    if i < |pieces| then
      assert Unparsable(parse)(pieces[i]);
      Failure(i)
    else Success(seq(|pieces|, k requires 0 <= k < |pieces| => parse(pieces[k]).value))
  }

  lemma ParsedBefore(pieces: seq<string>, parse: Parse, i: nat)
    requires i <= |pieces| && forall k :: 0 <= k < i ==> !Unparsable(parse)(pieces[k])
    ensures forall k :: 0 <= k < i ==> parse(pieces[k]).Some?
  {
    forall k | 0 <= k < i ensures parse(pieces[k]).Some? {
      assert !Unparsable(parse)(pieces[k]);
    }
  }

  /** Why `calculate_route_metric` raises: a name it does not know, or a piece `literal_eval` rejects. */
  datatype MetricError = UnknownMetric(metric: string) | UnparsableHop(piece: nat)

  /** What `calculate_route_metric` computes for a known metric. */
  function MetricValue(route: string, metric: RouteMetric, parse: Parse, dist: Distance): Result<real, MetricError>
  {
    match metric
    case HopCount => Success(CountHops(route) as real)
    case DistanceKm =>
      match ParseHops(route, parse)
      case Success(hops) => Success(PathLength(hops, dist))
      case Failure(i) => Failure(UnparsableHop(i))
  }

  /**
   * `calculate_route_metric`: dispatches on the metric's name, as the string
   * enum compares equal to its value, and raises for any other name. The
   * distance raises when a piece of the route does not parse.
   */
  method CalculateRouteMetric(route: string, metric: string, parse: Parse, dist: Distance)
    returns (r: Result<real, MetricError>)
    ensures metric == RouteMetric.HopCount.Value() ==> r == Success(CountHops(route) as real)
    ensures metric == RouteMetric.DistanceKm.Value() ==> (r.Success? <==> ParseHops(route, parse).Success?)
    ensures metric == RouteMetric.DistanceKm.Value() && r.Success? ==> r.value == PathLength(ParseHops(route, parse).value, dist)
    ensures metric == RouteMetric.DistanceKm.Value() && r.Failure? ==> r.error == UnparsableHop(ParseHops(route, parse).error)
    ensures metric != RouteMetric.HopCount.Value() && metric != RouteMetric.DistanceKm.Value() ==> r == Failure(UnknownMetric(metric))
  {
    if metric == RouteMetric.HopCount.Value() {
      r := Success(CountHops(route) as real);
    } else if metric == RouteMetric.DistanceKm.Value() {
      var hops := ParseHops(route, parse);
      if hops.Failure? {
        return Failure(UnparsableHop(hops.error));
      }
      var total := TotalDistanceKm(hops.value, dist);
      r := Success(total);
    } else {
      r := Failure(UnknownMetric(metric));
    }
  }

  /** The empty route prints as "", whose one piece `literal_eval` rejects: its distance raises. */
  lemma EmptyRouteHasNoDistance(parse: Parse, dist: Distance)
    requires parse("") == None
    ensures MetricValue("", DistanceKm, parse, dist) == Failure(UnparsableHop(0))
    ensures MetricValue("", HopCount, parse, dist) == Success(1.0)
  {
    assert Split("", '|') == [""];
  }
}
