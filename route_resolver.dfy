/**
 * Resolving IP routes to coordinate routes (analysis/itdk_geo.py, lines 33 and
 * 45-91). The node geo table is a map from node id to coordinate; reading it
 * from disk is not modelled, only the node id converter applied to its first
 * column. The validator is a parameter that only needs to be defined on
 * routes of two or more hops; the route printed for each kept route is
 * modelled as the sequence `written`.
 */
module RouteResolver {
  import opened PyStr
  import opened RouteTypes

  type GeoTable = map<string, Coordinate>

  type Validator = RouteInCoordinate --> bool

  /** Defined wherever the resolver may call it: on routes of at least two hops. */
  ghost predicate ValidatorDefined(isValid: Validator) {
    forall r: RouteInCoordinate {:trigger isValid.requires(r)} :: |r| >= 2 ==> isValid.requires(r)
  }

  const GeoNodePrefix := "node.geo "

  /** The node id column converter: drops a leading "node.geo " and then a trailing ':', each only when present. */
  function ConvertNodeId(s: string): (r: string)
    ensures |r| <= |s|
  {
    RemoveSuffix(RemovePrefix(s, GeoNodePrefix), ":")
  }

  /** A decorated id "node.geo N1:" becomes N1. */
  lemma ConvertNodeIdOfDecorated(id: string)
    ensures ConvertNodeId(GeoNodePrefix + id + ":") == id
  {
    var s := GeoNodePrefix + id + ":";
    assert s[..|GeoNodePrefix|] == GeoNodePrefix;
    assert RemovePrefix(s, GeoNodePrefix) == id + ":";
    assert (id + ":")[|id|..] == ":";
  }

  /** An id without the prefix and without the trailing colon is left as it is. */
  lemma ConvertNodeIdOfBare(s: string)
    requires !HasPrefix(s, GeoNodePrefix) && !HasSuffix(s, ":")
    ensures ConvertNodeId(s) == s
  {
  }

  /** `node_ip_to_id.get(ip, '')`: an IP the index does not know maps to the empty id. */
  function NodeIdOf(ip: string, ipToId: map<string, string>): string {
    if ip in ipToId then ipToId[ip] else ""
  }

  /** The non-empty node ids of a route's hops, in hop order. */
  function KnownIds(route: RouteInIp, ipToId: map<string, string>): (ids: seq<string>)
    ensures |ids| <= |route|
    ensures forall k :: 0 <= k < |ids| ==> ids[k] != ""
    decreases |route|
  {
    if |route| == 0 then []
    else
      var id := NodeIdOf(route[0], ipToId);
      (if id == "" then [] else [id]) + KnownIds(route[1..], ipToId)
  }

  predicate AllInGeo(ids: seq<string>, geo: GeoTable) {
    forall k :: 0 <= k < |ids| ==> ids[k] in geo
  }

  function CoordinatesOf(ids: seq<string>, geo: GeoTable): (cs: RouteInCoordinate)
    requires AllInGeo(ids, geo)
    ensures |cs| == |ids|
    ensures forall k :: 0 <= k < |ids| ==> cs[k] == geo[ids[k]]
  {
    seq(|ids|, k requires 0 <= k < |ids| => geo[ids[k]])
  }

  /**
   * What one route resolves to: the coordinates of its known hops, or the
   * empty route as soon as one known node id has no geo entry.
   */
  function Resolve(route: RouteInIp, ipToId: map<string, string>, geo: GeoTable): RouteInCoordinate {
    var ids := KnownIds(route, ipToId);
    if AllInGeo(ids, geo) then CoordinatesOf(ids, geo) else []
  }

  /** A route is kept when it resolves to at least two hops and the validator accepts it. */
  predicate Survives(route: RouteInIp, ipToId: map<string, string>, geo: GeoTable, isValid: Validator)
    requires ValidatorDefined(isValid)
  {
    var cs := Resolve(route, ipToId, geo);
    |cs| >= 2 && isValid(cs)
  }

  /** The converted routes of a list of IP routes, in input order. */
  function Converted(routes: seq<RouteInIp>, ipToId: map<string, string>, geo: GeoTable, isValid: Validator): seq<RouteInCoordinate>
    requires ValidatorDefined(isValid)
    decreases |routes|
  {
    if |routes| == 0 then []
    else
      var last := routes[|routes| - 1];
      Converted(routes[..|routes| - 1], ipToId, geo, isValid)
        + (if Survives(last, ipToId, geo, isValid) then [Resolve(last, ipToId, geo)] else [])
  }

  /** The hop loop of `convert_routes_from_ip_to_latlon`: skip unknown IPs, give up on a node without geo entry. */
  method ResolveHops(route: RouteInIp, ipToId: map<string, string>, geo: GeoTable) returns (coordinates: RouteInCoordinate)
    ensures coordinates == Resolve(route, ipToId, geo)
  {
    var nodeIds := seq(|route|, k requires 0 <= k < |route| => NodeIdOf(route[k], ipToId));
    coordinates := [];
    var i := 0;
    while i < |nodeIds|
      invariant 0 <= i <= |nodeIds|
      invariant AllInGeo(KnownIds(route[..i], ipToId), geo)
      invariant coordinates == CoordinatesOf(KnownIds(route[..i], ipToId), geo)
    {
      var nodeId := nodeIds[i];
      KnownIdsStep(route, i, ipToId);
      if nodeId == "" {
        i := i + 1;
        continue;
      }
      if nodeId !in geo {
        MissingGeoVoids(route, i, ipToId, geo);
        coordinates := [];
        break;
      }
      CoordinatesOfSnoc(KnownIds(route[..i], ipToId), nodeId, geo);
      coordinates := coordinates + [geo[nodeId]];
      i := i + 1;
    }
    if i == |nodeIds| {
      assert route[..i] == route;
    }
  }

  /** Taking one more hop adds its node id when that id is not empty. */
  lemma KnownIdsStep(route: RouteInIp, i: nat, ipToId: map<string, string>)
    requires i < |route|
    ensures var id := NodeIdOf(route[i], ipToId);
      KnownIds(route[..i + 1], ipToId) == KnownIds(route[..i], ipToId) + (if id == "" then [] else [id])
  {
    KnownIdsAppend(route[..i], [route[i]], ipToId);
    assert route[..i] + [route[i]] == route[..i + 1];
    assert KnownIds([route[i]], ipToId) == KnownIds([route[i]][..1], ipToId);
  }

  lemma CoordinatesOfSnoc(ids: seq<string>, id: string, geo: GeoTable)
    requires AllInGeo(ids, geo) && id in geo
    ensures AllInGeo(ids + [id], geo)
    ensures CoordinatesOf(ids + [id], geo) == CoordinatesOf(ids, geo) + [geo[id]]
  {
  }

  lemma {:induction false} KnownIdsAppend(a: RouteInIp, b: RouteInIp, ipToId: map<string, string>)
    ensures KnownIds(a + b, ipToId) == KnownIds(a, ipToId) + KnownIds(b, ipToId)
    decreases |a|
  {
    if |a| == 0 {
      assert a + b == b;
    } else {
      assert (a + b)[1..] == a[1..] + b;
      KnownIdsAppend(a[1..], b, ipToId);
    }
  }

  /**
   * `convert_routes_from_ip_to_latlon`: returns the converted routes and
   * writes each of them, in the same order, as it is kept.
   */
  method ConvertRoutesFromIpToLatLon(routes: seq<RouteInIp>, ipToId: map<string, string>, geo: GeoTable, isValid: Validator)
    returns (converted: seq<RouteInCoordinate>, written: seq<RouteInCoordinate>)
    requires ValidatorDefined(isValid)
    ensures converted == Converted(routes, ipToId, geo, isValid)
    ensures written == converted
  {
    converted := [];
    written := [];
    var i := 0;
    while i < |routes|
      invariant 0 <= i <= |routes|
      invariant converted == Converted(routes[..i], ipToId, geo, isValid)
      invariant written == converted
    {
      assert routes[..i + 1][..i] == routes[..i];
      var coordinates := ResolveHops(routes[i], ipToId, geo);
      if |coordinates| < 2 {
        i := i + 1;
        continue;
      }
      if !isValid(coordinates) {
        i := i + 1;
        continue;
      }
      written := written + [coordinates];
      converted := converted + [coordinates];
      i := i + 1;
    }
    assert routes[..|routes|] == routes;
  }

  /** Every converted route has at least two hops and satisfies the validator; there are no more of them than input routes. */
  lemma {:induction false} ConvertedAreValid(routes: seq<RouteInIp>, ipToId: map<string, string>, geo: GeoTable, isValid: Validator)
    requires ValidatorDefined(isValid)
    ensures var out := Converted(routes, ipToId, geo, isValid);
      |out| <= |routes| && forall j :: 0 <= j < |out| ==> |out[j]| >= 2 && isValid(out[j])
    decreases |routes|
  {
    if |routes| > 0 {
      ConvertedAreValid(routes[..|routes| - 1], ipToId, geo, isValid);
    }
  }

  /** The indices of the surviving routes, in the order the routes come. */
  function Kept(routes: seq<RouteInIp>, ipToId: map<string, string>, geo: GeoTable, isValid: Validator): (ks: seq<nat>)
    requires ValidatorDefined(isValid)
    ensures forall j :: 0 <= j < |ks| ==> ks[j] < |routes|
    ensures forall j, l :: 0 <= j < l < |ks| ==> ks[j] < ks[l]
    decreases |routes|
  {
    if |routes| == 0 then []
    else
      var n: nat := |routes| - 1;
      var front := Kept(routes[..n], ipToId, geo, isValid);
      var last: seq<nat> := if Survives(routes[n], ipToId, geo, isValid) then [n] else [];
      front + last
  }

  /** An index is kept exactly when its route survives. */
  lemma {:induction false} KeptExactlySurvivors(routes: seq<RouteInIp>, ipToId: map<string, string>, geo: GeoTable, isValid: Validator, k: nat)
    requires ValidatorDefined(isValid)
    requires k < |routes|
    ensures k in Kept(routes, ipToId, geo, isValid) <==> Survives(routes[k], ipToId, geo, isValid)
    decreases |routes|
  {
    var n := |routes| - 1;
    var front := routes[..n];
    var ks := Kept(front, ipToId, geo, isValid);
    if k < n {
      KeptExactlySurvivors(front, ipToId, geo, isValid, k);
      assert front[k] == routes[k];
      assert k != n;
    } else {
      assert n !in ks;
    }
  }

  /** The output is the surviving routes, resolved, in input order: the j-th converted route comes from the j-th kept index. */
  lemma {:induction false} ConvertedInInputOrder(routes: seq<RouteInIp>, ipToId: map<string, string>, geo: GeoTable, isValid: Validator)
    requires ValidatorDefined(isValid)
    ensures var out := Converted(routes, ipToId, geo, isValid);
      var ks := Kept(routes, ipToId, geo, isValid);
      |out| == |ks| && forall j :: 0 <= j < |ks| ==> out[j] == Resolve(routes[ks[j]], ipToId, geo)
    decreases |routes|
  {
    if |routes| > 0 {
      var n := |routes| - 1;
      var front := routes[..n];
      ConvertedInInputOrder(front, ipToId, geo, isValid);
      var out0, ks0 := Converted(front, ipToId, geo, isValid), Kept(front, ipToId, geo, isValid);
      var out, ks := Converted(routes, ipToId, geo, isValid), Kept(routes, ipToId, geo, isValid);
      var survives := Survives(routes[n], ipToId, geo, isValid);
      assert out == out0 + (if survives then [Resolve(routes[n], ipToId, geo)] else []);
      assert ks == ks0 + (if survives then [n] else []);
      forall j | 0 <= j < |ks| ensures out[j] == Resolve(routes[ks[j]], ipToId, geo) {
        if j < |ks0| {
          assert out[j] == out0[j] && ks[j] == ks0[j];
          assert front[ks0[j]] == routes[ks0[j]];
        }
      }
    }
  }

  /** An IP the index does not know, or maps to "", is skipped without affecting the rest of the route. */
  lemma {:induction false} UnknownIpSkipped(a: RouteInIp, ip: string, b: RouteInIp, ipToId: map<string, string>, geo: GeoTable)
    requires NodeIdOf(ip, ipToId) == ""
    ensures Resolve(a + [ip] + b, ipToId, geo) == Resolve(a + b, ipToId, geo)
  {
    KnownIdsAppend(a + [ip], b, ipToId);
    KnownIdsAppend(a, [ip], ipToId);
    KnownIdsAppend(a, b, ipToId);
    assert KnownIds([ip], ipToId) == [];
    assert KnownIds(a, ipToId) + [] == KnownIds(a, ipToId);
  }

  /** A hop whose node id has no geo entry voids the whole route, which is then dropped. */
  lemma MissingGeoVoidsRoute(route: RouteInIp, k: nat, ipToId: map<string, string>, geo: GeoTable, isValid: Validator)
    requires ValidatorDefined(isValid)
    requires k < |route|
    requires NodeIdOf(route[k], ipToId) != "" && NodeIdOf(route[k], ipToId) !in geo
    ensures Resolve(route, ipToId, geo) == []
    ensures !Survives(route, ipToId, geo, isValid)
  {
    MissingGeoVoids(route, k, ipToId, geo);
  }

  lemma MissingGeoVoids(route: RouteInIp, k: nat, ipToId: map<string, string>, geo: GeoTable)
    requires k < |route|
    requires NodeIdOf(route[k], ipToId) != "" && NodeIdOf(route[k], ipToId) !in geo
    ensures !AllInGeo(KnownIds(route, ipToId), geo)
  {
    KnownIdsAppend(route[..k], route[k..], ipToId);
    assert route[..k] + route[k..] == route;
    KnownIdsAppend([route[k]], route[k + 1..], ipToId);
    assert [route[k]] + route[k + 1..] == route[k..];
    assert KnownIds([route[k]], ipToId) == [NodeIdOf(route[k], ipToId)] + KnownIds([], ipToId);
    var ids := KnownIds(route, ipToId);
    var pre := KnownIds(route[..k], ipToId);
    assert ids[|pre|] == NodeIdOf(route[k], ipToId);
  }

  /** When every known node id has a geo entry, the route resolves to their coordinates, hop by hop, in hop order. */
  lemma {:induction false} ResolveInHopOrder(a: RouteInIp, b: RouteInIp, ipToId: map<string, string>, geo: GeoTable)
    requires AllInGeo(KnownIds(a, ipToId), geo) && AllInGeo(KnownIds(b, ipToId), geo)
    ensures Resolve(a + b, ipToId, geo) == Resolve(a, ipToId, geo) + Resolve(b, ipToId, geo)
  {
    KnownIdsAppend(a, b, ipToId);
    CoordinatesOfAppend(KnownIds(a, ipToId), KnownIds(b, ipToId), geo);
  }

  lemma CoordinatesOfAppend(ia: seq<string>, ib: seq<string>, geo: GeoTable)
    requires AllInGeo(ia, geo) && AllInGeo(ib, geo)
    ensures AllInGeo(ia + ib, geo)
    ensures CoordinatesOf(ia + ib, geo) == CoordinatesOf(ia, geo) + CoordinatesOf(ib, geo)
  {
  }

  /** A single hop with a known node id that has a geo entry resolves to that entry. */
  lemma ResolveOneHop(ip: string, ipToId: map<string, string>, geo: GeoTable)
    requires ip in ipToId && ipToId[ip] != "" && ipToId[ip] in geo
    ensures Resolve([ip], ipToId, geo) == [geo[ipToId[ip]]]
  {
    assert KnownIds([ip], ipToId) == [ipToId[ip]] + KnownIds([], ipToId);
  }
}
