/**
 * The ground-truth region table and the route check built from it
 * (analysis/itdk_geo.py, lines 93-133). The table maps "cloud:region" to the
 * coordinate of that region; the check accepts a route when its first and last
 * hops lie in the same carbon region (ISO) as the two ground-truth endpoints.
 * The ISO lookup is the parameter `iso`; reading the CSV and turning its
 * latitude and longitude text into numbers are not modelled.
 */
module GroundTruth {
  import opened Wrappers
  import opened RouteTypes
  import opened RouteResolver

  type Iso = Coordinate -> string

  /** One CSV row, with its latitude and longitude already read as a coordinate. */
  datatype GroundTruthRow = GroundTruthRow(cloud: string, region: string, coordinate: Coordinate)

  /** The table key of a region. */
  function RegionKey(cloud: string, region: string): (k: string)
    ensures |k| == |cloud| + 1 + |region|
    ensures k[..|cloud|] == cloud && k[|cloud|] == ':' && k[|cloud| + 1..] == region
  {
    cloud + ":" + region
  }

  /** Cloud names never hold ':', and then two regions share a key only when they are the same region. */
  lemma RegionKeyInjective(c1: string, r1: string, c2: string, r2: string)
    requires ':' !in c1 && ':' !in c2
    requires RegionKey(c1, r1) == RegionKey(c2, r2)
    ensures c1 == c2 && r1 == r2
  {
  }

  /** The table as the rows fill it: each row overwrites its key. */
  function Table(rows: seq<GroundTruthRow>): map<string, Coordinate>
    decreases |rows|
  {
    if |rows| == 0 then map[]
    else
      var row := rows[|rows| - 1];
      Table(rows[..|rows| - 1])[RegionKey(row.cloud, row.region) := row.coordinate]
  }

  /** `load_region_to_geo_coordinate_ground_truth`. */
  method LoadGroundTruth(rows: seq<GroundTruthRow>) returns (table: map<string, Coordinate>)
    ensures table == Table(rows)
  {
    table := map[];
    var i := 0;
    while i < |rows|
      invariant 0 <= i <= |rows|
      invariant table == Table(rows[..i])
    {
      assert rows[..i + 1][..i] == rows[..i];
      var row := rows[i];
      var regionKey := RegionKey(row.cloud, row.region);
      table := table[regionKey := row.coordinate];
      i := i + 1;
    }
    assert rows[..|rows|] == rows;
  }

  /** The index of the last row with key `key`, or -1. */
  function LastRow(rows: seq<GroundTruthRow>, key: string): (k: int)
    ensures -1 <= k < |rows|
    ensures k >= 0 ==> RegionKey(rows[k].cloud, rows[k].region) == key
    ensures forall j :: k < j < |rows| ==> RegionKey(rows[j].cloud, rows[j].region) != key
    decreases |rows|
  {
    if |rows| == 0 then -1
    else
      var n := |rows| - 1;
      if RegionKey(rows[n].cloud, rows[n].region) == key then n
      else
        var k := LastRow(rows[..n], key);
        assert forall j :: k < j < n ==> rows[..n][j] == rows[j];
        k
  }

  /** A key is in the table exactly when some row has it, and it holds the coordinate of the last such row. */
  lemma {:induction false} TableLastRowWins(rows: seq<GroundTruthRow>, key: string)
    ensures key in Table(rows) <==> LastRow(rows, key) >= 0
    ensures key in Table(rows) ==> Table(rows)[key] == rows[LastRow(rows, key)].coordinate
    decreases |rows|
  {
    if |rows| > 0 {
      var n := |rows| - 1;
      TableLastRowWins(rows[..n], key);
      var k := LastRow(rows[..n], key);
      if k >= 0 {
        assert rows[..n][k] == rows[k];
      }
    }
  }

  /** The route checks the converter can use: accept every route, or compare the ISOs of the endpoints. */
  datatype RouteCheck =
    | AcceptAll
    | SameIsoEndpoints(src: Coordinate, dst: Coordinate)

  datatype GroundTruthError = RegionNotFound(key: string)

  /** Whether the check accepts a non-empty route. */
  function Accepts(check: RouteCheck, iso: Iso, route: RouteInCoordinate): bool
    requires |route| >= 1
  {
    match check
    case AcceptAll => true
    case SameIsoEndpoints(src, dst) => iso(route[0]) == iso(src) && iso(route[|route| - 1]) == iso(dst)
  }

  /**
   * `get_route_check_function_by_ground_truth`: looks up the source key, then
   * the destination key, and fails on the first one missing.
   */
  function RouteCheckByGroundTruth(table: map<string, Coordinate>, srcCloud: string, srcRegion: string, dstCloud: string, dstRegion: string)
    : (r: Result<RouteCheck, GroundTruthError>)
    ensures RegionKey(srcCloud, srcRegion) !in table ==> r == Failure(RegionNotFound(RegionKey(srcCloud, srcRegion)))
    ensures RegionKey(srcCloud, srcRegion) in table && RegionKey(dstCloud, dstRegion) !in table
      ==> r == Failure(RegionNotFound(RegionKey(dstCloud, dstRegion)))
    ensures r.Success? <==> RegionKey(srcCloud, srcRegion) in table && RegionKey(dstCloud, dstRegion) in table
    ensures r.Success? ==> r.value == SameIsoEndpoints(table[RegionKey(srcCloud, srcRegion)], table[RegionKey(dstCloud, dstRegion)])
  {
    var src := RegionKey(srcCloud, srcRegion);
    var dst := RegionKey(dstCloud, dstRegion);
    if src !in table then Failure(RegionNotFound(src))
    else if dst !in table then Failure(RegionNotFound(dst))
    else Success(SameIsoEndpoints(table[src], table[dst]))
  }

  /** The check as the validator the converter calls. */
  function AsValidator(check: RouteCheck, iso: Iso): (v: Validator)
    ensures ValidatorDefined(v)
  {
    (route: RouteInCoordinate) requires |route| >= 1 => Accepts(check, iso, route)
  }

  /**
   * The `functools.cache` around `are_isos_equal`: a memo from coordinate
   * pairs to whether their ISOs agree. It only ever holds true answers, so
   * checking a route through it gives the same result as without it.
   */
  class IsoEqualityCache {
    const iso: Iso
    var memo: map<(Coordinate, Coordinate), bool>

    ghost predicate Valid()
      reads this
    {
      forall key :: key in memo ==> memo[key] == (iso(key.0) == iso(key.1))
    }

    constructor(iso: Iso)
      ensures this.iso == iso && memo == map[]
      ensures Valid()
    {
      this.iso := iso;
      memo := map[];
    }

    method AreIsosEqual(c1: Coordinate, c2: Coordinate) returns (equal: bool)
      requires Valid()
      modifies this
      ensures Valid()
      ensures equal == (iso(c1) == iso(c2))
      ensures memo == old(memo)[(c1, c2) := equal]
    {
      if (c1, c2) in memo {
        equal := memo[(c1, c2)];
      } else {
        equal := iso(c1) == iso(c2);
      }
      memo := memo[(c1, c2) := equal];
    }

    /** The returned check, `are_isos_equal(route[0], src) and are_isos_equal(route[-1], dst)`. */
    method CheckRoute(route: RouteInCoordinate, src: Coordinate, dst: Coordinate) returns (ok: bool)
      requires Valid()
      requires |route| >= 1
      modifies this
      ensures Valid()
      ensures ok == Accepts(SameIsoEndpoints(src, dst), iso, route)
    {
      ok := AreIsosEqual(route[0], src);
      if ok {
        ok := AreIsosEqual(route[|route| - 1], dst);
      }
    }
  }

  /** Every route the converter emits under an endpoint check starts and ends in the ground-truth ISOs. */
  lemma {:induction false} EmittedRoutesMatchEndpoints(routes: seq<RouteInIp>, ipToId: map<string, string>, geo: GeoTable,
                                                       iso: Iso, src: Coordinate, dst: Coordinate)
    ensures var out := Converted(routes, ipToId, geo, AsValidator(SameIsoEndpoints(src, dst), iso));
      forall j :: 0 <= j < |out| ==>
        |out[j]| >= 2 && iso(out[j][0]) == iso(src) && iso(out[j][|out[j]| - 1]) == iso(dst)
  {
    var v := AsValidator(SameIsoEndpoints(src, dst), iso);
    ConvertedAreValid(routes, ipToId, geo, v);
    var out := Converted(routes, ipToId, geo, v);
    forall j | 0 <= j < |out|
      ensures |out[j]| >= 2 && iso(out[j][0]) == iso(src) && iso(out[j][|out[j]| - 1]) == iso(dst)
    {
      assert v(out[j]);
    }
  }

  /** With the check disabled every route that resolves to two or more hops is emitted. */
  lemma {:induction false} AcceptAllKeepsResolvable(routes: seq<RouteInIp>, ipToId: map<string, string>, geo: GeoTable, iso: Iso, k: nat)
    requires k < |routes|
    requires |Resolve(routes[k], ipToId, geo)| >= 2
    ensures k in Kept(routes, ipToId, geo, AsValidator(AcceptAll, iso))
  {
    KeptExactlySurvivors(routes, ipToId, geo, AsValidator(AcceptAll, iso), k);
  }
}
