/**
 * `export_routes_distribution` (analysis/distribution.routes.py, lines 14-31):
 * routes are joined into '|'-separated strings, counted as a `Counter` counts
 * them (keys in order of first appearance), sorted by descending count, and
 * turned into one row per distinct route: its count, the requested metrics,
 * and the route string. `str(e)` of a hop is the parameter `show`; building
 * the DataFrame and writing the TSV are not modelled.
 */
module RoutesDistribution {
  import opened PyStr
  import opened RouteTypes
  import opened RouteMetrics
  import opened StableSort
  import opened Wrappers
  import opened Search

  /** `'|'.join([str(e) for e in route])` */
  function RouteString<T>(route: seq<T>, show: T -> string): string {
    Join(Shown(route, show), '|')
  }

  function Shown<T>(route: seq<T>, show: T -> string): (r: seq<string>)
    ensures |r| == |route| && forall k :: 0 <= k < |route| ==> r[k] == show(route[k])
  {
    seq(|route|, k requires 0 <= k < |route| => show(route[k]))
  }

  /** The position of the first `x` in `s`, or |s| when there is none. */
  function Rank(s: seq<string>, x: string): (r: nat)
    ensures r <= |s|
    ensures r < |s| ==> s[r] == x
    ensures x !in s[..r]
    ensures r == |s| <==> x !in s
    decreases |s|
  {
    if |s| == 0 then 0
    else if s[0] == x then 0
    else
      var r := 1 + Rank(s[1..], x);
      assert s[..r] == [s[0]] + s[1..][..r - 1];
      r
  }

  lemma {:induction false} RankOfPrefix(s: seq<string>, t: seq<string>, x: string)
    requires x in s
    ensures Rank(s + t, x) == Rank(s, x)
  {
    var r := Rank(s + t, x);
    var k := Rank(s, x);
    assert (s + t)[k] == x;
    assert (s + t)[..k] == s[..k];
  }

  /** The distinct strings of `s` in order of first appearance: the keys of `Counter(s)`. */
  function Distinct(s: seq<string>): (d: seq<string>)
    ensures forall i, j :: 0 <= i < j < |d| ==> d[i] != d[j]
    ensures forall x :: x in d <==> x in s
    decreases |s|
  {
    if |s| == 0 then []
    else
      var n := |s| - 1;
      assert s == s[..n] + [s[n]];
      Distinct(s[..n]) + (if s[n] in s[..n] then [] else [s[n]])
  }

  /** The keys come in the order their strings first appear. */
  lemma {:induction false} DistinctInFirstAppearanceOrder(s: seq<string>)
    ensures forall i, j :: 0 <= i < j < |Distinct(s)| ==> Rank(s, Distinct(s)[i]) < Rank(s, Distinct(s)[j])
    decreases |s|
  {
    if |s| > 0 {
      var n := |s| - 1;
      var front := s[..n];
      DistinctInFirstAppearanceOrder(front);
      var d := Distinct(front);
      assert s == front + [s[n]];
      assert Distinct(s) == d + (if s[n] in front then [] else [s[n]]);
      forall k | 0 <= k < |d| ensures Rank(s, d[k]) == Rank(front, d[k]) && Rank(front, d[k]) < n {
        assert d[k] in d;
        RankOfPrefix(front, [s[n]], d[k]);
      }
      var d' := Distinct(s);
      forall i, j | 0 <= i < j < |d'| ensures Rank(s, d'[i]) < Rank(s, d'[j]) {
        assert d'[i] == d[i];
        assert Rank(s, d[i]) == Rank(front, d[i]);
        if j == |d| {
          assert Rank(s, s[n]) == n;
        } else {
          assert d'[j] == d[j];
          assert Rank(front, d[i]) < Rank(front, d[j]);
        }
      }
    }
  }

  /** `keys` and `counts` are the counter of `strs`: its keys in first-appearance order, each with its multiplicity. */
  ghost predicate IsCounter(strs: seq<string>, keys: seq<string>, counts: map<string, nat>) {
    keys == Distinct(strs)
    && (forall x :: x in counts <==> x in strs)
    && (forall x :: x in counts ==> counts[x] == multiset(strs)[x])
  }

  /** One more string: its multiplicity grows by one, and it joins the keys the first time it is seen. */
  lemma CountStep(strs: seq<string>, i: nat, keys: seq<string>, counts: map<string, nat>)
    requires i < |strs| && IsCounter(strs[..i], keys, counts)
    ensures var s := strs[i];
      IsCounter(strs[..i + 1], if s in counts then keys else keys + [s], counts[s := if s in counts then counts[s] + 1 else 1])
  {
    assert strs[..i + 1] == strs[..i] + [strs[i]];
    assert strs[..i + 1][..i] == strs[..i];
    assert multiset(strs[..i + 1]) == multiset(strs[..i]) + multiset{strs[i]};
  }

  /**
   * `Counter(routes_as_str)`: the keys in order of first appearance, and each
   * key's number of occurrences.
   */
  method CountRoutes(strs: seq<string>) returns (keys: seq<string>, counts: map<string, nat>)
    ensures keys == Distinct(strs)
    ensures forall x :: x in counts <==> x in strs
    ensures forall x :: x in counts ==> counts[x] == multiset(strs)[x]
  {
    keys := [];
    counts := map[];
    for i := 0 to |strs|
      invariant IsCounter(strs[..i], keys, counts)
    {
      var s := strs[i];
      CountStep(strs, i, keys, counts);
      if s in counts {
        counts := counts[s := counts[s] + 1];
      } else {
        keys := keys + [s];
        counts := counts[s := 1];
      }
    }
    assert strs[..|strs|] == strs;
  }

  /** The counter's items, in key order. */
  function CountedItems(strs: seq<string>): (items: seq<CountedRoute>)
    ensures |items| == |Distinct(strs)|
  {
    var d := Distinct(strs);
    seq(|d|, k requires 0 <= k < |d| => CountedRoute(d[k], multiset(strs)[d[k]]))
  }

  /** One output row: `[count, metric_1, ..., metric_k, route_str]`. */
  datatype DistributionRow = DistributionRow(count: nat, metrics: seq<real>, route: string)

  /** The header: `['count'] + metrics + ['route']`, a metric written as its value. */
  function Columns(metrics: seq<RouteMetric>): (c: seq<string>)
    ensures |c| == |metrics| + 2 && c[0] == "count" && c[|c| - 1] == "route"
    ensures forall m :: 0 <= m < |metrics| ==> c[m + 1] == metrics[m].Value()
  {
    ["count"] + seq(|metrics|, m requires 0 <= m < |metrics| => metrics[m].Value()) + ["route"]
  }

  /** The test for a metric `calculate_route_metric` raises on. */
  function MetricFails(route: string, parse: Parse, dist: Distance): RouteMetric -> bool {
    (metric: RouteMetric) => MetricValue(route, metric, parse, dist).Failure?
  }

  /**
   * The values of the requested metrics for one route, in order; the first
   * metric that raises aborts the row with its error.
   */
  function MetricValues(route: string, metrics: seq<RouteMetric>, parse: Parse, dist: Distance)
    : (r: Result<seq<real>, MetricError>)
    ensures r.Success? ==> |r.value| == |metrics|
    ensures r.Success? ==> forall m :: 0 <= m < |metrics| ==> MetricValue(route, metrics[m], parse, dist) == Success(r.value[m])
    ensures r.Failure? ==> exists m :: 0 <= m < |metrics| && MetricValue(route, metrics[m], parse, dist) == Failure(r.error)
                                       && forall l :: 0 <= l < m ==> MetricValue(route, metrics[l], parse, dist).Success?
  {
    var i := FirstWhere(metrics, MetricFails(route, parse, dist));
    MetricsBefore(route, metrics, parse, dist, i);
    if i < |metrics| then
      assert MetricFails(route, parse, dist)(metrics[i]);
      Failure(MetricValue(route, metrics[i], parse, dist).error)
    else
      Success(seq(|metrics|, m requires 0 <= m < |metrics| => MetricValue(route, metrics[m], parse, dist).value))
  }

  lemma MetricsBefore(route: string, metrics: seq<RouteMetric>, parse: Parse, dist: Distance, i: nat)
    requires i <= |metrics| && forall k :: 0 <= k < i ==> !MetricFails(route, parse, dist)(metrics[k])
    ensures forall k :: 0 <= k < i ==> MetricValue(route, metrics[k], parse, dist).Success?
  {
    forall k | 0 <= k < i ensures MetricValue(route, metrics[k], parse, dist).Success? {
      assert !MetricFails(route, parse, dist)(metrics[k]);
    }
  }

  /** The test for a counted route whose row raises. */
  function RowFails(metrics: seq<RouteMetric>, parse: Parse, dist: Distance): CountedRoute -> bool {
    (item: CountedRoute) => MetricValues(item.route, metrics, parse, dist).Failure?
  }

  /**
   * One row per counted route, in the given order: the count, the metric
   * values, the route string. The first row that raises aborts the export.
   */
  function Rows(sorted: seq<CountedRoute>, metrics: seq<RouteMetric>, parse: Parse, dist: Distance)
    : (r: Result<seq<DistributionRow>, MetricError>)
    ensures r.Success? ==> |r.value| == |sorted|
    ensures r.Success? ==> forall i :: 0 <= i < |sorted| ==>
      r.value[i].count == sorted[i].count && r.value[i].route == sorted[i].route
      && MetricValues(sorted[i].route, metrics, parse, dist) == Success(r.value[i].metrics)
    ensures r.Failure? ==> exists i :: 0 <= i < |sorted| && MetricValues(sorted[i].route, metrics, parse, dist) == Failure(r.error)
                                       && forall k :: 0 <= k < i ==> MetricValues(sorted[k].route, metrics, parse, dist).Success?
  {
    var i := FirstWhere(sorted, RowFails(metrics, parse, dist));
    RowsBefore(sorted, metrics, parse, dist, i);
    if i < |sorted| then
      assert RowFails(metrics, parse, dist)(sorted[i]);
      Failure(MetricValues(sorted[i].route, metrics, parse, dist).error)
    else
      Success(seq(|sorted|, j requires 0 <= j < |sorted| =>
        DistributionRow(sorted[j].count, MetricValues(sorted[j].route, metrics, parse, dist).value, sorted[j].route)))
  }

  lemma RowsBefore(sorted: seq<CountedRoute>, metrics: seq<RouteMetric>, parse: Parse, dist: Distance, i: nat)
    requires i <= |sorted| && forall k :: 0 <= k < i ==> !RowFails(metrics, parse, dist)(sorted[k])
    ensures forall k :: 0 <= k < i ==> MetricValues(sorted[k].route, metrics, parse, dist).Success?
  {
    forall k | 0 <= k < i ensures MetricValues(sorted[k].route, metrics, parse, dist).Success? {
      assert !RowFails(metrics, parse, dist)(sorted[k]);
    }
  }

  /** The rows for a list of route strings. */
  function DistributionRows(strs: seq<string>, metrics: seq<RouteMetric>, parse: Parse, dist: Distance)
    : Result<seq<DistributionRow>, MetricError>
  {
    Rows(SortByCountDescending(CountedItems(strs)), metrics, parse, dist)
  }

  /** `export_routes_distribution`, up to handing the rows to pandas; a metric that raises aborts it. */
  method ExportRoutesDistribution<T>(routes: seq<seq<T>>, show: T -> string, metrics: seq<RouteMetric>,
                                     parse: Parse, dist: Distance)
    returns (columns: seq<string>, r: Result<seq<DistributionRow>, MetricError>)
    ensures columns == Columns(metrics)
    ensures r == DistributionRows(seq(|routes|, k requires 0 <= k < |routes| => RouteString(routes[k], show)), metrics, parse, dist)
  {
    columns := ["count"] + seq(|metrics|, m requires 0 <= m < |metrics| => metrics[m].Value()) + ["route"];
    var routesAsStr := seq(|routes|, k requires 0 <= k < |routes| => RouteString(routes[k], show));
    var sorted := SortedCounts(routesAsStr);
    r := RowsOf(sorted, metrics, parse, dist);
  }

  /** `sorted(Counter(routes_as_str).items(), key=..., reverse=True)` */
  method SortedCounts(strs: seq<string>) returns (sorted: seq<CountedRoute>)
    ensures sorted == SortByCountDescending(CountedItems(strs))
  {
    var keys, counts := CountRoutes(strs);
    var items := seq(|keys|, k requires 0 <= k < |keys| => CountedRoute(keys[k], counts[keys[k]]));
    assert items == CountedItems(strs);
    sorted := SortByCountDescending(items);
  }

  /** The row loop: the count, every requested metric, then the route string, item by item. */
  method RowsOf(sorted: seq<CountedRoute>, metrics: seq<RouteMetric>, parse: Parse, dist: Distance)
    returns (r: Result<seq<DistributionRow>, MetricError>)
    ensures r == Rows(sorted, metrics, parse, dist)
  {
    var rows: seq<DistributionRow> := [];
    for i := 0 to |sorted|
      invariant |rows| == i
      invariant RowsSoFar(sorted, metrics, parse, dist, rows)
    {
      var item := sorted[i];
      var values := RouteMetricValues(item.route, metrics, parse, dist);
      if values.Failure? {
        RowsSoFarFail(sorted, metrics, parse, dist, rows);
        return Failure(values.error);
      }
      RowsSoFarStep(sorted, metrics, parse, dist, rows, values.value);
      rows := rows + [DistributionRow(item.count, values.value, item.route)];
    }
    RowsSoFarAll(sorted, metrics, parse, dist, rows);
    return Success(rows);
  }

  /** The rows built so far are those of the first `|rows|` counted routes, none of which raised. */
  predicate RowsSoFar(sorted: seq<CountedRoute>, metrics: seq<RouteMetric>, parse: Parse, dist: Distance, rows: seq<DistributionRow>) {
    |rows| <= |sorted|
    && forall j :: 0 <= j < |rows| ==>
         rows[j].count == sorted[j].count && rows[j].route == sorted[j].route
         && MetricValues(sorted[j].route, metrics, parse, dist) == Success(rows[j].metrics)
  }

  lemma RowsSoFarStep(sorted: seq<CountedRoute>, metrics: seq<RouteMetric>, parse: Parse, dist: Distance,
                      rows: seq<DistributionRow>, values: seq<real>)
    requires RowsSoFar(sorted, metrics, parse, dist, rows) && |rows| < |sorted|
    requires MetricValues(sorted[|rows|].route, metrics, parse, dist) == Success(values)
    ensures RowsSoFar(sorted, metrics, parse, dist, rows + [DistributionRow(sorted[|rows|].count, values, sorted[|rows|].route)])
  {
  }

  /** A row that raises after the rows built so far is the first one, so its error is the export's. */
  lemma RowsSoFarFail(sorted: seq<CountedRoute>, metrics: seq<RouteMetric>, parse: Parse, dist: Distance, rows: seq<DistributionRow>)
    requires RowsSoFar(sorted, metrics, parse, dist, rows) && |rows| < |sorted|
    requires MetricValues(sorted[|rows|].route, metrics, parse, dist).Failure?
    ensures Rows(sorted, metrics, parse, dist) == Failure(MetricValues(sorted[|rows|].route, metrics, parse, dist).error)
  {
    forall k | 0 <= k < |rows| ensures !RowFails(metrics, parse, dist)(sorted[k]) {
      assert MetricValues(sorted[k].route, metrics, parse, dist).Success?;
    }
    assert RowFails(metrics, parse, dist)(sorted[|rows|]);
    FirstWhereIs(sorted, RowFails(metrics, parse, dist), |rows|);
  }

  /** When every row has been built, they are exactly the rows of all the counted routes. */
  lemma RowsSoFarAll(sorted: seq<CountedRoute>, metrics: seq<RouteMetric>, parse: Parse, dist: Distance, rows: seq<DistributionRow>)
    requires RowsSoFar(sorted, metrics, parse, dist, rows) && |rows| == |sorted|
    ensures Rows(sorted, metrics, parse, dist) == Success(rows)
  {
    forall k | 0 <= k < |rows| ensures !RowFails(metrics, parse, dist)(sorted[k]) {
      assert MetricValues(sorted[k].route, metrics, parse, dist).Success?;
    }
    FirstWhereIs(sorted, RowFails(metrics, parse, dist), |sorted|);
    var expected := Rows(sorted, metrics, parse, dist);
    assert expected.Success?;
    assert forall j :: 0 <= j < |sorted| ==> rows[j] == expected.value[j];
    assert rows == expected.value;
  }

  /** The inner loop of the row builder: `calculate_route_metric` of one route for every requested metric. */
  method RouteMetricValues(route: string, metrics: seq<RouteMetric>, parse: Parse, dist: Distance)
    returns (r: Result<seq<real>, MetricError>)
    ensures r == MetricValues(route, metrics, parse, dist)
  {
    var values: seq<real> := [];
    for m := 0 to |metrics|
      invariant |values| == m
      invariant ValuesSoFar(route, metrics, parse, dist, values)
    {
      var value := CalculateRouteMetric(route, metrics[m].Value(), parse, dist);
      assert metrics[m].Value()[0] == if metrics[m].HopCount? then 'h' else 'd';
      assert value == MetricValue(route, metrics[m], parse, dist);
      if value.Failure? {
        ValuesSoFarFail(route, metrics, parse, dist, values);
        return Failure(value.error);
      }
      values := values + [value.value];
    }
    ValuesSoFarAll(route, metrics, parse, dist, values);
    return Success(values);
  }

  /** The values computed so far are those of the first `|values|` metrics, none of which raised. */
  predicate ValuesSoFar(route: string, metrics: seq<RouteMetric>, parse: Parse, dist: Distance, values: seq<real>) {
    |values| <= |metrics|
    && forall l :: 0 <= l < |values| ==> MetricValue(route, metrics[l], parse, dist) == Success(values[l])
  }

  /** A metric that raises after the values computed so far is the first one, so its error is the row's. */
  lemma ValuesSoFarFail(route: string, metrics: seq<RouteMetric>, parse: Parse, dist: Distance, values: seq<real>)
    requires ValuesSoFar(route, metrics, parse, dist, values) && |values| < |metrics|
    requires MetricValue(route, metrics[|values|], parse, dist).Failure?
    ensures MetricValues(route, metrics, parse, dist) == Failure(MetricValue(route, metrics[|values|], parse, dist).error)
  {
    forall l | 0 <= l < |values| ensures !MetricFails(route, parse, dist)(metrics[l]) {
      assert MetricValue(route, metrics[l], parse, dist).Success?;
    }
    assert MetricFails(route, parse, dist)(metrics[|values|]);
    FirstWhereIs(metrics, MetricFails(route, parse, dist), |values|);
  }

  /** When every metric has been computed, the values are exactly the metrics' values. */
  lemma ValuesSoFarAll(route: string, metrics: seq<RouteMetric>, parse: Parse, dist: Distance, values: seq<real>)
    requires ValuesSoFar(route, metrics, parse, dist, values) && |values| == |metrics|
    ensures MetricValues(route, metrics, parse, dist) == Success(values)
  {
    forall l | 0 <= l < |values| ensures !MetricFails(route, parse, dist)(metrics[l]) {
      assert MetricValue(route, metrics[l], parse, dist).Success?;
    }
    FirstWhereIs(metrics, MetricFails(route, parse, dist), |metrics|);
    var expected := MetricValues(route, metrics, parse, dist);
    assert expected.Success?;
    assert forall l :: 0 <= l < |metrics| ==> values[l] == expected.value[l];
    assert values == expected.value;
  }

  /**
   * Each distinct route string has exactly one row, and the row's count is
   * the number of times the string occurs.
   */
  lemma {:induction false} OneRowPerDistinctRoute(strs: seq<string>, metrics: seq<RouteMetric>, parse: Parse, dist: Distance)
    ensures var r := DistributionRows(strs, metrics, parse, dist);
      r.Success? ==>
        (forall x :: x in strs <==> exists i :: 0 <= i < |r.value| && r.value[i].route == x)
        && (forall i, j :: 0 <= i < j < |r.value| ==> r.value[i].route != r.value[j].route)
        && (forall i :: 0 <= i < |r.value| ==> r.value[i].count == multiset(strs)[r.value[i].route])
  {
    RowsAreCounted(strs, metrics, parse, dist);
    RowsCoverRoutes(strs, metrics, parse, dist);
    RowsInOrder(strs, metrics, parse, dist);
  }

  /** Every row is a route of the input with its number of occurrences. */
  lemma RowsAreCounted(strs: seq<string>, metrics: seq<RouteMetric>, parse: Parse, dist: Distance)
    ensures var r := DistributionRows(strs, metrics, parse, dist);
      r.Success? ==> forall i :: 0 <= i < |r.value| ==> r.value[i].route in strs && r.value[i].count == multiset(strs)[r.value[i].route]
  {
    var items := CountedItems(strs);
    var r := DistributionRows(strs, metrics, parse, dist);
    if r.Success? {
      var rows := r.value;
      forall i | 0 <= i < |rows|
        ensures rows[i].route in strs && rows[i].count == multiset(strs)[rows[i].route]
      {
        var k := SortedFrom(items, i);
        assert rows[i].route == items[k].route && rows[i].count == items[k].count;
      }
    }
  }

  /** Every distinct route of the input is the route of some counted item, whatever the metrics. */
  lemma SortedCoverRoutes(strs: seq<string>, x: string) returns (i: nat)
    requires x in strs
    ensures i < |SortByCountDescending(CountedItems(strs))| && SortByCountDescending(CountedItems(strs))[i].route == x
  {
    var items := CountedItems(strs);
    var sorted := SortByCountDescending(items);
    var d := Distinct(strs);
    var k :| 0 <= k < |d| && d[k] == x;
    assert items[k] in multiset(sorted);
    i :| 0 <= i < |sorted| && sorted[i] == items[k];
  }

  /** Every route of the input has a row. */
  lemma RowsCoverRoutes(strs: seq<string>, metrics: seq<RouteMetric>, parse: Parse, dist: Distance)
    ensures var r := DistributionRows(strs, metrics, parse, dist);
      r.Success? ==> forall x :: x in strs ==> exists i :: 0 <= i < |r.value| && r.value[i].route == x
  {
    var r := DistributionRows(strs, metrics, parse, dist);
    if r.Success? {
      forall x | x in strs ensures exists i :: 0 <= i < |r.value| && r.value[i].route == x {
        var i := SortedCoverRoutes(strs, x);
        assert r.value[i].route == x;
      }
    }
  }

  /**
   * The export succeeds exactly when every metric requested can be computed
   * for every route string: it raises as soon as one cannot.
   */
  lemma ExportSucceedsIffAllMetricsDo(strs: seq<string>, metrics: seq<RouteMetric>, parse: Parse, dist: Distance)
    ensures DistributionRows(strs, metrics, parse, dist).Success? <==>
      forall x, m :: x in strs && 0 <= m < |metrics| ==> MetricValue(x, metrics[m], parse, dist).Success?
  {
    var items := CountedItems(strs);
    var sorted := SortByCountDescending(items);
    var r := DistributionRows(strs, metrics, parse, dist);
    if r.Success? {
      forall x, m | x in strs && 0 <= m < |metrics| ensures MetricValue(x, metrics[m], parse, dist).Success? {
        var i := SortedCoverRoutes(strs, x);
        assert MetricValues(sorted[i].route, metrics, parse, dist).Success?;
      }
    } else {
      var i :| 0 <= i < |sorted| && MetricValues(sorted[i].route, metrics, parse, dist) == Failure(r.error);
      var m :| 0 <= m < |metrics| && MetricValue(sorted[i].route, metrics[m], parse, dist) == Failure(r.error);
      var k := SortedFrom(items, i);
      assert sorted[i].route in strs by {
        assert sorted[i] == items[k] && items[k].route == Distinct(strs)[k];
      }
    }
  }

  /** Without the distance metric nothing can raise: the hop count of any string is defined. */
  lemma HopCountsNeverFail(strs: seq<string>, metrics: seq<RouteMetric>, parse: Parse, dist: Distance)
    requires forall m :: 0 <= m < |metrics| ==> metrics[m] == HopCount
    ensures DistributionRows(strs, metrics, parse, dist).Success?
  {
    ExportSucceedsIffAllMetricsDo(strs, metrics, parse, dist);
  }

  /**
   * Rows come in non-increasing count order, and rows with equal counts in the
   * order their routes first appear in the input.
   */
  lemma {:induction false} RowsInOrder(strs: seq<string>, metrics: seq<RouteMetric>, parse: Parse, dist: Distance)
    ensures var r := DistributionRows(strs, metrics, parse, dist);
      r.Success? ==> forall i, j :: 0 <= i < j < |r.value| ==>
        r.value[i].count > r.value[j].count
        || (r.value[i].count == r.value[j].count && Rank(strs, r.value[i].route) < Rank(strs, r.value[j].route))
  {
    var items := CountedItems(strs);
    var rank := (x: string) => Rank(strs, x);
    var d := Distinct(strs);
    DistinctInFirstAppearanceOrder(strs);
    forall i, j | 0 <= i < j < |items| ensures rank(items[i].route) < rank(items[j].route) {
      assert items[i].route == d[i] && items[j].route == d[j];
      assert rank(d[i]) == Rank(strs, d[i]) && rank(d[j]) == Rank(strs, d[j]);
      assert Rank(strs, d[i]) < Rank(strs, d[j]);
    }
    SortIsStable(items, rank);
  }

  function TotalCount(rows: seq<DistributionRow>): nat
    decreases |rows|
  {
    if |rows| == 0 then 0 else rows[0].count + TotalCount(rows[1..])
  }

  /** The counts of all rows add up to the number of input routes. */
  lemma {:induction false} CountsSumToRoutes(strs: seq<string>, metrics: seq<RouteMetric>, parse: Parse, dist: Distance)
    ensures var r := DistributionRows(strs, metrics, parse, dist);
      r.Success? ==> TotalCount(r.value) == |strs|
  {
    var items := CountedItems(strs);
    var sorted := SortByCountDescending(items);
    var r := DistributionRows(strs, metrics, parse, dist);
    if r.Success? {
      TotalCountOfRows(r.value, sorted);
      SortKeepsSum(items);
      SumOfItems(items, Distinct(strs), multiset(strs));
      SumOverAllKeys(Distinct(strs), multiset(strs));
    }
  }

  lemma {:induction false} TotalCountOfRows(rows: seq<DistributionRow>, s: seq<CountedRoute>)
    requires |rows| == |s| && forall i :: 0 <= i < |s| ==> rows[i].count == s[i].count
    ensures TotalCount(rows) == SumCounts(s)
    decreases |s|
  {
    if |s| > 0 {
      TotalCountOfRows(rows[1..], s[1..]);
    }
  }

  /** The total of `m`'s multiplicities over the keys `ks`. */
  function SumOver(ks: seq<string>, m: multiset<string>): nat
    decreases |ks|
  {
    if |ks| == 0 then 0 else m[ks[0]] + SumOver(ks[1..], m)
  }

  lemma {:induction false} SumOfItems(items: seq<CountedRoute>, ks: seq<string>, m: multiset<string>)
    requires |items| == |ks| && forall k :: 0 <= k < |ks| ==> items[k] == CountedRoute(ks[k], m[ks[k]])
    ensures SumCounts(items) == SumOver(ks, m)
    decreases |ks|
  {
    if |ks| > 0 {
      SumOfItems(items[1..], ks[1..], m);
    }
  }

  lemma {:induction false} SumOverAgree(ks: seq<string>, m: multiset<string>, m': multiset<string>)
    requires forall k :: 0 <= k < |ks| ==> m[ks[k]] == m'[ks[k]]
    ensures SumOver(ks, m) == SumOver(ks, m')
    decreases |ks|
  {
    if |ks| > 0 {
      SumOverAgree(ks[1..], m, m');
    }
  }

  /** Over distinct keys that hold every element of `m`, the multiplicities add up to the size of `m`. */
  lemma {:induction false} SumOverAllKeys(ks: seq<string>, m: multiset<string>)
    requires forall i, j :: 0 <= i < j < |ks| ==> ks[i] != ks[j]
    requires forall x :: x in m ==> x in ks
    ensures SumOver(ks, m) == |m|
    decreases |ks|
  {
    if |ks| > 0 {
      var y := ks[0];
      var rest := ks[1..];
      var m' := m[y := 0];
      assert m == m' + multiset{}[y := m[y]];
      forall k | 0 <= k < |rest| ensures m[rest[k]] == m'[rest[k]] {
        assert rest[k] == ks[k + 1];
      }
      SumOverAgree(rest, m, m');
      forall x | x in m' ensures x in rest {
        assert x in ks && x != y;
      }
      SumOverAllKeys(rest, m');
    }
  }

  /** For hops whose text holds no '|', the hop count of the joined string is the number of hops. */
  lemma RouteStringHopCount<T>(route: seq<T>, show: T -> string)
    requires |route| >= 1
    requires forall k :: 0 <= k < |route| ==> '|' !in show(route[k])
    ensures CountHops(RouteString(route, show)) == |route|
  {
    SplitJoin(Shown(route, show), '|');
  }

  /** When `parse` reads back what `show` writes, the route string parses back to the route. */
  lemma ParseHopsOfRouteString(route: RouteInCoordinate, show: Coordinate -> string, parse: Parse)
    requires |route| >= 1
    requires forall k :: 0 <= k < |route| ==> '|' !in show(route[k]) && parse(show(route[k])) == Some(route[k])
    ensures ParseHops(RouteString(route, show), parse) == Success(route)
  {
    var shown := Shown(route, show);
    SplitJoin(shown, '|');
    var pieces := Split(RouteString(route, show), '|');
    assert pieces == shown;
    assert forall k :: 0 <= k < |pieces| ==> parse(pieces[k]) == Some(route[k]);
    var r := ParseHops(RouteString(route, show), parse);
    assert r.Success?;
    assert forall k :: 0 <= k < |route| ==> r.value[k] == route[k];
    assert |r.value| == |route|;
    assert r.value == route;
  }

  /** ... and its distance metric is the route's path length. */
  lemma RouteStringDistance(route: RouteInCoordinate, show: Coordinate -> string, parse: Parse, dist: Distance)
    requires |route| >= 1
    requires forall k :: 0 <= k < |route| ==> '|' !in show(route[k]) && parse(show(route[k])) == Some(route[k])
    ensures MetricValue(RouteString(route, show), DistanceKm, parse, dist) == Success(PathLength(route, dist))
  {
    ParseHopsOfRouteString(route, show, parse);
  }
}
