# Traceroute to coordinate-route pipeline, modelled in Dafny

This project models the core of a set of analysis scripts that turn
traceroutes between cloud regions into routes of geographic coordinates and
summarise them. The modelled parts are:

- **ITDK index.** From the CAIDA ITDK node file, the loader builds either an
  IP → node-id map or a node-id → IPs map.
- **Region detection.** A routes file's name gives the cloud/region pair it
  measures. The name follows patterns such as
  `routes.aws.af-south-1.aws.ap-northeast-1.by_geo`.
- **Route conversion.**
  - Each hop's IP is resolved to a node id, then to the (latitude, longitude)
    of that node.
  - Unknown IPs are dropped.
  - A route with any node lacking a location is voided.
  - Routes with fewer than two hops, and routes the validator rejects, are
    left out.
- **Ground-truth check.** The route validator comes from a ground-truth table
  of region coordinates. It accepts a route when the route's first and last
  hops fall in the same carbon region (ISO) as the two ground-truth endpoints.
- **Converter driver.** Per routes file, the converter chooses an output
  name, the region pair and the validator.
- **Route metrics.** These are the hop count and the total distance.
- **Distribution table.** Each distinct route appears once, with its count
  and metrics, sorted by descending count.
- **TSV combiner.** The per-region-pair distribution tables are labelled with
  their regions and stacked.
- **Cloud IP-range filters.** These cover AWS and Google Cloud.

Python's string operations (`split`, `join`, whitespace `split()`,
`removeprefix`, `removesuffix`, `os.path.basename`) are written out in
`PyStr`.

Several things the scripts get from elsewhere are parameters of the model:

- the geodesic distance (`dist`);
- the carbon-region lookup (`iso`);
- Python's `str()` of a hop (`show`);
- `ast.literal_eval` of a hop (`parse`).

Coordinates are opaque pairs.

Module by module:

| module | file | models |
|---|---|---|
| `Wrappers` | wrappers.dfy | `Option` and `Result` |
| `PyStr` | pystr.dfy | Python string operations |
| `Search` | search.dfy | the first element a loop or comprehension raises on |
| `RouteTypes` | route_types.dfy | coordinates, routes, `RouteMetric` (analysis/common.py:20-30) |
| `CloudIpRanges` | cloud_ip_ranges.dfy | analysis/common.py:38-70 |
| `ItdkIndex` | itdk_index.dfy | analysis/common.py:72-112 |
| `RegionFilename` | region_filename.dfy | analysis/common.py:136-153 |
| `RouteMetrics` | route_metrics.dfy | analysis/common.py:161-183 |
| `RouteResolver` | route_resolver.dfy | analysis/itdk_geo.py:33 and 45-91 |
| `GroundTruth` | ground_truth.dfy | analysis/itdk_geo.py:93-133 |
| `ConvertDriver` | convert_driver.dfy | analysis/itdk_geo.py:157-166 and 191-210 |
| `StableSort` | stable_sort.dfy | the sort of analysis/distribution.routes.py:22 |
| `RoutesDistribution` | routes_distribution.dfy | analysis/distribution.routes.py:14-31 |
| `CombineTsvs` | combine_tsvs.dfy | analysis/combine_per_region_pair_tsvs.py:11-38 |

**Region detection.** The two regular expressions are stated over the
'.'-separated tokens of the filename. A match is a token position `i ≥ 1`
with:

- a newline-free prefix, since `.` does not match '\n';
- cloud and region tokens at `i`, `i+1`, … (a region is `[\w-]+`, with `\w`
  read as ASCII);
- a following token that starts with `by_`.

The greedy leading `.*` makes the rightmost such position the one taken.
`RegionFilename.Sound` and `RegionFilename.Complete` connect this token
reading to the regular expression on the raw string, in both directions.

**Caches.** The two `functools.cache` memos are modelled explicitly:

- In `RouteMetrics.TotalDistanceKm` the memo is a local map that lives for
  one call.
- For `are_isos_equal` it is the class `GroundTruth.IsoEqualityCache`.

Both are proved never to change an answer.

**Notes on the code's behaviour.** The model keeps these behaviours of the
code as written:

- The gcloud filter compares `item['region']` but labels the range with
  `item['scope']`, and so does the model. A filtered gcloud item without a
  `region` key is therefore a `MissingKey` error.
- A node line that starts with "node N" but has no ':' makes the loader
  index past the split (`arr[1]`). This is modelled as the error
  `MissingColon`.
- `calculate_route_metric` evaluates every '|'-separated piece with
  `ast.literal_eval` for the distance. The empty route prints as "", whose
  one piece does not evaluate, so its distance raises. This is modelled as
  the error `UnparsableHop`.
- The combiner called with no files ends in a `KeyError` at the final column
  selection. This is modelled as the error `NoInputs`.

## Model

| member | source | states |
|---|---|---|
| PyStr.RemovePrefix | analysis/itdk_geo.py:33 | `removeprefix`: when `s` starts with `p`, `p` followed by the result is `s`; otherwise `s` is returned unchanged |
| PyStr.RemoveSuffix | analysis/itdk_geo.py:193 | `removesuffix`: when `s` ends with `p`, the result followed by `p` is `s`; otherwise `s` is returned unchanged |
| PyStr.Split | analysis/common.py:179 | `str.split(sep)`: there is always at least one piece, and no piece contains the separator |
| PyStr.JoinSplit | analysis/common.py:179 | joining the pieces of `s.split(sep)` with `sep` gives `s` back |
| PyStr.SplitJoin | analysis/distribution.routes.py:20 | splitting `sep.join(parts)` gives `parts` back, for a non-empty list of parts that do not contain `sep` |
| PyStr.Words | analysis/common.py:88-89 | whitespace `split()`: every piece is a non-empty run of non-space characters |
| PyStr.WordsJoin | analysis/common.py:88-89 | splitting words joined by single spaces gives the same words back |
| PyStr.WordsAroundSpace | analysis/common.py:87-89 | whitespace `split()` of a text cut at a space is the words before the space followed by the words after it |
| PyStr.WordsLeadingSpace | analysis/common.py:89 | leading whitespace, such as the space after the node line's ':', adds no word |
| PyStr.WordsTrailingSpace | analysis/common.py:89 | trailing whitespace, such as the newline a file line ends with, adds no word |
| PyStr.Basename | analysis/itdk_geo.py:193 | `os.path.basename`: contains no '/', is a suffix of the path, and is the whole path when the path has no '/' |
| PyStr.BasenameOfPath | analysis/combine_per_region_pair_tsvs.py:18 | the basename of `dir/name` is `name` |
| RouteMetrics.TotalDistanceKm | analysis/common.py:161-174 | the memoised loop returns PathLength: 0 for at most one hop, and otherwise the sum of `dist` over consecutive hops. The memo only holds true distances, so it does not change the total |
| RouteMetrics.PathLengthNonNegative | analysis/common.py:161-174 | when `dist` is never negative, neither is the total distance |
| RouteMetrics.PathLengthOfRepeatedPoint | analysis/common.py:161-174 | a route that stays at one point has total distance 0, when `dist(c, c)` is 0 |
| RouteMetrics.PathLengthAppend | analysis/common.py:171-173 | the distance of a concatenation is both parts' distances plus the step between them |
| RouteMetrics.CountHops | analysis/common.py:179 | the hop count is the number of '\|'-separated pieces. It is at least 1, so an empty string counts as one hop |
| RouteMetrics.ParseHops | analysis/common.py:181 | when every '\|'-separated piece evaluates, there is one coordinate per piece, each the piece's value, so as many coordinates as the hop count. Otherwise the error is the index of the first piece that does not evaluate |
| RouteMetrics.CalculateRouteMetric | analysis/common.py:176-183 | `hop_count` gives the piece count. `distance_km` succeeds iff every piece evaluates, with the path length of the parsed hops, and otherwise is `UnparsableHop` of the first bad piece. Any other metric name is an `UnknownMetric` error (the `ValueError`) |
| RouteMetrics.EmptyRouteHasNoDistance | analysis/common.py:176-181 | the empty route "" has hop count 1, and its distance fails on piece 0 because "" does not evaluate |
| ItdkIndex.ParseNodeLine | analysis/common.py:80-89 | a line is one of: a comment (starts with '#'); unrecognised (does not start with "node N"); a "node N" line without ':' (the IndexError); or a node. A node's id is a word that starts with 'N' and holds no ':', and its IPs are words |
| ItdkIndex.ParsedAtColon | analysis/common.py:87-89 | a "node N" line with a ':' is a node whose id is the second word before the first ':' and whose IPs are the words after it |
| ItdkIndex.NodeLineParts | analysis/common.py:87-89 | `node <id>:<text>` parses to the node `<id>` with the words of `<text>` as its IPs |
| ItdkIndex.NodeLineOfIps | analysis/common.py:87-89 | the file line `node <id>: <ip> <ip> …` followed by a newline parses to the node `<id>` with exactly those IPs |
| ItdkIndex.AssignAll | analysis/common.py:91-92 | every IP of the line is mapped to the node id, on top of the existing map |
| ItdkIndex.LoadItdkMapping | analysis/common.py:72-106 | succeeds iff no line is a "node N" line without ':'. A failure names the first such line. On success the result is the reverse or the forward index, and the node count is the number of node lines |
| ItdkIndex.LoadNodeIdToIps | analysis/common.py:108-109 | the forward (node id → IPs) index, failing as the loader does |
| ItdkIndex.LoadNodeIpToId | analysis/common.py:111-112 | the reverse (IP → node id) index, failing as the loader does |
| ItdkIndex.ReverseIndexLastWins | analysis/common.py:90-92 | an IP is in the reverse index iff some node line lists it. Its id is the id of the last line that lists it |
| ItdkIndex.ForwardIndexLastWins | analysis/common.py:93-94 | a node id is in the forward index iff some node line declares it. Its IPs are those of the last line that declares it |
| ItdkIndex.SkippedLineIgnored | analysis/common.py:80-85 | inserting a line that is not a node anywhere changes neither ReverseIndex, ForwardIndex nor NodeCount. For a comment or unrecognised line the loader result is therefore unchanged. A colon-less line makes LoadItdkMapping fail instead |
| RegionFilename.RightmostMatch | analysis/common.py:139 | the greedy leading `.*` takes the rightmost token position where the pattern matches, or none when there is none |
| RegionFilename.DetectCloudRegions | analysis/common.py:136-153 | None iff neither pattern matches at any token position. A result is a regex match of the 4-group pattern, or a match of the 3-group pattern with the destination cloud set to the source cloud |
| RegionFilename.Sound | analysis/common.py:139-151 | a token match is a regex match of the whole filename: a newline-free prefix, the groups, then `.by_` and the rest |
| RegionFilename.Complete | analysis/common.py:139-151 | every regex decomposition of the filename is a token match, at the position given by the prefix's token count |
| RegionFilename.DetectPrefersFourGroups | analysis/common.py:139-143 | when the 4-group pattern matches, its rightmost match gives all four groups |
| RegionFilename.DetectFallsBackToThreeGroups | analysis/common.py:144-151 | when the 4-group pattern matches nowhere, the rightmost 3-group match gives the result, with the destination cloud equal to the source cloud |
| RegionFilename.TokensOfRegionParts | analysis/common.py:139 | region-like parts joined with '.' split back into those parts, so the examples below, stated over token lists, apply to the filenames those tokens join to |
| RegionFilename.ExampleFourGroups | analysis/common.py:138-143 | the tokens `routes`, `aws`, `af-south-1`, `aws`, `ap-northeast-1`, `by_geo` give (aws, af-south-1, aws, ap-northeast-1) |
| RegionFilename.ExampleThreeGroups | analysis/common.py:144-151 | the tokens `routes`, `aws`, `af-south-1`, `ap-northeast-1`, `by_geo` give (aws, af-south-1, aws, ap-northeast-1) |
| RegionFilename.ExampleMatchFour | analysis/common.py:139 | on the tokens `routes`, `aws`, `af-south-1`, `aws`, `ap-northeast-1`, `by_geo` the 4-group pattern matches at token 1 and nowhere to its right |
| RegionFilename.ExampleMatchThree | analysis/common.py:146 | on the tokens `routes`, `aws`, `af-south-1`, `ap-northeast-1`, `by_geo` the 3-group pattern matches at token 1 and nowhere to its right |
| RegionFilename.ExampleCloudFirst | analysis/common.py:139 | a token list that starts with the cloud has no token before it, so it matches neither pattern |
| RegionFilename.ExampleCloudAsRegion | analysis/common.py:146-151 | the tokens `routes`, `aws`, `us-east-1`, `gcp`, `by_ip` are too short for four groups, so `gcp` is read as the destination region |
| RegionFilename.ExampleNewlineInPrefix | analysis/common.py:139 | a newline in a token before the clouds stops the leading `.*`, so nothing matches |
| RouteResolver.ConvertNodeId | analysis/itdk_geo.py:33 | the converted id is never longer than the field |
| RouteResolver.ConvertNodeIdOfDecorated | analysis/itdk_geo.py:33 | `node.geo <id>:` converts to `<id>` |
| RouteResolver.ConvertNodeIdOfBare | analysis/itdk_geo.py:33 | a field without the prefix and without the trailing ':' is unchanged |
| RouteResolver.KnownIds | analysis/itdk_geo.py:60-67 | the node ids of the IPs found in the map, in hop order. No id is empty, and there are at most as many ids as hops |
| RouteResolver.CoordinatesOf | analysis/itdk_geo.py:72-73 | one coordinate per node id, that node's location, in order |
| RouteResolver.ResolveHops | analysis/itdk_geo.py:60-73 | the hop loop computes Resolve. It skips unknown IPs with `continue`, and on a node without a location it resets the route and breaks |
| RouteResolver.ConvertRoutesFromIpToLatLon | analysis/itdk_geo.py:45-91 | returns exactly the routes Converted keeps, and writes exactly those routes, in order |
| RouteResolver.ConvertedAreValid | analysis/itdk_geo.py:74-85 | no more routes come out than go in. Every emitted route has at least two hops and passes the validator |
| RouteResolver.Kept | analysis/itdk_geo.py:58-85 | the indices of the emitted input routes are in bounds and strictly increasing |
| RouteResolver.KeptExactlySurvivors | analysis/itdk_geo.py:74-85 | an input route is emitted iff it resolves to at least two hops and the validator accepts it |
| RouteResolver.ConvertedInInputOrder | analysis/itdk_geo.py:58-85 | the j-th emitted route is the resolution of the j-th kept input route |
| RouteResolver.UnknownIpSkipped | analysis/itdk_geo.py:65-67 | an IP without a node id leaves the resolved route as if the IP were absent |
| RouteResolver.MissingGeoVoidsRoute | analysis/itdk_geo.py:68-71 | a known node without a location empties the resolved route, so the route is not emitted |
| RouteResolver.ResolveInHopOrder | analysis/itdk_geo.py:64-73 | when every node is located, resolution distributes over concatenation, so hop order is kept |
| RouteResolver.ResolveOneHop | analysis/itdk_geo.py:60-73 | a located IP resolves to its node's coordinate |
| GroundTruth.RegionKey | analysis/itdk_geo.py:99 | the key is the cloud, then ':', then the region |
| GroundTruth.RegionKeyInjective | analysis/itdk_geo.py:99 | for clouds without ':', equal keys mean equal clouds and equal regions |
| GroundTruth.LoadGroundTruth | analysis/itdk_geo.py:93-102 | the row loop builds Table, where each row overwrites its region's key |
| GroundTruth.TableLastRowWins | analysis/itdk_geo.py:97-101 | a key is in the table iff some row has it, and it holds the coordinate of the last such row |
| GroundTruth.RouteCheckByGroundTruth | analysis/itdk_geo.py:104-133 | looks up the source key, then the destination key, and the first missing one is the error. It succeeds iff both are present, giving the endpoint ISO check for their coordinates |
| GroundTruth.AsValidator | analysis/itdk_geo.py:132 | the check is a validator defined on every route of at least two hops |
| GroundTruth.IsoEqualityCache.AreIsosEqual | analysis/itdk_geo.py:122-130 | returns whether the two ISOs are equal and records that answer in the memo. The memo stays correct |
| GroundTruth.IsoEqualityCache.CheckRoute | analysis/itdk_geo.py:132 | the short-circuit endpoint check through the memo equals Accepts on the endpoint ISOs |
| GroundTruth.EmittedRoutesMatchEndpoints | analysis/itdk_geo.py:80-85 | under the ground-truth check, every emitted route starts in the source ISO and ends in the destination ISO |
| GroundTruth.AcceptAllKeepsResolvable | analysis/itdk_geo.py:209-210 | with filtering off, every route that resolves to two or more hops is emitted |
| ConvertDriver.OutputFileName | analysis/itdk_geo.py:191-197 | without `--outputs` there is no file. An empty `--outputs` gives the routes file's basename with `.by_ip` removed and `.by_geo` appended. Otherwise the result is the i-th given name |
| ConvertDriver.AutoOutputOfByIpFile | analysis/itdk_geo.py:193 | `dir/name.by_ip` is auto-named `name.by_geo` |
| ConvertDriver.AutoOutputOfOtherFile | analysis/itdk_geo.py:193 | a basename without `.by_ip` just gets `.by_geo` appended |
| ConvertDriver.DetectRegionsByFilename | analysis/itdk_geo.py:157-166 | succeeds iff every routes file's name gives regions, and fails on the first one that does not. On success each file maps to its own detected regions |
| ConvertDriver.SelectRouteCheck | analysis/itdk_geo.py:199-210 | with filtering off, every route is accepted. Otherwise the ground-truth check uses the file's detected regions, or the four options when the file was not detected |
| ConvertDriver.DetectedFileUsesItsRegions | analysis/itdk_geo.py:199-208 | a detected file is checked against the ground-truth coordinates of the regions in its own name |
| StableSort.InsertDescending | analysis/distribution.routes.py:22 | insertion keeps every item and adds exactly the new one (as multisets) |
| StableSort.SortByCountDescending | analysis/distribution.routes.py:22 | the sort is a permutation of the counter's items |
| StableSort.SortIsNonIncreasing | analysis/distribution.routes.py:22 | the sorted items have non-increasing counts |
| StableSort.SortIsStable | analysis/distribution.routes.py:22 | for input in increasing rank order, the output is ordered by descending count and then by increasing rank: `sorted(..., reverse=True)` is stable |
| StableSort.SortKeepsSum | analysis/distribution.routes.py:22 | sorting keeps the total of the counts |
| RoutesDistribution.Distinct | analysis/distribution.routes.py:21 | the counter's keys have no duplicates and are exactly the strings that occur |
| RoutesDistribution.DistinctInFirstAppearanceOrder | analysis/distribution.routes.py:21 | the keys come in the order their strings first appear |
| RoutesDistribution.CountRoutes | analysis/distribution.routes.py:21 | `Counter`: the keys in first-appearance order, with each key's count equal to its number of occurrences |
| RoutesDistribution.Columns | analysis/distribution.routes.py:18 | the header is `count`, then the metric names in the order requested, then `route` |
| RoutesDistribution.ExportRoutesDistribution | analysis/distribution.routes.py:14-31 | the header is Columns, and the result is DistributionRows of the '\|'-joined route strings. On success each row holds the count, the CalculateRouteMetric value of every requested metric, then the route string. A metric that fails on a route makes the export fail with the first such error, in row then metric order |
| RoutesDistribution.SortedCounts | analysis/distribution.routes.py:22 | the pairs the loop walks are the counter's items in first-appearance order, stably sorted by descending count |
| RoutesDistribution.RowsOf | analysis/distribution.routes.py:22-28 | on success, one row per sorted pair, in the sorted order: the count, the metric values, then the route string. It fails with the error of the first pair whose metrics fail |
| RoutesDistribution.RouteMetricValues | analysis/distribution.routes.py:24-26 | the inner loop appends, for each requested metric in order, CalculateRouteMetric of the route string, and stops with the first metric that fails |
| RoutesDistribution.RowsAreCounted | analysis/distribution.routes.py:20-28 | when the export succeeds, every row's route is one of the input route strings, and its count is that string's number of occurrences |
| RoutesDistribution.RowsCoverRoutes | analysis/distribution.routes.py:20-28 | when the export succeeds, every input route string appears as the route of some row |
| RoutesDistribution.OneRowPerDistinctRoute | analysis/distribution.routes.py:20-28 | when the export succeeds, each distinct route string has exactly one row, and that row's count is the string's number of occurrences |
| RoutesDistribution.RowsInOrder | analysis/distribution.routes.py:22 | when the export succeeds, rows have non-increasing counts, and rows with equal counts come in the order their routes first appear |
| RoutesDistribution.CountsSumToRoutes | analysis/distribution.routes.py:20-22 | when the export succeeds, the row counts add up to the number of input routes |
| RoutesDistribution.ExportSucceedsIffAllMetricsDo | analysis/distribution.routes.py:20-28 | the export succeeds iff every requested metric succeeds on every route string |
| RoutesDistribution.HopCountsNeverFail | analysis/distribution.routes.py:24-26 | when only `hop_count` is requested, the export always succeeds |
| RoutesDistribution.SumOverAllKeys | analysis/distribution.routes.py:21 | over distinct keys that cover a multiset, the multiplicities add up to the multiset's size |
| RoutesDistribution.RouteStringHopCount | analysis/distribution.routes.py:20 | for a non-empty route whose hops print without '\|', the hop count of the joined string is the route's length |
| RoutesDistribution.ParseHopsOfRouteString | analysis/distribution.routes.py:20 | when `parse` reads back what `show` prints, the joined string parses back to exactly the route |
| RoutesDistribution.RouteStringDistance | analysis/distribution.routes.py:20 | under the same condition, the distance metric of the joined string is the route's path length |
| CombineTsvs.OutputColumns | analysis/combine_per_region_pair_tsvs.py:34 | the four region columns, then `count`, `hop_count`, `distance_km`, `route` |
| CombineTsvs.FirstMissingColumn | analysis/combine_per_region_pair_tsvs.py:23-24 | none iff every required column is present. Otherwise the first required column, in check order, that is absent |
| CombineTsvs.FileCheck | analysis/combine_per_region_pair_tsvs.py:18-24 | a file passes iff its basename gives regions and it has every required column, and it passes with those regions. A name without regions fails before the columns are checked. A missing column names the file and the first absent required column |
| CombineTsvs.WellFormedFilesPass | analysis/combine_per_region_pair_tsvs.py:18-24 | when every file's basename gives regions and every file has the required columns, every file passes |
| CombineTsvs.CheckFile | analysis/combine_per_region_pair_tsvs.py:18-24 | the two assertions on one file compute FileCheck |
| CombineTsvs.Select | analysis/combine_per_region_pair_tsvs.py:35 | `df[columns]`: one projected row per row |
| CombineTsvs.CombineTsvFilesAndAddRegions | analysis/combine_per_region_pair_tsvs.py:13-38 | succeeds iff there is at least one file and every file passes. It fails on the first file that does not pass, and on an empty list, where the final selection finds no columns. On success the result is Combined |
| CombineTsvs.LabelledRowCells | analysis/combine_per_region_pair_tsvs.py:26-35 | a labelled row projects to the file's four regions followed by its required cells. Region columns the file already had are overwritten, and other columns are dropped |
| CombineTsvs.StackedLength | analysis/combine_per_region_pair_tsvs.py:31 | the stack has as many rows as all the files together |
| CombineTsvs.StackedRowOfFile | analysis/combine_per_region_pair_tsvs.py:31 | the j-th row of file k sits at that file's offset plus j, labelled with that file's regions |
| CombineTsvs.CombinedRowOfFile | analysis/combine_per_region_pair_tsvs.py:20-35 | the output has one row per input row, in file order. Row j of file k is the regions detected from file k's basename, followed by that row's required cells |
| CloudIpRanges.LoadAwsIpRanges | analysis/common.py:38-49 | the item loop computes Ranges for aws. The loop reads "region" (only when filtering), then "ip_prefix", then "region" again |
| CloudIpRanges.LoadGcloudIpRanges | analysis/common.py:51-63 | the item loop computes Ranges for gcloud. It filters on "region", skips items without "ipv4Prefix", and labels each range with "scope" |
| CloudIpRanges.LoadCloudIpRanges | analysis/common.py:65-70 | "aws" gives the aws ranges and "gcloud" the gcloud ranges. Any other cloud is `UnsupportedCloud` (the `ValueError`) |
| CloudIpRanges.FailureSticks | analysis/common.py:44-48 | once an item has raised, the later items change nothing |
| CloudIpRanges.RangesFailOnFirstMissingKey | analysis/common.py:44-62 | loading fails iff some item lacks a key it reads. The error then names the first such item and the key it lacks |
| CloudIpRanges.KeptIndices | analysis/common.py:44-62 | the positions of the kept items are in bounds and strictly increasing |
| CloudIpRanges.KeptIndicesExactlyKept | analysis/common.py:44-62 | an item's position is kept iff the item passes the filter and has its keys |
| CloudIpRanges.RangesInInputOrder | analysis/common.py:44-62 | a successful load returns one range per kept item, in input order |
| CloudIpRanges.FilterKeepsOnlyRegion | analysis/common.py:45-46 | under a given, non-empty region, only items of that region are kept |
| CloudIpRanges.UnfilteredAwsItemKept | analysis/common.py:45-48 | without a filter, every aws item that has both keys is kept, with its own prefix and region |
| CloudIpRanges.GcloudKeptItem | analysis/common.py:59-62 | a gcloud item without "ipv4Prefix" is never kept. A kept one gives its IPv4 prefix, "gcloud" and its scope |
| CloudIpRanges.FilteredAwsRangesInRegion | analysis/common.py:44-49 | every range a filtered aws load returns is an aws range of the requested region |

## Left out

- Reading and writing files, and logging, are not modelled. This covers the
  node file, the node-geo file, routes files, the ground-truth CSV, the JSON
  range files, the TSVs and the printed routes. The model takes and returns
  the in-memory contents, and elapsed-time and progress logging have no
  counterpart.
- The argparse declarations of `parse_args` and the `DirType` check are not
  modelled. Their guarantees are preconditions instead: an `--outputs` list
  is empty or one per routes file, and the region options are present when
  they are not detected. The filename-detection loop of `parse_args`
  (analysis/itdk_geo.py:157-166) is modelled, as
  ConvertDriver.DetectRegionsByFilename.
- `get_routes_from_file` is not modelled: `ast.literal_eval` is a Python
  literal parser. Routes are given as lists of IP strings.
- Reading the node-geo file (`parse_node_geo_as_dataframe`, pandas
  `read_csv`) is not modelled. It is the map `GeoTable` from node id to
  coordinate. `ConvertNodeId` models the id converter the source applies
  to that file.
- `get_node_ids_with_geo_coordinates` is not modelled: it is `GeoTable`'s key
  set, and nothing in the core uses it.
- `main`'s route loop in analysis/itdk_geo.py (lines 179-218) is not
  modelled as one method. Each choice it makes is modelled on its own:
  `OutputFileName`, `SelectRouteCheck`, `RouteCheckByGroundTruth` and
  `ConvertRoutesFromIpToLatLon`. The `ValueError('No action specified')`
  branch is not modelled.
- Floating point is not modelled:
  - coordinates are opaque integer pairs;
  - `float()` of the CSV fields is not modelled;
  - distances are `real` values from an abstract `dist` in place of the
    geodesic;
  - the hop count is returned as `real` to match the float column.
- `ast.literal_eval` of a hop in `calculate_route_metric` is the parameter
  `parse`. It returns `None` where `literal_eval` raises. Python's literal
  grammar is not modelled.
- RouteMetrics.CalculateRouteMetric does not model `round(..., 2)` of the
  distance. It returns the exact path length.
- Duplicate node ids in the node-geo file are not modelled: `.loc` would
  return several rows. A node id maps to one coordinate.
- The carbon-region service (`get_carbon_region_from_coordinate`) is the
  parameter `iso`. Its failures, and its lookups of the two endpoints while
  the check is built (analysis/itdk_geo.py:113-114), are not modelled.
- GroundTruth.RouteCheckByGroundTruth reports a missing key as
  `RegionNotFound(key)` and does not model the logging and the re-raised
  `ValueError` text.
- RegionFilename.DetectCloudRegions reads `\w` as ASCII letters, digits and
  '_'. Python's Unicode `\w` accepts more characters in region tokens.
- CombineTsvs.CombineTsvFilesAndAddRegions takes each table as delivered by
  `read_csv`, with every row holding every header column. The following
  pandas behaviours are not modelled:
  - NaN filling;
  - dtype inference;
  - renaming of duplicate header names;
  - the `concat` of tables with different columns (only the output columns
    survive the final selection).
- RoutesDistribution.ExportRoutesDistribution uses `show` for Python's
  `str()` of a hop. `show` is assumed to print no '\|' wherever the hop
  count is related to the route length.
- The ITDK progress log every 1,000,000 nodes (analysis/common.py:97-99) is
  not modelled: it is logging only.
