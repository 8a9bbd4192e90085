/**
 * `combine_tsv_files_and_add_regions`
 * (analysis/combine_per_region_pair_tsvs.py, lines 11-38): the per-region-pair
 * distribution tables are labelled with the regions their file names give and
 * stacked into one table whose columns are the four region columns followed by
 * the four required ones. A table is its path, its header and its rows, each
 * row a map from column name to cell text, as `read_csv` delivers it; reading
 * and writing the files are not modelled.
 */
module CombineTsvs {
  import opened Wrappers
  import opened PyStr
  import opened RegionFilename

  const RequiredColumns: seq<string> := ["count", "hop_count", "distance_km", "route"]
  const RegionColumns: seq<string> := ["src_cloud", "src_region", "dst_cloud", "dst_region"]

  /** The header of the combined table. */
  function OutputColumns(): (c: seq<string>)
    ensures |c| == 8 && c[..4] == RegionColumns && c[4..] == RequiredColumns
  {
    RegionColumns + RequiredColumns
  }

  type Row = map<string, string>

  datatype Tsv = Tsv(path: string, columns: seq<string>, rows: seq<Row>)

  /** Every row has a cell for every column of the header, as `read_csv` gives it. */
  predicate Rectangular(t: Tsv) {
    forall j, c :: 0 <= j < |t.rows| && c in t.columns ==> c in t.rows[j]
  }

  datatype CombineError =
    | UndetectedRegions(path: string)
    | MissingColumn(path: string, column: string)
    | NoInputs

  /** The first required column, in the order they are checked, that `columns` lacks. */
  function FirstMissingColumn(columns: seq<string>): (r: Option<string>)
    ensures r.None? <==> forall m :: 0 <= m < |RequiredColumns| ==> RequiredColumns[m] in columns
    ensures r.Some? ==> exists m :: (0 <= m < |RequiredColumns| && r.value == RequiredColumns[m]
      && r.value !in columns && forall l :: 0 <= l < m ==> RequiredColumns[l] in columns)
  {
    if RequiredColumns[0] !in columns then Some(RequiredColumns[0])
    else if RequiredColumns[1] !in columns then Some(RequiredColumns[1])
    else if RequiredColumns[2] !in columns then Some(RequiredColumns[2])
    else if RequiredColumns[3] !in columns then Some(RequiredColumns[3])
    else None
  }

  /** What one file contributes before its rows are read: its regions, or the assertion that fails on it. */
  function FileCheck(t: Tsv): (r: Result<CloudRegions, CombineError>)
    ensures r.Success? ==> Some(r.value) == DetectCloudRegions(Basename(t.path))
    ensures r.Success? ==> forall m :: 0 <= m < |RequiredColumns| ==> RequiredColumns[m] in t.columns
    ensures DetectCloudRegions(Basename(t.path)).None? <==> r == Failure(UndetectedRegions(t.path))
    ensures r.Failure? ==> r.error.UndetectedRegions? || r.error.MissingColumn?
    ensures r.Failure? && r.error.MissingColumn? ==>
      r.error.path == t.path && Some(r.error.column) == FirstMissingColumn(t.columns)
    ensures DetectCloudRegions(Basename(t.path)).Some? && (forall m :: 0 <= m < |RequiredColumns| ==> RequiredColumns[m] in t.columns)
      ==> r.Success?
  {
    match DetectCloudRegions(Basename(t.path))
    case None => Failure(UndetectedRegions(t.path))
    case Some(c) =>
      match FirstMissingColumn(t.columns)
      case Some(column) => Failure(MissingColumn(t.path, column))
      case None => Success(c)
  }

  /** `df['src_cloud'] = src_cloud` and the three assignments after it, on one row. */
  function Labelled(row: Row, c: CloudRegions): Row {
    row[RegionColumns[0] := c.srcCloud][RegionColumns[1] := c.srcRegion]
       [RegionColumns[2] := c.dstCloud][RegionColumns[3] := c.dstRegion]
  }

  /** The cells of a row under the given columns, in their order. */
  function Project(row: Row, columns: seq<string>): (r: seq<string>)
    requires forall m :: 0 <= m < |columns| ==> columns[m] in row
    ensures |r| == |columns|
  {
    seq(|columns|, m requires 0 <= m < |columns| => row[columns[m]])
  }

  /** `df[columns]`: every row's cells under the given columns. */
  function Select(rows: seq<Row>, columns: seq<string>): (r: seq<seq<string>>)
    requires forall i, m :: 0 <= i < |rows| && 0 <= m < |columns| ==> columns[m] in rows[i]
    ensures |r| == |rows|
    ensures forall i :: 0 <= i < |rows| ==> r[i] == Project(rows[i], columns)
  {
    seq(|rows|, i requires 0 <= i < |rows| => Project(rows[i], columns))
  }

  /** Every file's name gives its regions and its header holds the required columns. */
  predicate AllPass(inputs: seq<Tsv>) {
    forall k :: 0 <= k < |inputs| ==> FileCheck(inputs[k]).Success?
  }

  /** Files whose names give regions and that hold every required column all pass. */
  lemma WellFormedFilesPass(inputs: seq<Tsv>)
    requires forall k :: 0 <= k < |inputs| ==> DetectCloudRegions(Basename(inputs[k].path)).Some?
    requires forall k, m :: 0 <= k < |inputs| && 0 <= m < |RequiredColumns| ==> RequiredColumns[m] in inputs[k].columns
    ensures AllPass(inputs)
  {
    forall k | 0 <= k < |inputs| ensures FileCheck(inputs[k]).Success? {
      assert forall m :: 0 <= m < |RequiredColumns| ==> RequiredColumns[m] in inputs[k].columns;
    }
  }

  predicate HasRequiredColumns(t: Tsv) {
    forall m :: 0 <= m < |RequiredColumns| ==> RequiredColumns[m] in t.columns
  }

  /** Tables that the stacking below can read: rectangular, with the required columns. */
  predicate Readable(inputs: seq<Tsv>) {
    forall k :: 0 <= k < |inputs| ==> Rectangular(inputs[k]) && HasRequiredColumns(inputs[k])
  }

  /** The regions detected from the names of files that all passed. */
  function Detected(inputs: seq<Tsv>): (regions: seq<CloudRegions>)
    requires AllPass(inputs)
    ensures |regions| == |inputs|
    ensures forall k :: 0 <= k < |inputs| ==> Success(regions[k]) == FileCheck(inputs[k])
    ensures forall k :: 0 <= k < |inputs| ==> Some(regions[k]) == DetectCloudRegions(Basename(inputs[k].path))
  {
    seq(|inputs|, k requires 0 <= k < |inputs| && FileCheck(inputs[k]).Success? => FileCheck(inputs[k]).value)
  }

  /** The labelled rows of one file. */
  function LabelledRows(t: Tsv, c: CloudRegions): (r: seq<Row>)
    ensures |r| == |t.rows|
  {
    seq(|t.rows|, j requires 0 <= j < |t.rows| => Labelled(t.rows[j], c))
  }

  /** `pd.concat` of the tables, each labelled with its regions, file after file. */
  function Stacked(inputs: seq<Tsv>, regions: seq<CloudRegions>): seq<Row>
    requires |regions| == |inputs|
    decreases |inputs|
  {
    if |inputs| == 0 then []
    else
      var n := |inputs| - 1;
      Stacked(inputs[..n], regions[..n]) + LabelledRows(inputs[n], regions[n])
  }

  /** Every stacked row holds the output columns. */
  lemma {:induction false} StackedHasOutputColumns(inputs: seq<Tsv>, regions: seq<CloudRegions>)
    requires |regions| == |inputs| && Readable(inputs)
    ensures forall i, m :: 0 <= i < |Stacked(inputs, regions)| && 0 <= m < |OutputColumns()| ==>
      OutputColumns()[m] in Stacked(inputs, regions)[i]
    decreases |inputs|
  {
    if |inputs| > 0 {
      var n := |inputs| - 1;
      assert Readable(inputs[..n]);
      StackedHasOutputColumns(inputs[..n], regions[..n]);
      var t := inputs[n];
      assert Rectangular(t) && HasRequiredColumns(t);
      var front := Stacked(inputs[..n], regions[..n]);
      forall i, m | 0 <= i < |Stacked(inputs, regions)| && 0 <= m < |OutputColumns()|
        ensures OutputColumns()[m] in Stacked(inputs, regions)[i]
      {
        if i >= |front| {
          var j := i - |front|;
          assert Stacked(inputs, regions)[i] == Labelled(t.rows[j], regions[n]);
          if m >= 4 {
            assert OutputColumns()[m] == RequiredColumns[m - 4];
            assert RequiredColumns[m - 4] in t.columns;
          }
        }
      }
    }
  }

  /** The combined table's rows, projected onto the output columns. */
  function Combined(inputs: seq<Tsv>, regions: seq<CloudRegions>): (r: seq<seq<string>>)
    requires |regions| == |inputs| && Readable(inputs)
    ensures |r| == |Stacked(inputs, regions)|
  {
    StackedHasOutputColumns(inputs, regions);
    Select(Stacked(inputs, regions), OutputColumns())
  }

  lemma AllPassReadable(inputs: seq<Tsv>)
    requires forall k :: 0 <= k < |inputs| ==> Rectangular(inputs[k])
    requires AllPass(inputs)
    ensures Readable(inputs)
  {
    forall k | 0 <= k < |inputs| ensures HasRequiredColumns(inputs[k]) {
      assert FileCheck(inputs[k]).Success?;
    }
  }

  /** The two assertions of the loop body, on one file: regions from its basename, then the required columns. */
  method CheckFile(input: Tsv) returns (r: Result<CloudRegions, CombineError>)
    ensures r == FileCheck(input)
    ensures r.Success? ==> HasRequiredColumns(input)
  {
    var cloudRegions := DetectCloudRegions(Basename(input.path));
    if cloudRegions.None? {
      return Failure(UndetectedRegions(input.path));
    }
    for m := 0 to |RequiredColumns|
      invariant forall l :: 0 <= l < m ==> RequiredColumns[l] in input.columns
    {
      var column := RequiredColumns[m];
      if column !in input.columns {
        FirstMissingIs(input.columns, m);
        return Failure(MissingColumn(input.path, column));
      }
    }
    return Success(cloudRegions.value);
  }

  /** The column the checks stop at is the first absent one. */
  lemma FirstMissingIs(columns: seq<string>, m: nat)
    requires m < |RequiredColumns| && RequiredColumns[m] !in columns
    requires forall l :: 0 <= l < m ==> RequiredColumns[l] in columns
    ensures FirstMissingColumn(columns) == Some(RequiredColumns[m])
  {
    if m > 0 {
      assert RequiredColumns[0] in columns;
    }
    if m > 1 {
      assert RequiredColumns[1] in columns;
    }
    if m > 2 {
      assert RequiredColumns[2] in columns;
    }
  }

  /**
   * `combine_tsv_files_and_add_regions` up to writing the table: fails on the
   * first file whose name gives no regions or that lacks a required column,
   * and on an empty list of files, where the final column selection finds no
   * columns at all.
   */
  method CombineTsvFilesAndAddRegions(inputs: seq<Tsv>) returns (r: Result<seq<seq<string>>, CombineError>)
    requires forall k :: 0 <= k < |inputs| ==> Rectangular(inputs[k])
    ensures r.Success? <==> |inputs| > 0 && AllPass(inputs)
    ensures r.Success? ==> AllPass(inputs) && Readable(inputs) && r.value == Combined(inputs, Detected(inputs))
    ensures r == Failure(NoInputs) <==> |inputs| == 0
    ensures r.Failure? && |inputs| > 0 ==>
      exists k :: 0 <= k < |inputs| && FileCheck(inputs[k]) == Failure(r.error)
        && forall j :: 0 <= j < k ==> FileCheck(inputs[j]).Success?
  {
    var stacked: seq<Row> := [];
    ghost var regions: seq<CloudRegions> := [];
    for i := 0 to |inputs|
      invariant |regions| == i
      invariant forall k :: 0 <= k < i ==> FileCheck(inputs[k]) == Success(regions[k])
      invariant Readable(inputs[..i])
      invariant stacked == Stacked(inputs[..i], regions)
    {
      var input := inputs[i];
      var checked := CheckFile(input);
      if checked.Failure? {
        FirstFailure(inputs, i);
        return Failure(checked.error);
      }
      var cloudRegions := checked;
      StackedStep(inputs, regions, i, cloudRegions.value);
      ReadableStep(inputs, i);
      ChecksStep(inputs, regions, i, cloudRegions.value);
      stacked := stacked + LabelledRows(input, cloudRegions.value);
      regions := regions + [cloudRegions.value];
    }
    assert inputs[..|inputs|] == inputs;
    if |inputs| == 0 {
      return Failure(NoInputs);
    }
    DetectedAre(inputs, regions);
    StackedHasOutputColumns(inputs, regions);
    r := Success(Select(stacked, OutputColumns()));
  }

  /** The first file that fails decides the error, which is never `NoInputs`. */
  lemma FirstFailure(inputs: seq<Tsv>, i: nat)
    requires i < |inputs| && FileCheck(inputs[i]).Failure?
    requires forall k :: 0 <= k < i ==> FileCheck(inputs[k]).Success?
    ensures !AllPass(inputs)
    ensures FileCheck(inputs[i]).error != NoInputs
    ensures exists k :: (0 <= k < |inputs| && FileCheck(inputs[k]) == Failure(FileCheck(inputs[i]).error)
      && forall j :: 0 <= j < k ==> FileCheck(inputs[j]).Success?)
  {
  }

  lemma DetectedAre(inputs: seq<Tsv>, regions: seq<CloudRegions>)
    requires |regions| == |inputs|
    requires forall k :: 0 <= k < |inputs| ==> FileCheck(inputs[k]) == Success(regions[k])
    ensures AllPass(inputs) && Detected(inputs) == regions
  {
    assert AllPass(inputs);
    var d := Detected(inputs);
    assert forall k :: 0 <= k < |inputs| ==> d[k] == regions[k];
  }

  /** Stacking one more file appends its labelled rows. */
  lemma StackedSnoc(s: seq<Tsv>, g: seq<CloudRegions>, t: Tsv, c: CloudRegions)
    requires |s| == |g|
    ensures Stacked(s + [t], g + [c]) == Stacked(s, g) + LabelledRows(t, c)
  {
    assert (s + [t])[..|s|] == s && (s + [t])[|s|] == t;
    assert (g + [c])[..|g|] == g && (g + [c])[|g|] == c;
  }

  lemma StackedStep(inputs: seq<Tsv>, regions: seq<CloudRegions>, i: nat, c: CloudRegions)
    requires i < |inputs| && |regions| == i
    ensures Stacked(inputs[..i + 1], regions + [c]) == Stacked(inputs[..i], regions) + LabelledRows(inputs[i], c)
  {
    assert inputs[..i + 1] == inputs[..i] + [inputs[i]];
    StackedSnoc(inputs[..i], regions, inputs[i], c);
  }

  lemma ChecksStep(inputs: seq<Tsv>, regions: seq<CloudRegions>, i: nat, c: CloudRegions)
    requires i < |inputs| && |regions| == i
    requires forall k :: 0 <= k < i ==> FileCheck(inputs[k]) == Success(regions[k])
    requires FileCheck(inputs[i]) == Success(c)
    ensures forall k :: 0 <= k < i + 1 ==> FileCheck(inputs[k]) == Success((regions + [c])[k])
  {
    assert forall k :: 0 <= k < i ==> (regions + [c])[k] == regions[k];
  }

  lemma ReadableStep(inputs: seq<Tsv>, i: nat)
    requires i < |inputs|
    requires Readable(inputs[..i]) && Rectangular(inputs[i]) && HasRequiredColumns(inputs[i])
    ensures Readable(inputs[..i + 1])
  {
    assert inputs[..i + 1] == inputs[..i] + [inputs[i]];
  }

  /** The cells of the region columns of a file's rows. */
  function RegionCells(c: CloudRegions): seq<string> {
    [c.srcCloud, c.srcRegion, c.dstCloud, c.dstRegion]
  }

  /**
   * A labelled row projects to the file's regions followed by its own required
   * cells; region columns the file already had are overwritten.
   */
  lemma LabelledRowCells(row: Row, c: CloudRegions)
    requires forall m :: 0 <= m < |RequiredColumns| ==> RequiredColumns[m] in row
    ensures Project(Labelled(row, c), OutputColumns())
      == RegionCells(c) + seq(4, m requires 0 <= m < 4 => row[RequiredColumns[m]])
  {
  }

  /** The number of rows of the files before the k-th. */
  function Offset(inputs: seq<Tsv>, k: nat): nat
    requires k <= |inputs|
    decreases k
  {
    if k == 0 then 0 else Offset(inputs, k - 1) + |inputs[k - 1].rows|
  }

  lemma {:induction false} StackedLength(inputs: seq<Tsv>, regions: seq<CloudRegions>)
    requires |regions| == |inputs|
    ensures |Stacked(inputs, regions)| == Offset(inputs, |inputs|)
    decreases |inputs|
  {
    if |inputs| > 0 {
      var n := |inputs| - 1;
      StackedLength(inputs[..n], regions[..n]);
      OffsetOfPrefix(inputs, n, n);
    }
  }

  lemma {:induction false} OffsetOfPrefix(inputs: seq<Tsv>, n: nat, k: nat)
    requires k <= n <= |inputs|
    ensures Offset(inputs[..n], k) == Offset(inputs, k)
    decreases k
  {
    if k > 0 {
      OffsetOfPrefix(inputs, n, k - 1);
      assert inputs[..n][k - 1] == inputs[k - 1];
    }
  }

  /** The j-th row of the k-th file sits at Offset(k) + j of the stack, labelled with that file's regions. */
  lemma {:induction false} StackedRowOfFile(inputs: seq<Tsv>, regions: seq<CloudRegions>, k: nat, j: nat)
    requires |regions| == |inputs|
    requires k < |inputs| && j < |inputs[k].rows|
    ensures Offset(inputs, k) + j < |Stacked(inputs, regions)|
    ensures Stacked(inputs, regions)[Offset(inputs, k) + j] == Labelled(inputs[k].rows[j], regions[k])
    decreases |inputs|
  {
    var n := |inputs| - 1;
    StackedLength(inputs[..n], regions[..n]);
    OffsetOfPrefix(inputs, n, n);
    var front := Stacked(inputs[..n], regions[..n]);
    var last := LabelledRows(inputs[n], regions[n]);
    assert Stacked(inputs, regions) == front + last;
    if k < n {
      StackedRowOfFile(inputs[..n], regions[..n], k, j);
      OffsetOfPrefix(inputs, n, k);
      assert inputs[..n][k] == inputs[k] && regions[..n][k] == regions[k];
      OffsetMonotone(inputs, k + 1, n);
      assert (front + last)[Offset(inputs, k) + j] == front[Offset(inputs, k) + j];
    } else {
      assert (front + last)[Offset(inputs, k) + j] == last[j];
    }
  }

  lemma {:induction false} OffsetMonotone(inputs: seq<Tsv>, k: nat, n: nat)
    requires k <= n <= |inputs|
    ensures Offset(inputs, k) <= Offset(inputs, n)
    decreases n - k
  {
    if k < n {
      OffsetMonotone(inputs, k + 1, n);
    }
  }

  /**
   * The combined table has one row per input row, in file order, each made of
   * the regions detected from its file's name and the row's required cells.
   */
  lemma CombinedRowOfFile(inputs: seq<Tsv>, k: nat, j: nat)
    requires AllPass(inputs) && Readable(inputs)
    requires k < |inputs| && j < |inputs[k].rows|
    ensures |Combined(inputs, Detected(inputs))| == Offset(inputs, |inputs|)
    ensures Offset(inputs, k) + j < |Combined(inputs, Detected(inputs))|
    ensures var row := inputs[k].rows[j];
      Combined(inputs, Detected(inputs))[Offset(inputs, k) + j]
        == RegionCells(DetectCloudRegions(Basename(inputs[k].path)).value)
           + seq(4, m requires 0 <= m < 4 => row[RequiredColumns[m]])
  {
    var regions := Detected(inputs);
    StackedLength(inputs, regions);
    StackedRowOfFile(inputs, regions, k, j);
    var row := inputs[k].rows[j];
    assert Rectangular(inputs[k]) && HasRequiredColumns(inputs[k]);
    LabelledRowCells(row, regions[k]);
  }
}
