/**
 * The per-file choices `main` makes in analysis/itdk_geo.py: where the
 * converted routes go (lines 191-197), which cloud regions each routes file
 * is checked against (lines 157-166 and 199-208), and which check is used
 * (lines 199-210). Argument parsing is not modelled; its guarantees (the
 * outputs list is empty or one per routes file, and the four region options
 * are given whenever they are not detected from the filenames) are the
 * preconditions here.
 */
module ConvertDriver {
  import opened Wrappers
  import opened PyStr
  import opened RouteTypes
  import opened RegionFilename
  import opened GroundTruth

  const ByIpSuffix := ".by_ip"
  const ByGeoSuffix := ".by_geo"

  /**
   * The output file of the i-th routes file: none without `--outputs`, the
   * routes file's basename with ".by_ip" swapped for ".by_geo" for an empty
   * `--outputs`, and the i-th given name otherwise.
   */
  function OutputFileName(outputs: Option<seq<string>>, routesFile: string, i: nat): (r: Option<string>)
    requires outputs.Some? && |outputs.value| > 0 ==> i < |outputs.value|
    ensures r.None? <==> outputs.None?
    ensures outputs.Some? && |outputs.value| > 0 ==> r == Some(outputs.value[i])
    ensures outputs == Some([]) ==> r == Some(RemoveSuffix(Basename(routesFile), ByIpSuffix) + ByGeoSuffix)
    ensures outputs == Some([]) ==> r.Some? && HasSuffix(r.value, ByGeoSuffix) && '/' !in r.value
  {
    match outputs
    case None => None
    case Some(names) =>
      if |names| == 0 then
        var stem := RemoveSuffix(Basename(routesFile), ByIpSuffix);
        AutoName(Basename(routesFile), stem);
        Some(stem + ByGeoSuffix)
      else Some(names[i])
  }

  /** The auto-generated name keeps the basename's freedom from '/' and ends in ".by_geo". */
  lemma AutoName(base: string, stem: string)
    requires '/' !in base
    requires stem == RemoveSuffix(base, ByIpSuffix)
    ensures '/' !in stem + ByGeoSuffix
    ensures HasSuffix(stem + ByGeoSuffix, ByGeoSuffix)
  {
    assert forall k :: 0 <= k < |stem| ==> stem[k] == base[k] by {
      if HasSuffix(base, ByIpSuffix) {
        assert stem + ByIpSuffix == base;
      }
    }
    var r := stem + ByGeoSuffix;
    assert r[|r| - |ByGeoSuffix|..] == ByGeoSuffix;
    assert forall k :: 0 <= k < |ByGeoSuffix| ==> ByGeoSuffix[k] != '/';
  }

  /** An auto-named output for dir/name.by_ip is name.by_geo, in the working directory. */
  lemma AutoOutputOfByIpFile(dir: string, name: string)
    requires '/' !in name
    ensures OutputFileName(Some([]), dir + "/" + name + ByIpSuffix, 0) == Some(name + ByGeoSuffix)
  {
    assert dir + "/" + name + ByIpSuffix == dir + "/" + (name + ByIpSuffix);
    BasenameOfPath(dir, name + ByIpSuffix);
    var b := name + ByIpSuffix;
    assert b[|b| - |ByIpSuffix|..] == ByIpSuffix;
    assert b[..|b| - |ByIpSuffix|] == name;
  }

  /** A basename without ".by_ip" just gets ".by_geo" appended. */
  lemma AutoOutputOfOtherFile(name: string)
    requires '/' !in name && !HasSuffix(name, ByIpSuffix)
    ensures OutputFileName(Some([]), name, 0) == Some(name + ByGeoSuffix)
  {
  }

  /**
   * Detecting the regions of every routes file when none of the four region
   * options is given: fails on the first file whose name matches neither
   * pattern, and otherwise maps each file to what its name gives.
   */
  method DetectRegionsByFilename(routesFiles: seq<string>) returns (r: Result<map<string, CloudRegions>, string>)
    ensures r.Success? <==> forall k :: 0 <= k < |routesFiles| ==> DetectCloudRegions(routesFiles[k]).Some?
    ensures r.Failure? ==>
      exists k :: 0 <= k < |routesFiles| && r.error == routesFiles[k] && DetectCloudRegions(routesFiles[k]).None?
        && (forall j :: 0 <= j < k ==> DetectCloudRegions(routesFiles[j]).Some?)
    ensures r.Success? ==> forall f :: f in r.value <==> f in routesFiles
    ensures r.Success? ==> forall f :: f in r.value ==> Some(r.value[f]) == DetectCloudRegions(f)
  {
    var byFilename: map<string, CloudRegions> := map[];
    var i := 0;
    while i < |routesFiles|
      invariant 0 <= i <= |routesFiles|
      invariant forall f :: f in byFilename <==> f in routesFiles[..i]
      invariant forall f :: f in byFilename ==> Some(byFilename[f]) == DetectCloudRegions(f)
    {
      var routesFile := routesFiles[i];
      assert routesFiles[..i + 1] == routesFiles[..i] + [routesFile];
      var cloudRegions := DetectCloudRegions(routesFile);
      if cloudRegions.None? {
        assert forall j :: 0 <= j < i ==> routesFiles[j] in routesFiles[..i];
        return Failure(routesFile);
      }
      byFilename := byFilename[routesFile := cloudRegions.value];
      i := i + 1;
    }
    assert routesFiles[..i] == routesFiles;
    assert forall j :: 0 <= j < i ==> routesFiles[j] in routesFiles;
    return Success(byFilename);
  }

  /**
   * The check for one routes file: every route when filtering is off;
   * otherwise the ground-truth check for the file's detected regions, or for
   * the four region options when the file was not detected.
   */
  function SelectRouteCheck(filter: bool, table: map<string, Coordinate>, byFilename: map<string, CloudRegions>,
                            routesFile: string, fromOptions: CloudRegions): (r: Result<RouteCheck, GroundTruthError>)
    ensures !filter ==> r == Success(AcceptAll)
    ensures filter && routesFile in byFilename ==>
      var c := byFilename[routesFile];
      r == RouteCheckByGroundTruth(table, c.srcCloud, c.srcRegion, c.dstCloud, c.dstRegion)
    ensures filter && routesFile !in byFilename ==>
      r == RouteCheckByGroundTruth(table, fromOptions.srcCloud, fromOptions.srcRegion, fromOptions.dstCloud, fromOptions.dstRegion)
  {
    if filter then
      var c := if routesFile in byFilename then byFilename[routesFile] else fromOptions;
      RouteCheckByGroundTruth(table, c.srcCloud, c.srcRegion, c.dstCloud, c.dstRegion)
    else Success(AcceptAll)
  }

  /**
   * With detection, each routes file is checked against the ground-truth
   * coordinates of the regions its own name gives.
   */
  lemma DetectedFileUsesItsRegions(table: map<string, Coordinate>, byFilename: map<string, CloudRegions>,
                                   routesFile: string, fromOptions: CloudRegions)
    requires routesFile in byFilename && Some(byFilename[routesFile]) == DetectCloudRegions(routesFile)
    requires var c := byFilename[routesFile];
      RegionKey(c.srcCloud, c.srcRegion) in table && RegionKey(c.dstCloud, c.dstRegion) in table
    ensures var c := DetectCloudRegions(routesFile).value;
      SelectRouteCheck(true, table, byFilename, routesFile, fromOptions)
        == Success(SameIsoEndpoints(table[RegionKey(c.srcCloud, c.srcRegion)], table[RegionKey(c.dstCloud, c.dstRegion)]))
  {
  }
}
