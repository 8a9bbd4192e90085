/**
 * The cloud IP-range loaders of analysis/common.py (lines 38-70). Each reads
 * the `prefixes` list of its provider's JSON file and keeps one
 * (prefix, cloud, region) triple per item that passes the optional region
 * filter. Loading the JSON file is not modelled: the items are given, each a
 * map from key to text. A missing key raises `KeyError` in the source; here it
 * is a `MissingKey` error naming the item and the key.
 */
module CloudIpRanges {
  import opened Wrappers

  type Item = map<string, string>

  datatype IpRange = IpRange(prefix: string, cloud: string, region: string)

  datatype Cloud = Aws | Gcloud

  datatype IpRangesError =
    | MissingKey(index: nat, key: string)
    | UnsupportedCloud(cloud: string)

  /** `if region and ...`: the filter is on for a given, non-empty region. */
  predicate Filtering(region: Option<string>) {
    region.Some? && region.value != ""
  }

  /** What the loop body does with one item. */
  datatype Outcome = Skip | Keep(range: IpRange) | Raise(key: string)

  /**
   * One item, reading its keys in the order the source does: "region" for the
   * filter, then "ip_prefix" and "region" (aws), or "ipv4Prefix" and "scope"
   * (gcloud, whose items without an IPv4 prefix are skipped).
   */
  function ItemOutcome(cloud: Cloud, item: Item, region: Option<string>): Outcome {
    if Filtering(region) && "region" !in item then Raise("region")
    else if Filtering(region) && item["region"] != region.value then Skip
    else
      match cloud
      case Aws =>
        if "ip_prefix" !in item then Raise("ip_prefix")
        else if "region" !in item then Raise("region")
        else Keep(IpRange(item["ip_prefix"], "aws", item["region"]))
      case Gcloud =>
        if "ipv4Prefix" !in item then Skip
        else if "scope" !in item then Raise("scope")
        else Keep(IpRange(item["ipv4Prefix"], "gcloud", item["scope"]))
  }

  /** The loop over all items: the kept ranges in order, or the first missing key. */
  function Ranges(cloud: Cloud, items: seq<Item>, region: Option<string>): Result<seq<IpRange>, IpRangesError>
    decreases |items|
  {
    if |items| == 0 then Success([])
    else
      var n := |items| - 1;
      match Ranges(cloud, items[..n], region)
      case Failure(e) => Failure(e)
      case Success(out) =>
        match ItemOutcome(cloud, items[n], region)
        case Skip => Success(out)
        case Keep(range) => Success(out + [range])
        case Raise(key) => Failure(MissingKey(n, key))
  }

  /** `load_aws_ip_ranges` on the items of the aws file. */
  method LoadAwsIpRanges(items: seq<Item>, region: Option<string>) returns (r: Result<seq<IpRange>, IpRangesError>)
    ensures r == Ranges(Aws, items, region)
  {
    var ipRanges: seq<IpRange> := [];
    for i := 0 to |items|
      invariant Ranges(Aws, items[..i], region) == Success(ipRanges)
    {
      var item := items[i];
      assert items[..i + 1][..i] == items[..i];
      if Filtering(region) {
        if "region" !in item {
          RaiseStops(Aws, items, region, i);
          return Failure(MissingKey(i, "region"));
        }
        if item["region"] != region.value {
          continue;
        }
      }
      if "ip_prefix" !in item {
        RaiseStops(Aws, items, region, i);
        return Failure(MissingKey(i, "ip_prefix"));
      }
      var ipPrefix := item["ip_prefix"];
      if "region" !in item {
        RaiseStops(Aws, items, region, i);
        return Failure(MissingKey(i, "region"));
      }
      ipRanges := ipRanges + [IpRange(ipPrefix, "aws", item["region"])];
    }
    assert items[..|items|] == items;
    return Success(ipRanges);
  }

  /** `load_gcloud_ip_ranges` on the items of the gcloud file. */
  method LoadGcloudIpRanges(items: seq<Item>, region: Option<string>) returns (r: Result<seq<IpRange>, IpRangesError>)
    ensures r == Ranges(Gcloud, items, region)
  {
    var ipRanges: seq<IpRange> := [];
    for i := 0 to |items|
      invariant Ranges(Gcloud, items[..i], region) == Success(ipRanges)
    {
      var item := items[i];
      assert items[..i + 1][..i] == items[..i];
      if Filtering(region) {
        if "region" !in item {
          RaiseStops(Gcloud, items, region, i);
          return Failure(MissingKey(i, "region"));
        }
        if item["region"] != region.value {
          continue;
        }
      }
      if "ipv4Prefix" !in item {
        continue;
      }
      var ipPrefix := item["ipv4Prefix"];
      if "scope" !in item {
        RaiseStops(Gcloud, items, region, i);
        return Failure(MissingKey(i, "scope"));
      }
      ipRanges := ipRanges + [IpRange(ipPrefix, "gcloud", item["scope"])];
    }
    assert items[..|items|] == items;
    return Success(ipRanges);
  }

  /** `load_cloud_ip_ranges`: the aws loader for "aws", the gcloud loader for "gcloud", an error otherwise. */
  method LoadCloudIpRanges(cloud: string, awsItems: seq<Item>, gcloudItems: seq<Item>, region: Option<string>)
    returns (r: Result<seq<IpRange>, IpRangesError>)
    ensures cloud == "aws" ==> r == Ranges(Aws, awsItems, region)
    ensures cloud == "gcloud" ==> r == Ranges(Gcloud, gcloudItems, region)
    ensures cloud != "aws" && cloud != "gcloud" ==> r == Failure(UnsupportedCloud(cloud))
  {
    if cloud == "aws" {
      r := LoadAwsIpRanges(awsItems, region);
      return;
    }
    if cloud == "gcloud" {
      r := LoadGcloudIpRanges(gcloudItems, region);
      return;
    }
    return Failure(UnsupportedCloud(cloud));
  }

  /** An item that raises ends the loop with its error, once the items before it went through. */
  lemma RaiseStops(cloud: Cloud, items: seq<Item>, region: Option<string>, i: nat)
    requires i < |items| && Ranges(cloud, items[..i], region).Success?
    requires ItemOutcome(cloud, items[i], region).Raise?
    ensures Ranges(cloud, items, region) == Failure(MissingKey(i, ItemOutcome(cloud, items[i], region).key))
  {
    assert items[..i + 1][..i] == items[..i];
    FailureSticks(cloud, items, region, i + 1);
  }

  /** Once the loop has failed, the later items change nothing. */
  lemma {:induction false} FailureSticks(cloud: Cloud, items: seq<Item>, region: Option<string>, i: nat)
    requires i <= |items| && Ranges(cloud, items[..i], region).Failure?
    ensures Ranges(cloud, items, region) == Ranges(cloud, items[..i], region)
    decreases |items| - i
  {
    if i < |items| {
      assert items[..i + 1][..i] == items[..i];
      FailureSticks(cloud, items, region, i + 1);
    } else {
      assert items[..i] == items;
    }
  }

  /**
   * The loop fails exactly when some item raises, and then with the first such
   * item and the key it misses.
   */
  lemma {:induction false} RangesFailOnFirstMissingKey(cloud: Cloud, items: seq<Item>, region: Option<string>)
    ensures var r := Ranges(cloud, items, region);
      (r.Success? <==> forall k :: 0 <= k < |items| ==> !ItemOutcome(cloud, items[k], region).Raise?)
      && (r.Failure? ==>
            r.error.MissingKey? && r.error.index < |items|
            && ItemOutcome(cloud, items[r.error.index], region) == Raise(r.error.key)
            && forall k :: 0 <= k < r.error.index ==> !ItemOutcome(cloud, items[k], region).Raise?)
    decreases |items|
  {
    if |items| > 0 {
      var n := |items| - 1;
      RangesFailOnFirstMissingKey(cloud, items[..n], region);
      assert forall k :: 0 <= k < n ==> items[..n][k] == items[k];
    }
  }

  /** The positions of the kept items, in increasing order. */
  function KeptIndices(cloud: Cloud, items: seq<Item>, region: Option<string>): (ks: seq<nat>)
    ensures forall j :: 0 <= j < |ks| ==> ks[j] < |items|
    ensures forall j, l :: 0 <= j < l < |ks| ==> ks[j] < ks[l]
    decreases |items|
  {
    if |items| == 0 then []
    else
      var n: nat := |items| - 1;
      var last: seq<nat> := if ItemOutcome(cloud, items[n], region).Keep? then [n] else [];
      KeptIndices(cloud, items[..n], region) + last
  }

  /** An item's position is kept exactly when the item is. */
  lemma {:induction false} KeptIndicesExactlyKept(cloud: Cloud, items: seq<Item>, region: Option<string>, k: nat)
    requires k < |items|
    ensures k in KeptIndices(cloud, items, region) <==> ItemOutcome(cloud, items[k], region).Keep?
    decreases |items|
  {
    var n := |items| - 1;
    if k < n {
      KeptIndicesExactlyKept(cloud, items[..n], region, k);
      assert items[..n][k] == items[k];
    }
  }

  /** A successful load keeps the kept items' ranges, in the items' order. */
  lemma {:induction false} RangesInInputOrder(cloud: Cloud, items: seq<Item>, region: Option<string>)
    requires Ranges(cloud, items, region).Success?
    ensures var out := Ranges(cloud, items, region).value;
      var ks := KeptIndices(cloud, items, region);
      |out| == |ks| && forall j :: 0 <= j < |ks| ==> ItemOutcome(cloud, items[ks[j]], region) == Keep(out[j])
    decreases |items|
  {
    if |items| > 0 {
      var n := |items| - 1;
      var front := items[..n];
      RangesInInputOrder(cloud, front, region);
      var out0, ks0 := Ranges(cloud, front, region).value, KeptIndices(cloud, front, region);
      var out, ks := Ranges(cloud, items, region).value, KeptIndices(cloud, items, region);
      var outcome := ItemOutcome(cloud, items[n], region);
      assert out == out0 + (if outcome.Keep? then [outcome.range] else []);
      assert ks == ks0 + (if outcome.Keep? then [n] else []);
      forall j | 0 <= j < |ks| ensures ItemOutcome(cloud, items[ks[j]], region) == Keep(out[j]) {
        if j < |ks0| {
          assert out[j] == out0[j] && ks[j] == ks0[j];
          assert front[ks0[j]] == items[ks0[j]];
        }
      }
    }
  }

  /** Under a filter, every kept item is from the requested region. */
  lemma FilterKeepsOnlyRegion(cloud: Cloud, item: Item, region: Option<string>)
    requires Filtering(region)
    requires ItemOutcome(cloud, item, region).Keep?
    ensures "region" in item && item["region"] == region.value
  {
  }

  /** Without a filter an aws item is kept, with its own prefix and region, whenever it has both keys. */
  lemma UnfilteredAwsItemKept(item: Item, region: Option<string>)
    requires !Filtering(region)
    requires "ip_prefix" in item && "region" in item
    ensures ItemOutcome(Aws, item, region) == Keep(IpRange(item["ip_prefix"], "aws", item["region"]))
  {
  }

  /** A gcloud item without an IPv4 prefix is never kept; its region comes from "scope". */
  lemma GcloudKeptItem(item: Item, region: Option<string>)
    ensures "ipv4Prefix" !in item ==> !ItemOutcome(Gcloud, item, region).Keep?
    ensures ItemOutcome(Gcloud, item, region).Keep? ==>
      ItemOutcome(Gcloud, item, region).range == IpRange(item["ipv4Prefix"], "gcloud", item["scope"])
  {
  }

  /** Every range a filtered aws load returns is an aws range of the requested region. */
  lemma {:induction false} FilteredAwsRangesInRegion(items: seq<Item>, region: Option<string>)
    requires Filtering(region)
    requires Ranges(Aws, items, region).Success?
    ensures forall range :: range in Ranges(Aws, items, region).value ==> range.cloud == "aws" && range.region == region.value
  {
    RangesInInputOrder(Aws, items, region);
    var out := Ranges(Aws, items, region).value;
    var ks := KeptIndices(Aws, items, region);
    forall range | range in out ensures range.cloud == "aws" && range.region == region.value {
      var j :| 0 <= j < |out| && out[j] == range;
      assert ItemOutcome(Aws, items[ks[j]], region) == Keep(range);
    }
  }
}
