/**
 * `detect_cloud_regions_from_filename` (analysis/common.py, lines 136-153).
 *
 * The two patterns are `.*\.(aws|gcloud|gcp)\.([\w-]+)\.(aws|gcloud|gcp)\.([\w-]+)\.by_.*`
 * and `.*\.(aws|gcloud|gcp)\.([\w-]+)\.([\w-]+)\.by_.*`, tried with `re.match`.
 * No group can hold a '.', so a match is a position in the '.'-separated token
 * list; Sound and Complete below show that this reading is exact. The leading
 * `.*` does not cross a newline and is greedy, so the match reported is the one
 * at the rightmost token position whose prefix has no newline. `\w` is taken
 * as the ASCII letters, digits and '_'.
 */
module RegionFilename {
  import opened Wrappers
  import opened PyStr

  datatype CloudRegions = CloudRegions(srcCloud: string, srcRegion: string, dstCloud: string, dstRegion: string)

  /** The 4-group pattern (source and destination cloud) and the 3-group one (one cloud). */
  datatype Pattern = FourGroups | ThreeGroups {
    /** Number of tokens the groups take. */
    function Groups(): nat {
      match this
      case FourGroups => 4
      case ThreeGroups => 3
    }
  }

  /** `(aws|gcloud|gcp)` */
  predicate IsCloud(t: string) {
    t == "aws" || t == "gcloud" || t == "gcp"
  }

  predicate IsRegionChar(c: char) {
    ('a' <= c <= 'z') || ('A' <= c <= 'Z') || ('0' <= c <= '9') || c == '_' || c == '-'
  }

  /** `[\w-]+` */
  predicate IsRegion(t: string) {
    t != [] && forall k :: 0 <= k < |t| ==> IsRegionChar(t[k])
  }

  function Tokens(filename: string): seq<string> {
    Split(filename, '.')
  }

  predicate NoNewlineBefore(toks: seq<string>, i: nat)
    requires i <= |toks|
  {
    forall k :: 0 <= k < i ==> '\n' !in toks[k]
  }

  /** The pattern matches with its first cloud group at token `i`, followed by a token starting "by_". */
  predicate Matches(toks: seq<string>, i: nat, p: Pattern) {
    1 <= i && i + p.Groups() < |toks| && NoNewlineBefore(toks, i)
    && IsCloud(toks[i]) && IsRegion(toks[i + 1])
    && (match p
        case FourGroups => IsCloud(toks[i + 2]) && IsRegion(toks[i + 3])
        case ThreeGroups => IsRegion(toks[i + 2]))
    && HasPrefix(toks[i + p.Groups()], "by_")
  }

  /** The groups a match at token `i` reports; one cloud stands for both ends in the 3-group form. */
  function GroupsAt(toks: seq<string>, i: nat, p: Pattern): CloudRegions
    requires Matches(toks, i, p)
  {
    match p
    case FourGroups => CloudRegions(toks[i], toks[i + 1], toks[i + 2], toks[i + 3])
    case ThreeGroups => CloudRegions(toks[i], toks[i + 1], toks[i], toks[i + 2])
  }

  /** The rightmost position below `n` where the pattern matches, as backtracking from a greedy `.*` finds it. */
  function RightmostMatch(toks: seq<string>, p: Pattern, n: nat): (r: Option<nat>)
    ensures r.Some? ==> r.value < n && Matches(toks, r.value, p)
    ensures r.Some? ==> forall j :: r.value < j < n ==> !Matches(toks, j, p)
    ensures r.None? ==> forall j :: 0 <= j < n ==> !Matches(toks, j, p)
    decreases n
  {
    if n == 0 then None
    else if Matches(toks, n - 1, p) then Some(n - 1)
    else RightmostMatch(toks, p, n - 1)
  }

  /**
   * None exactly when neither pattern matches anywhere; otherwise what is
   * returned is a genuine match of one pattern over the raw filename, with
   * the destination cloud copied from the source cloud in the 3-group form.
   */
  function DetectCloudRegions(filename: string): (r: Option<CloudRegions>)
    ensures r.None? <==> forall i :: 0 <= i < |Tokens(filename)| ==>
      !Matches(Tokens(filename), i, FourGroups) && !Matches(Tokens(filename), i, ThreeGroups)
    ensures r.Some? ==>
      (RegexMatch(filename, r.value, FourGroups)
       || (r.value.dstCloud == r.value.srcCloud && RegexMatch(filename, r.value, ThreeGroups)))
  {
    var toks := Tokens(filename);
    match RightmostMatch(toks, FourGroups, |toks|)
    case Some(i) =>
      Sound(filename, i, FourGroups);
      Some(GroupsAt(toks, i, FourGroups))
    case None =>
      match RightmostMatch(toks, ThreeGroups, |toks|)
      case Some(i) =>
        Sound(filename, i, ThreeGroups);
        Some(GroupsAt(toks, i, ThreeGroups))
      case None => None
  }

  /** The group texts in the order the pattern writes them. */
  function GroupTokens(g: CloudRegions, p: Pattern): seq<string> {
    match p
    case FourGroups => [g.srcCloud, g.srcRegion, g.dstCloud, g.dstRegion]
    case ThreeGroups => [g.srcCloud, g.srcRegion, g.dstRegion]
  }

  /** The parts the pattern reads the raw filename as: `prefix`, the groups, then `by_` and the rest. */
  function PatternParts(prefix: string, g: CloudRegions, p: Pattern, rest: string): seq<string> {
    [prefix] + GroupTokens(g, p) + ["by_" + rest]
  }

  /** The filename reads as `prefix.<groups>.by_rest` exactly as the pattern describes. */
  predicate IsDecomposition(filename: string, prefix: string, g: CloudRegions, p: Pattern, rest: string) {
    '\n' !in prefix && IsCloud(g.srcCloud) && IsRegion(g.srcRegion) && IsRegion(g.dstRegion)
    && (p.FourGroups? ==> IsCloud(g.dstCloud))
    && filename == Join(PatternParts(prefix, g, p, rest), '.')
  }

  ghost predicate RegexMatch(filename: string, g: CloudRegions, p: Pattern) {
    exists prefix, rest :: IsDecomposition(filename, prefix, g, p, rest)
  }

  /** A token-level match is a match of the pattern over the raw filename. */
  lemma {:induction false} Sound(filename: string, i: nat, p: Pattern)
    requires Matches(Tokens(filename), i, p)
    ensures var t := Tokens(filename);
      IsDecomposition(filename, Join(t[..i], '.'), GroupsAt(t, i, p), p, Join(t[i + p.Groups()..], '.')[3..])
  {
    var t := Tokens(filename);
    PrefixHasNoNewline(t, i);
    GroupsAtMatch(t, i, p);
    SoundParts(filename, i, p);
  }

  /** The text before a match has no newline, as `.*` requires. */
  lemma PrefixHasNoNewline(t: seq<string>, i: nat)
    requires i <= |t| && NoNewlineBefore(t, i)
    ensures '\n' !in Join(t[..i], '.')
  {
    assert forall k :: 0 <= k < i ==> '\n' !in t[..i][k];
    JoinNoChar(t[..i], '.', '\n');
  }

  /** The filename is the prefix, the groups and the "by_" token joined by '.'. */
  lemma SoundParts(filename: string, i: nat, p: Pattern)
    requires Matches(Tokens(filename), i, p)
    ensures var t := Tokens(filename);
      filename == Join(PatternParts(Join(t[..i], '.'), GroupsAt(t, i, p), p, Join(t[i + p.Groups()..], '.')[3..]), '.')
  {
    var t := Tokens(filename);
    var n := p.Groups();
    JoinSplit(filename, '.');
    JoinAround(t, i, n, '.');
    GroupsAtMatch(t, i, p);
    ByTail(t, i + n);
  }

  /** A join whose first token starts with "by_" is "by_" and the rest after it. */
  lemma ByTail(t: seq<string>, j: nat)
    requires j < |t| && HasPrefix(t[j], "by_")
    ensures "by_" + Join(t[j..], '.')[3..] == Join(t[j..], '.')
  {
    var tail := Join(t[j..], '.');
    JoinHead(t[j..], '.');
    assert t[j..][0] == t[j];
    assert tail[..3] == "by_";
    assert tail == tail[..3] + tail[3..];
  }

  /** The groups reported are the matched tokens, and each is of its group's kind. */
  lemma {:induction false} GroupsAtMatch(t: seq<string>, i: nat, p: Pattern)
    requires Matches(t, i, p)
    ensures var g := GroupsAt(t, i, p);
      t[i..i + p.Groups()] == GroupTokens(g, p)
      && IsCloud(g.srcCloud) && IsRegion(g.srcRegion) && IsRegion(g.dstRegion)
      && (p.FourGroups? ==> IsCloud(g.dstCloud))
  {
  }

  /** Joining the tokens before `i` and those from `i + n` first. */
  lemma {:induction false} JoinAround(t: seq<string>, i: nat, n: nat, sep: char)
    requires 1 <= i && i + n < |t|
    ensures Join(t, sep) == Join([Join(t[..i], sep)] + t[i..i + n] + [Join(t[i + n..], sep)], sep)
  {
    var prefix := Join(t[..i], sep);
    var groups := t[i..i + n];
    assert t == t[..i] + (groups + t[i + n..]);
    JoinCollapseHead(t[..i], groups + t[i + n..], sep);
    assert [prefix] + (groups + t[i + n..]) == ([prefix] + groups) + t[i + n..];
    JoinCollapseTail([prefix] + groups, t[i + n..], sep);
  }

  /** Any way the pattern can read the raw filename is a token-level match. */
  lemma {:induction false} Complete(filename: string, prefix: string, g: CloudRegions, p: Pattern, rest: string)
    requires IsDecomposition(filename, prefix, g, p, rest)
    ensures Matches(Tokens(filename), |Split(prefix, '.')|, p)
  {
    var groups := GroupTokens(g, p);
    RegionNoChar(g.srcRegion, '.');
    RegionNoChar(g.dstRegion, '.');
    assert forall k :: 0 <= k < |groups| ==> '.' !in groups[k];
    TokensOfParts(prefix, groups, "by_" + rest, '.');
    var pieces := Split(prefix, '.');
    SplitHead("by_", rest, '.');
    SplitNoChar(prefix, '.', '\n');
    MatchesBetween(pieces, g, p, Split("by_" + rest, '.'));
  }

  /** Tokens made of newline-free pieces, the groups, then a token starting "by_", match at the groups. */
  lemma {:induction false} MatchesBetween(pieces: seq<string>, g: CloudRegions, p: Pattern, last: seq<string>)
    requires |pieces| >= 1 && forall k :: 0 <= k < |pieces| ==> '\n' !in pieces[k]
    requires IsCloud(g.srcCloud) && IsRegion(g.srcRegion) && IsRegion(g.dstRegion)
    requires p.FourGroups? ==> IsCloud(g.dstCloud)
    requires |last| >= 1 && HasPrefix(last[0], "by_")
    ensures Matches(pieces + GroupTokens(g, p) + last, |pieces|, p)
  {
    var groups := GroupTokens(g, p);
    var t := pieces + groups + last;
    var i := |pieces|;
    assert forall k :: 0 <= k < i ==> t[k] == pieces[k];
    assert forall k :: 0 <= k < |groups| ==> t[i + k] == groups[k];
    assert t[i + |groups|] == last[0];
  }

  /** Separator-free middle parts stay whole tokens between the pieces of the outer two. */
  lemma {:induction false} TokensOfParts(prefix: string, groups: seq<string>, last: string, sep: char)
    requires forall k :: 0 <= k < |groups| ==> sep !in groups[k]
    ensures Split(Join([prefix] + groups + [last], sep), sep) == Split(prefix, sep) + groups + Split(last, sep)
  {
    var parts := [prefix] + groups + [last];
    SplitJoinAll(parts, sep);
    forall k | 0 <= k < |groups| ensures Split(groups[k], sep) == [groups[k]] {
      SplitWithout(groups[k], sep);
    }
    SplitAllSingles(groups, sep);
    SplitAllAppend([prefix], groups, sep);
    SplitAllAppend([prefix] + groups, [last], sep);
    assert SplitAll([prefix], sep) == Split(prefix, sep) + SplitAll([], sep);
    assert SplitAll([last], sep) == Split(last, sep) + SplitAll([], sep);
  }

  /** The pieces of each part, one after the other. */
  function SplitAll(parts: seq<string>, sep: char): seq<string> {
    if |parts| == 0 then [] else Split(parts[0], sep) + SplitAll(parts[1..], sep)
  }

  lemma {:induction false} SplitJoinAll(parts: seq<string>, sep: char)
    requires |parts| >= 1
    ensures Split(Join(parts, sep), sep) == SplitAll(parts, sep)
  {
    if |parts| == 1 {
      assert SplitAll(parts, sep) == Split(parts[0], sep) + SplitAll([], sep);
    } else {
      SplitConcat(parts[0], Join(parts[1..], sep), sep);
      SplitJoinAll(parts[1..], sep);
    }
  }

  lemma {:induction false} SplitAllAppend(a: seq<string>, b: seq<string>, sep: char)
    ensures SplitAll(a + b, sep) == SplitAll(a, sep) + SplitAll(b, sep)
  {
    if |a| > 0 {
      assert (a + b)[1..] == a[1..] + b;
      SplitAllAppend(a[1..], b, sep);
    } else {
      assert a + b == b;
    }
  }

  lemma {:induction false} SplitAllSingles(parts: seq<string>, sep: char)
    requires forall k :: 0 <= k < |parts| ==> Split(parts[k], sep) == [parts[k]]
    ensures SplitAll(parts, sep) == parts
  {
    if |parts| > 0 {
      SplitAllSingles(parts[1..], sep);
    }
  }

  /** Joining `a` first and then the rest. */
  lemma {:induction false} JoinCollapseHead(a: seq<string>, b: seq<string>, sep: char)
    requires |a| >= 1 && |b| >= 1
    ensures Join(a + b, sep) == Join([Join(a, sep)] + b, sep)
  {
    JoinAppend(a, b, sep);
    assert ([Join(a, sep)] + b)[1..] == b;
  }

  /** Joining the tail `b` first. */
  lemma {:induction false} JoinCollapseTail(a: seq<string>, b: seq<string>, sep: char)
    requires |b| >= 1
    ensures Join(a + b, sep) == Join(a + [Join(b, sep)], sep)
  {
    if |a| == 0 {
      assert a + b == b;
      assert a + [Join(b, sep)] == [Join(b, sep)];
    } else {
      assert (a + b)[1..] == a[1..] + b;
      assert (a + [Join(b, sep)])[1..] == a[1..] + [Join(b, sep)];
      JoinCollapseTail(a[1..], b, sep);
    }
  }

  lemma {:induction false} JoinHead(t: seq<string>, sep: char)
    requires |t| >= 1
    ensures HasPrefix(Join(t, sep), t[0])
  {
    var j := Join(t, sep);
    if |t| > 1 {
      assert j == t[0] + [sep] + Join(t[1..], sep);
      assert j[..|t[0]|] == t[0];
    }
  }

  /** A character other than the separator is in a join only if it is in a part. */
  lemma {:induction false} JoinNoChar(parts: seq<string>, sep: char, c: char)
    requires c != sep
    requires forall k :: 0 <= k < |parts| ==> c !in parts[k]
    ensures c !in Join(parts, sep)
  {
    if |parts| > 1 {
      JoinNoChar(parts[1..], sep, c);
    }
  }

  /** Splitting around one separator splits both sides. */
  lemma {:induction false} SplitConcat(a: string, b: string, sep: char)
    ensures Split(a + [sep] + b, sep) == Split(a, sep) + Split(b, sep)
    decreases |a|
  {
    var i := IndexOf(a, sep);
    if i == |a| {
      assert a[..i] == a;
      SplitFirstPiece(a, b, sep);
    } else {
      var after := a[i + 1..];
      SplitFirstCut(a, b, sep, i);
      SplitConcat(after, b, sep);
      ConsAppend(Split(a + [sep] + b, sep), Split(a, sep), a[..i], Split(after + [sep] + b, sep), Split(after, sep), Split(b, sep));
    }
  }

  lemma ConsAppend<T>(whole: seq<T>, left: seq<T>, x: T, rest: seq<T>, p: seq<T>, q: seq<T>)
    requires whole == [x] + rest && rest == p + q && left == [x] + p
    ensures whole == left + q
  {
    assert [x] + (p + q) == ([x] + p) + q;
  }

  /** With no separator in `a`, `a` is the first piece. */
  lemma SplitFirstPiece(a: string, b: string, sep: char)
    requires sep !in a
    ensures Split(a + [sep] + b, sep) == [a] + Split(b, sep)
  {
    var s := a + [sep] + b;
    IndexOfAfter(a, sep, b);
    assert s[..|a|] == a && s[|a| + 1..] == b;
  }

  /** With a separator at `i` in `a`, both splits cut there first. */
  lemma SplitFirstCut(a: string, b: string, sep: char, i: nat)
    requires i == IndexOf(a, sep) && i < |a|
    ensures Split(a + [sep] + b, sep) == [a[..i]] + Split(a[i + 1..] + [sep] + b, sep)
    ensures Split(a, sep) == [a[..i]] + Split(a[i + 1..], sep)
  {
    var s := a + [sep] + b;
    assert s == a + ([sep] + b);
    IndexOfPrefix(a, [sep] + b, sep);
    assert s[..i] == a[..i];
    assert s[i + 1..] == a[i + 1..] + [sep] + b;
  }

  lemma {:induction false} IndexOfPrefix(a: string, b: string, c: char)
    requires c in a
    ensures IndexOf(a + b, c) == IndexOf(a, c)
  {
    if a[0] != c {
      assert (a + b)[1..] == a[1..] + b;
      IndexOfPrefix(a[1..], b, c);
    }
  }

  lemma {:induction false} SplitWithout(s: string, sep: char)
    requires sep !in s
    ensures Split(s, sep) == [s]
  {
    assert s[..|s|] == s;
  }

  /** The pieces of a split hold only characters of the string. */
  lemma {:induction false} SplitNoChar(s: string, sep: char, c: char)
    requires c !in s
    ensures forall k :: 0 <= k < |Split(s, sep)| ==> c !in Split(s, sep)[k]
    decreases |s|
  {
    var i := IndexOf(s, sep);
    if i < |s| {
      assert c !in s[..i];
      SplitNoChar(s[i + 1..], sep, c);
    } else {
      assert s[..i] == s;
    }
  }

  /** The first piece of a split of `p + rest` starts with `p` when `p` has no separator. */
  lemma {:induction false} SplitHead(p: string, rest: string, sep: char)
    requires sep !in p
    ensures HasPrefix(Split(p + rest, sep)[0], p)
  {
    var s := p + rest;
    var i := IndexOf(s, sep);
    assert s[..|p|] == p;
    assert i >= |p|;
    if i == |s| {
      assert s[..i] == s;
    }
    assert s[..i][..|p|] == p;
  }

  lemma RegionNoChar(t: string, c: char)
    requires IsRegion(t)
    requires !IsRegionChar(c)
    ensures c !in t
  {
  }

  /** When the 4-group pattern matches anywhere, its rightmost match is returned. */
  lemma {:induction false} DetectPrefersFourGroups(filename: string, i: nat)
    requires Matches(Tokens(filename), i, FourGroups)
    requires forall j :: i < j < |Tokens(filename)| ==> !Matches(Tokens(filename), j, FourGroups)
    ensures var t := Tokens(filename);
      DetectCloudRegions(filename) == Some(CloudRegions(t[i], t[i + 1], t[i + 2], t[i + 3]))
  {
    var t := Tokens(filename);
    var r := RightmostMatch(t, FourGroups, |t|);
    assert r.Some? && r.value == i;
  }

  /** Otherwise the rightmost 3-group match is returned, with the destination cloud equal to the source cloud. */
  lemma {:induction false} DetectFallsBackToThreeGroups(filename: string, i: nat)
    requires forall j :: 0 <= j < |Tokens(filename)| ==> !Matches(Tokens(filename), j, FourGroups)
    requires Matches(Tokens(filename), i, ThreeGroups)
    requires forall j :: i < j < |Tokens(filename)| ==> !Matches(Tokens(filename), j, ThreeGroups)
    ensures var t := Tokens(filename);
      DetectCloudRegions(filename) == Some(CloudRegions(t[i], t[i + 1], t[i], t[i + 2]))
  {
    var t := Tokens(filename);
    var r4 := RightmostMatch(t, FourGroups, |t|);
    assert r4.Some? ==> Matches(t, r4.value, FourGroups);
    var r := RightmostMatch(t, ThreeGroups, |t|);
    assert r.Some? && r.value == i;
  }

  /** Region-like parts joined with '.' split back into those parts. */
  lemma {:induction false} TokensOfRegionParts(parts: seq<string>)
    requires |parts| >= 1
    requires forall k :: 0 <= k < |parts| ==> IsRegion(parts[k])
    ensures Tokens(Join(parts, '.')) == parts
  {
    forall k | 0 <= k < |parts| ensures '.' !in parts[k] {
      RegionNoChar(parts[k], '.');
    }
    SplitJoin(parts, '.');
  }

  // The examples are stated for any filename with the given '.'-separated
  // tokens; by TokensOfRegionParts, joining those tokens with '.' gives one.

  /** The source's own 4-group example, routes.aws.af-south-1.aws.ap-northeast-1.by_geo. */
  lemma ExampleFourGroups(filename: string)
    requires Tokens(filename) == ["routes", "aws", "af-south-1", "aws", "ap-northeast-1", "by_geo"]
    ensures DetectCloudRegions(filename) == Some(CloudRegions("aws", "af-south-1", "aws", "ap-northeast-1"))
  {
    ExampleMatchFour(Tokens(filename));
  }

  /** The source's own 3-group example, routes.aws.af-south-1.ap-northeast-1.by_geo: the destination cloud is the source cloud. */
  lemma ExampleThreeGroups(filename: string)
    requires Tokens(filename) == ["routes", "aws", "af-south-1", "ap-northeast-1", "by_geo"]
    ensures DetectCloudRegions(filename) == Some(CloudRegions("aws", "af-south-1", "aws", "ap-northeast-1"))
  {
    var t := Tokens(filename);
    assert RightmostMatch(t, FourGroups, |t|) == None;
    ExampleMatchThree(t);
  }

  /** The tokens of the examples below, one by one. */
  lemma ExampleTokens()
    ensures '\n' !in "routes"
    ensures IsRegion("af-south-1") && IsRegion("ap-northeast-1") && IsRegion("us-east-1") && IsRegion("gcp")
    ensures HasPrefix("by_geo", "by_") && HasPrefix("by_ip", "by_")
  {
  }

  lemma ExampleMatchFour(t: seq<string>)
    requires t == ["routes", "aws", "af-south-1", "aws", "ap-northeast-1", "by_geo"]
    ensures RightmostMatch(t, FourGroups, |t|) == Some(1)
  {
    ExampleTokens();
    assert t[0] == "routes" && t[1] == "aws" && t[2] == "af-south-1";
    assert t[3] == "aws" && t[4] == "ap-northeast-1" && t[5] == "by_geo";
    assert Matches(t, 1, FourGroups);
  }

  lemma ExampleMatchThree(t: seq<string>)
    requires t == ["routes", "aws", "af-south-1", "ap-northeast-1", "by_geo"]
    ensures RightmostMatch(t, ThreeGroups, |t|) == Some(1)
  {
    ExampleTokens();
    assert t[0] == "routes" && t[1] == "aws" && t[2] == "af-south-1";
    assert t[3] == "ap-northeast-1" && t[4] == "by_geo";
    assert Matches(t, 1, ThreeGroups);
  }

  /** The leading `.*\.` needs a token before the first cloud, so a name starting with a cloud matches nothing. */
  lemma ExampleCloudFirst(filename: string)
    requires Tokens(filename) == ["aws", "af-south-1", "aws", "ap-northeast-1", "by_geo"]
    ensures DetectCloudRegions(filename) == None
  {
  }

  /** A region token may itself be a cloud name: with one token too few for four groups, the 3-group form reads it as a region. */
  lemma ExampleCloudAsRegion(filename: string)
    requires Tokens(filename) == ["routes", "aws", "us-east-1", "gcp", "by_ip"]
    ensures DetectCloudRegions(filename) == Some(CloudRegions("aws", "us-east-1", "aws", "gcp"))
  {
    var t := Tokens(filename);
    ExampleTokens();
    assert t[0] == "routes" && t[1] == "aws" && t[2] == "us-east-1";
    assert t[3] == "gcp" && t[4] == "by_ip";
    assert Matches(t, 1, ThreeGroups);
    DetectFallsBackToThreeGroups(filename, 1);
  }

  /** A newline before the clouds stops the leading `.*`. */
  lemma ExampleNewlineInPrefix(filename: string)
    requires Tokens(filename) == ["a\nb", "aws", "af-south-1", "aws", "ap-northeast-1", "by_geo"]
    ensures DetectCloudRegions(filename) == None
  {
    var t := Tokens(filename);
    assert t[0][1] == '\n';
  }
}
