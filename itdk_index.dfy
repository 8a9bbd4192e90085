/**
 * The ITDK topology index (analysis/common.py, lines 72-112): a node file is
 * read line by line into either an IP -> node id map or a node id -> IPs map.
 * The file is its sequence of lines; logging and timing are not modelled.
 */
module ItdkIndex {
  import opened Wrappers
  import opened PyStr

  /** How the loader treats one line of the node file. */
  datatype NodeLine =
    | Comment                               // starts with '#': skipped
    | Unrecognised                          // does not start with "node N": logged and skipped
    | NoColon                               // "node N..." without ':': `arr[1]` raises IndexError
    | Node(id: string, ips: seq<string>)    // "node <id>: <ip> <ip> ..."

  /** The node id is the second word before the first ':'; the IPs are the words after it. */
  function ParseNodeLine(line: string): (k: NodeLine)
    ensures k.Node? ==> HasPrefix(line, "node N") && IsWord(k.id) && k.id[0] == 'N' && ':' !in k.id
    ensures k.Node? ==> forall j :: 0 <= j < |k.ips| ==> IsWord(k.ips[j])
    ensures k.Comment? <==> HasPrefix(line, "#")
    ensures k.Unrecognised? <==> !HasPrefix(line, "#") && !HasPrefix(line, "node N")
    ensures k.NoColon? <==> !HasPrefix(line, "#") && HasPrefix(line, "node N") && ':' !in line
  {
    if HasPrefix(line, "#") then Comment
    else if !HasPrefix(line, "node N") then Unrecognised
    else
      var i := IndexOf(line, ':');
      if i == |line| then
        assert line[..i] == line;
        NoColon
      else
        var head := line[..i];
        HeadWords(line, i);
        Node(Words(head)[1], Words(line[i + 1..]))
  }

  /** Text before the colon of a "node N" line splits into "node" and a word starting with 'N'. */
  lemma HeadWords(line: string, i: nat)
    requires HasPrefix(line, "node N")
    requires i == IndexOf(line, ':') && i < |line|
    ensures |Words(line[..i])| >= 2
    ensures Words(line[..i])[1][0] == 'N'
    ensures ':' !in Words(line[..i])[1]
  {
    var head := line[..i];
    assert line[..6] == "node N";
    assert i >= 6;
    assert head[..6] == "node N";
    assert head[0] == 'n' && head[1] == 'o' && head[2] == 'd' && head[3] == 'e';
    assert head[4] == ' ' && head[5] == 'N';
    assert WordLength(head) == 4 by {
      assert WordLength(head[4..]) == 0;
      assert WordLength(head[3..]) == 1 + WordLength(head[4..]);
      assert WordLength(head[2..]) == 1 + WordLength(head[3..]);
      assert WordLength(head[1..]) == 1 + WordLength(head[2..]);
    }
    var rest := head[4..];
    assert !IsSpace(head[0]) && IsSpace(rest[0]);
    assert Words(head) == [head[..4]] + Words(rest);
    assert Words(rest) == Words(rest[1..]);
    var tail := rest[1..];
    assert tail[0] == 'N';
    var n := WordLength(tail);
    assert Words(tail) == [tail[..n]] + Words(tail[n..]);
    assert Words(head)[1] == tail[..n];
    assert ':' !in tail[..n] by {
      assert ':' !in head;
      assert forall k :: 0 <= k < n ==> tail[..n][k] == head[5 + k];
    }
  }

  /** A "node N" line with a colon at `i` is read around that colon. */
  lemma ParsedAtColon(line: string, i: nat)
    requires HasPrefix(line, "node N")
    requires i == IndexOf(line, ':') && i < |line|
    ensures |Words(line[..i])| >= 2
    ensures ParseNodeLine(line) == Node(Words(line[..i])[1], Words(line[i + 1..]))
  {
    HeadWords(line, i);
    assert line[..6][0] == 'n';
    assert !HasPrefix(line, "#");
  }

  /** The text "node <id>" starts with "node N", has no ':' and splits into "node" and the id. */
  lemma NodeHead(id: string)
    requires IsWord(id) && id[0] == 'N' && ':' !in id
    ensures var head := "node " + id;
      |head| >= 6 && head[..6] == "node N" && ':' !in head && Words(head) == ["node", id]
  {
    var head := "node " + id;
    assert head[..6] == "node N";
    NodeKeyword(id);
    assert head == "node" + [' '] + id;
    WordsOfTwo("node", ' ', id);
  }

  /** The keyword "node" is a word, and "node " holds no ':'. */
  lemma NodeKeyword(id: string)
    requires ':' !in id
    ensures IsWord("node") && ':' !in "node " + id
  {
  }

  /**
   * A "node <id>:<text>" line gives the id, and the IPs are the words of the
   * text after the first ':', however they are spaced.
   */
  lemma NodeLineParts(id: string, ipText: string)
    requires IsWord(id) && id[0] == 'N' && ':' !in id
    ensures ParseNodeLine("node " + id + ":" + ipText) == Node(id, Words(ipText))
  {
    var head := "node " + id;
    var line := head + [':'] + ipText;
    assert "node " + id + ":" + ipText == line;
    NodeHead(id);
    assert line[..6] == head[..6];
    IndexOfAfter(head, ':', ipText);
    var i := |head|;
    assert line[..i] == head && line[i + 1..] == ipText;
    ParsedAtColon(line, i);
  }

  /** The line as the node file writes it: the IPs joined by single spaces, ending in a newline. */
  lemma NodeLineOfIps(id: string, ips: seq<string>)
    requires IsWord(id) && id[0] == 'N' && ':' !in id
    requires forall k :: 0 <= k < |ips| ==> IsWord(ips[k])
    ensures ParseNodeLine("node " + id + ": " + Join(ips, ' ') + "\n") == Node(id, ips)
  {
    var text := Join(ips, ' ');
    var ipText := [' '] + (text + ['\n']);
    NodeLineParts(id, ipText);
    assert ": " == [':'] + [' '] && ":" == [':'] && "\n" == ['\n'];
    Regroup("node " + id, [':'], [' '], text, ['\n']);
    WordsLeadingSpace(' ', text + ['\n']);
    WordsTrailingSpace(text, '\n');
    WordsJoin(ips);
  }

  lemma Regroup<T>(a: seq<T>, b: seq<T>, c: seq<T>, d: seq<T>, e: seq<T>)
    ensures a + (b + c) + d + e == a + b + (c + (d + e))
  {
  }

  /** The IP -> node id map after the given lines: a later line wins for an IP it lists. */
  function ReverseIndex(lines: seq<string>): map<string, string>
    decreases |lines|
  {
    if |lines| == 0 then map[]
    else
      var m := ReverseIndex(lines[..|lines| - 1]);
      match ParseNodeLine(lines[|lines| - 1])
      case Node(id, ips) => m + map ip | ip in ips :: id
      case _ => m
  }

  /** The node id -> IPs map after the given lines: a later line with the same id replaces the IPs. */
  function ForwardIndex(lines: seq<string>): map<string, seq<string>>
    decreases |lines|
  {
    if |lines| == 0 then map[]
    else
      var m := ForwardIndex(lines[..|lines| - 1]);
      match ParseNodeLine(lines[|lines| - 1])
      case Node(id, ips) => m[id := ips]
      case _ => m
  }

  /** The number of node lines among the given lines (`node_count`). */
  function NodeCount(lines: seq<string>): nat
    decreases |lines|
  {
    if |lines| == 0 then 0
    else NodeCount(lines[..|lines| - 1]) + (if ParseNodeLine(lines[|lines| - 1]).Node? then 1 else 0)
  }

  predicate Lists(line: string, ip: string) {
    var k := ParseNodeLine(line);
    k.Node? && ip in k.ips
  }

  predicate Declares(line: string, id: string) {
    var k := ParseNodeLine(line);
    k.Node? && k.id == id
  }

  /** The one direction the loader keeps. */
  datatype NodeIndex = ByIp(ipToId: map<string, string>) | ById(idToIps: map<string, seq<string>>)

  datatype LoadError = MissingColon(line: nat)

  /**
   * `load_itdk_mapping_internal`: reads every line; a line that raises stops the
   * load. Returns the map of the chosen direction and the node count reached.
   */
  method LoadItdkMapping(lines: seq<string>, reverse: bool) returns (r: Result<NodeIndex, LoadError>, nodeCount: nat)
    ensures r.Success? <==> forall k :: 0 <= k < |lines| ==> !ParseNodeLine(lines[k]).NoColon?
    ensures r.Failure? ==> r.error.line < |lines| && ParseNodeLine(lines[r.error.line]).NoColon?
    ensures r.Failure? ==> forall k :: 0 <= k < r.error.line ==> !ParseNodeLine(lines[k]).NoColon?
    ensures r.Success? && reverse ==> r.value == ByIp(ReverseIndex(lines))
    ensures r.Success? && !reverse ==> r.value == ById(ForwardIndex(lines))
    ensures r.Success? ==> nodeCount == NodeCount(lines)
    ensures r.Failure? ==> nodeCount == NodeCount(lines[..r.error.line])
  {
    var idToIps: map<string, seq<string>> := map[];
    var ipToId: map<string, string> := map[];
    nodeCount := 0;
    var i := 0;
    while i < |lines|
      invariant 0 <= i <= |lines|
      invariant forall k :: 0 <= k < i ==> !ParseNodeLine(lines[k]).NoColon?
      invariant reverse ==> ipToId == ReverseIndex(lines[..i])
      invariant !reverse ==> idToIps == ForwardIndex(lines[..i])
      invariant nodeCount == NodeCount(lines[..i])
    {
      var line := lines[i];
      var kind := ParseNodeLine(line);
      if kind.NoColon? {
        return Failure(MissingColon(i)), nodeCount;
      }
      LoadStep(lines, i);
      if kind.Comment? || kind.Unrecognised? {
        i := i + 1;
        continue;
      }
      var id, ips := kind.id, kind.ips;
      if reverse {
        ipToId := AssignAll(ipToId, ips, id);
      } else {
        idToIps := idToIps[id := ips];
      }
      nodeCount := nodeCount + 1;
      i := i + 1;
    }
    assert lines[..i] == lines;
    if reverse {
      r := Success(ByIp(ipToId));
    } else {
      r := Success(ById(idToIps));
    }
  }

  /** One more line: the indices and the count change only for a node line, and no line so far lacks its ':'. */
  lemma LoadStep(lines: seq<string>, i: nat)
    requires i < |lines|
    requires forall k :: 0 <= k < i ==> !ParseNodeLine(lines[k]).NoColon?
    requires !ParseNodeLine(lines[i]).NoColon?
    ensures forall k :: 0 <= k < i + 1 ==> !ParseNodeLine(lines[k]).NoColon?
    ensures var kind := ParseNodeLine(lines[i]);
      ReverseIndex(lines[..i + 1])
        == (if kind.Node? then ReverseIndex(lines[..i]) + map ip | ip in kind.ips :: kind.id else ReverseIndex(lines[..i]))
    ensures var kind := ParseNodeLine(lines[i]);
      ForwardIndex(lines[..i + 1]) == (if kind.Node? then ForwardIndex(lines[..i])[kind.id := kind.ips] else ForwardIndex(lines[..i]))
    ensures NodeCount(lines[..i + 1]) == NodeCount(lines[..i]) + (if ParseNodeLine(lines[i]).Node? then 1 else 0)
  {
    assert lines[..i + 1][..i] == lines[..i];
  }

  /** The inner loop of reverse mode: every IP of the line now maps to its node id. */
  method AssignAll(m: map<string, string>, ips: seq<string>, id: string) returns (m': map<string, string>)
    ensures m' == m + map ip | ip in ips :: id
  {
    m' := m;
    var j := 0;
    while j < |ips|
      invariant 0 <= j <= |ips|
      invariant m' == m + map ip | ip in ips[..j] :: id
    {
      assert ips[..j + 1] == ips[..j] + [ips[j]];
      m' := m'[ips[j] := id];
      j := j + 1;
    }
    assert ips[..j] == ips;
  }

  /** `load_itdk_node_id_to_ips_mapping` */
  method LoadNodeIdToIps(lines: seq<string>) returns (r: Result<map<string, seq<string>>, LoadError>)
    ensures r.Success? <==> forall k :: 0 <= k < |lines| ==> !ParseNodeLine(lines[k]).NoColon?
    ensures r.Success? ==> r.value == ForwardIndex(lines)
  {
    var index, _ := LoadItdkMapping(lines, false);
    match index
    case Success(ById(m)) => r := Success(m);
    case Failure(e) => r := Failure(e);
  }

  /** `load_itdk_node_ip_to_id_mapping` */
  method LoadNodeIpToId(lines: seq<string>) returns (r: Result<map<string, string>, LoadError>)
    ensures r.Success? <==> forall k :: 0 <= k < |lines| ==> !ParseNodeLine(lines[k]).NoColon?
    ensures r.Success? ==> r.value == ReverseIndex(lines)
  {
    var index, _ := LoadItdkMapping(lines, true);
    match index
    case Success(ByIp(m)) => r := Success(m);
    case Failure(e) => r := Failure(e);
  }

  /** Index of the last node line listing `ip`, or -1 when none does. */
  function LastListing(lines: seq<string>, ip: string): (k: int)
    ensures -1 <= k < |lines|
    ensures k >= 0 ==> Lists(lines[k], ip)
    ensures forall j :: k < j < |lines| ==> !Lists(lines[j], ip)
    decreases |lines|
  {
    if |lines| == 0 then -1
    else if Lists(lines[|lines| - 1], ip) then |lines| - 1
    else
      var front := lines[..|lines| - 1];
      var k := LastListing(front, ip);
      assert forall j :: k < j < |front| ==> front[j] == lines[j];
      k
  }

  /** Index of the last node line declaring `id`, or -1 when none does. */
  function LastDeclaring(lines: seq<string>, id: string): (k: int)
    ensures -1 <= k < |lines|
    ensures k >= 0 ==> Declares(lines[k], id)
    ensures forall j :: k < j < |lines| ==> !Declares(lines[j], id)
    decreases |lines|
  {
    if |lines| == 0 then -1
    else if Declares(lines[|lines| - 1], id) then |lines| - 1
    else
      var front := lines[..|lines| - 1];
      var k := LastDeclaring(front, id);
      assert forall j :: k < j < |front| ==> front[j] == lines[j];
      k
  }

  /**
   * Reverse mode, last write wins: an IP is indexed exactly when some node line
   * lists it, and then to the id of the last line listing it.
   */
  lemma {:induction false} ReverseIndexLastWins(lines: seq<string>, ip: string)
    ensures ip in ReverseIndex(lines) <==> LastListing(lines, ip) >= 0
    ensures ip in ReverseIndex(lines) ==> ReverseIndex(lines)[ip] == ParseNodeLine(lines[LastListing(lines, ip)]).id
    decreases |lines|
  {
    if |lines| > 0 {
      var front := lines[..|lines| - 1];
      ReverseIndexLastWins(front, ip);
      if !Lists(lines[|lines| - 1], ip) {
        var k := LastListing(front, ip);
        assert k >= 0 ==> front[k] == lines[k];
      }
    }
  }

  /**
   * Forward mode: an id is indexed exactly when some node line declares it,
   * and then to the IPs of the last line declaring it.
   */
  lemma {:induction false} ForwardIndexLastWins(lines: seq<string>, id: string)
    ensures id in ForwardIndex(lines) <==> LastDeclaring(lines, id) >= 0
    ensures id in ForwardIndex(lines) ==> ForwardIndex(lines)[id] == ParseNodeLine(lines[LastDeclaring(lines, id)]).ips
    decreases |lines|
  {
    if |lines| > 0 {
      var front := lines[..|lines| - 1];
      ForwardIndexLastWins(front, id);
      if !Declares(lines[|lines| - 1], id) {
        var k := LastDeclaring(front, id);
        assert k >= 0 ==> front[k] == lines[k];
      }
    }
  }

  /**
   * A line that is not a node, wherever it stands, changes neither ReverseIndex,
   * ForwardIndex nor NodeCount. For a comment or unrecognised line the loader's
   * result is therefore the same; a colon-less line makes LoadItdkMapping fail.
   */
  lemma {:induction false} SkippedLineIgnored(lines: seq<string>, k: nat, line: string)
    requires k <= |lines|
    requires !ParseNodeLine(line).Node?
    ensures ReverseIndex(lines[..k] + [line] + lines[k..]) == ReverseIndex(lines)
    ensures ForwardIndex(lines[..k] + [line] + lines[k..]) == ForwardIndex(lines)
    ensures NodeCount(lines[..k] + [line] + lines[k..]) == NodeCount(lines)
    decreases |lines|
  {
    var with := lines[..k] + [line] + lines[k..];
    if k == |lines| {
      assert with[..|with| - 1] == lines;
    } else {
      var front := lines[..|lines| - 1];
      assert with[..|with| - 1] == front[..k] + [line] + front[k..];
      assert with[|with| - 1] == lines[|lines| - 1];
      SkippedLineIgnored(front, k, line);
    }
  }
}
