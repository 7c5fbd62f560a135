/**
 * Two inputs on which the reader, as written, throws instead of reporting an
 * issue: a line that is neither blank nor a comment but holds no part the
 * tokenizer recognises (such as `:`), and a node descriptor with no part
 * (such as the empty descriptor after the trailing `|` of `ns:[1,2|]`). In
 * both cases the reader takes the text of the first part of an empty list.
 *
 * The functions here model that behaviour, with `None` for the thrown error.
 * The rest of the model reads such a line as one with an unexpected first
 * letter and such a descriptor as one with too few numbers; the lemmas show
 * that it agrees with the reader wherever the reader does not throw, and
 * reports an issue wherever it does.
 */
module Findings {
  import opened Text
  import opened CpuModel
  import opened Decimal
  import opened Tokenizer
  import opened Importer
  import opened Exporter
  import opened ImportRules
  import opened RoundTrip

  /** A node descriptor as the reader handles it: `None` when it has no part. */
  function NodeAsWritten(nodeStr: string): Option<NodeOut> {
    var nps := ParseLine(nodeStr);
    if |nps| == 0 then None else Some(NodeFromParts(nps))
  }

  /** Whether one of the descriptors `strs` makes the reader throw. */
  predicate AnyNodeThrows(strs: seq<string>) {
    |strs| > 0 && (NodeAsWritten(strs[0]).None? || AnyNodeThrows(strs[1..]))
  }

  /** Whether an `ns` part among `parts` holds a descriptor that makes the reader throw. */
  predicate NsThrows(parts: seq<LinePart>) {
    |parts| > 0 && ((parts[0].tag == Some("ns") && AnyNodeThrows(Split(parts[0].value, '|'))) || NsThrows(parts[1..]))
  }

  /** A wire line as the reader handles it. */
  function WireAsWritten(parts: seq<LinePart>): Option<LineOut> {
    if |parts| < 3 then Some(LineOut([MsgWireArity], [], []))
    else if NsThrows(parts) then None
    else Some(DecodeWire(parts))
  }

  /** One raw line as the reader handles it: `None` when it throws. */
  function LineAsWritten(raw: string): Option<LineOut> {
    var line := Trim(raw);
    if Skipped(line) then Some(LineOut([], [], []))
    else
      var parts := ParseLine(line);
      if |parts| == 0 then None
      else if parts[0].text == "C" then Some(DecodeComp(parts))
      else if parts[0].text == "W" then WireAsWritten(parts)
      else Some(LineOut([MsgUnexpected(line[0])], [], []))
  }

  /** Whether one of `lines` makes the reader throw. */
  predicate BodyThrows(lines: seq<string>) {
    |lines| > 0 && (LineAsWritten(lines[0]).None? || BodyThrows(lines[1..]))
  }

  /** The whole reader as written: `None` when it throws. The header is
      checked before any other line is read. */
  function ImportAsWritten(str: string): Option<ImportResult> {
    var lines := Split(str, '\n');
    if !StartsWith(lines[0], HeaderTag) then Some(ImportResult(Some([Issue(MsgHeader, 1, lines[0], None)])))
    else if Version(lines[0]) != Some(1) then Some(ImportResult(Some([Issue(MsgVersion, 1, lines[0], None)])))
    else if BodyThrows(lines) then None
    else Some(ImportData(str))
  }

  // ---------------------------------------------------------------------
  // Where the reader does not throw, the model reads what it reads.

  lemma LineAgrees(raw: string)
    ensures LineAsWritten(raw).Some? ==> LineAsWritten(raw).value == DecodeLine(raw)
  {
  }

  lemma ImportAgrees(str: string)
    ensures ImportAsWritten(str).Some? ==> ImportAsWritten(str).value == ImportData(str)
  {
  }

  // ---------------------------------------------------------------------
  // Where it throws, the model reports an issue instead.

  lemma {:induction false} NodesKeepMsgs(acc: WireAcc, outs: seq<NodeOut>)
    ensures |DecodeNodes(acc, outs).msgs| >= |acc.msgs|
    decreases |outs|
  {
    if |outs| > 0 {
      NodesKeepMsgs(NodeStep(acc, outs[0]), outs[1..]);
    }
  }

  /** A descriptor the reader throws on adds a message to its wire. */
  lemma {:induction false} NodesReportThrow(acc: WireAcc, strs: seq<string>)
    requires AnyNodeThrows(strs)
    ensures |DecodeNodes(acc, Map(strs, DecodeNode)).msgs| > |acc.msgs|
    decreases |strs|
  {
    var outs := Map(strs, DecodeNode);
    assert outs[1..] == Map(strs[1..], DecodeNode);
    var next := NodeStep(acc, outs[0]);
    if NodeAsWritten(strs[0]).None? {
      assert |next.msgs| > |acc.msgs|;
      NodesKeepMsgs(next, outs[1..]);
    } else {
      NodesReportThrow(next, strs[1..]);
    }
  }

  lemma {:induction false} NsKeepMsgs(acc: WireAcc, parts: seq<LinePart>)
    ensures |DecodeNsParts(acc, parts).msgs| >= |acc.msgs|
    decreases |parts|
  {
    if |parts| > 0 {
      var outs := Map(Split(parts[0].value, '|'), DecodeNode);
      var next := if parts[0].tag == Some("ns") then DecodeNodes(acc, outs) else acc;
      NodesKeepMsgs(acc, outs);
      NsKeepMsgs(next, parts[1..]);
    }
  }

  lemma {:induction false} NsReportThrow(acc: WireAcc, parts: seq<LinePart>)
    requires NsThrows(parts)
    ensures |DecodeNsParts(acc, parts).msgs| > |acc.msgs|
    decreases |parts|
  {
    var strs := Split(parts[0].value, '|');
    var next := if parts[0].tag == Some("ns") then DecodeNodes(acc, Map(strs, DecodeNode)) else acc;
    if parts[0].tag == Some("ns") && AnyNodeThrows(strs) {
      NodesReportThrow(acc, strs);
      NsKeepMsgs(next, parts[1..]);
    } else {
      NodesKeepMsgs(acc, Map(strs, DecodeNode));
      NsReportThrow(next, parts[1..]);
    }
  }

  /** Every line the reader throws on is reported by the model. */
  lemma LineReportsThrow(raw: string)
    requires LineAsWritten(raw).None?
    ensures |DecodeLine(raw).msgs| > 0
  {
    var parts := ParseLine(Trim(raw));
    if |parts| > 0 {
      NsReportThrow(WireAcc([], []), parts);
    }
  }

  lemma {:induction false} BodyReportsThrow(lines: seq<string>, idx: int)
    requires BodyThrows(lines)
    ensures |DecodeBody(lines, idx).issues| > 0
    decreases |lines|
  {
    BodyCons(lines[0], lines[1..], idx);
    assert [lines[0]] + lines[1..] == lines;
    if LineAsWritten(lines[0]).None? {
      LineReportsThrow(lines[0]);
    } else {
      BodyReportsThrow(lines[1..], idx + 1);
    }
  }

  /** Every input the reader throws on is read by the model with issues. */
  lemma ImportReportsThrow(str: string)
    requires ImportAsWritten(str).None?
    ensures ImportData(str).issues.Some?
  {
    BodyReportsThrow(Split(str, '\n'), 0);
  }

  // ---------------------------------------------------------------------
  // The two inputs.

  /** A line of a lone `:` has no part: the reader throws, the model reports
      the unexpected letter. */
  lemma ColonLine()
    ensures LineAsWritten(":") == None
    ensures DecodeLine(":") == LineOut([MsgUnexpected(':')], [], [])
  {
  }

  /** A descriptor with no text has no part. */
  lemma EmptyNode(e: string)
    requires e == []
    ensures NodeAsWritten(e) == None && DecodeNode(e) == NodeOut(None, [MsgNodeArity])
  {
    assert ParseLine(e) == [];
  }

  /** A node kept, then a descriptor rejected for its arity. */
  lemma KeptThenRejected(outs: seq<NodeOut>, nb: NodeBody)
    requires |outs| == 2 && outs[0] == NodeOut(Some(nb), []) && outs[1] == NodeOut(None, [MsgNodeArity])
    ensures DecodeNodes(WireAcc([], []), outs) == WireAcc([WireNode(0, nb.pos, nb.edges, nb.ref)], [MsgNodeArity])
  {
    var a1 := WireAcc([WireNode(0, nb.pos, nb.edges, nb.ref)], []);
    var a2 := WireAcc([WireNode(0, nb.pos, nb.edges, nb.ref)], [MsgNodeArity]);
    assert NodeStep(WireAcc([], []), outs[0]) == a1;
    assert NodeStep(a1, outs[1]) == a2;
    assert outs[1..][0] == outs[1] && outs[1..][1..] == [];
    assert DecodeNodes(WireAcc([], []), outs) == DecodeNodes(a1, outs[1..]);
    assert DecodeNodes(a1, outs[1..]) == DecodeNodes(a2, outs[1..][1..]);
  }

  /** A kept descriptor followed by an empty one. */
  lemma KeptThenEmpty(strs: seq<string>, nb: NodeBody)
    requires |strs| == 2 && DecodeNode(strs[0]) == NodeOut(Some(nb), []) && strs[1] == ""
    ensures AnyNodeThrows(strs)
    ensures DecodeNodes(WireAcc([], []), Map(strs, DecodeNode)) == WireAcc([WireNode(0, nb.pos, nb.edges, nb.ref)], [MsgNodeArity])
  {
    EmptyNode(strs[1]);
    assert AnyNodeThrows(strs) by {
      assert strs[1..][0] == strs[1];
      assert AnyNodeThrows(strs[1..]);
    }
    assert DecodeNodes(WireAcc([], []), Map(strs, DecodeNode)) == WireAcc([WireNode(0, nb.pos, nb.edges, nb.ref)], [MsgNodeArity]) by {
      var outs := Map(strs, DecodeNode);
      assert outs[0] == NodeOut(Some(nb), []) && outs[1] == NodeOut(None, [MsgNodeArity]);
      KeptThenRejected(outs, nb);
    }
  }

  /** A kept line whose first part is `W` goes to the wire reader. */
  lemma WireRoute(s: string)
    requires Trim(s) == s && !Skipped(s)
    requires |ParseLine(s)| > 0 && ParseLine(s)[0].text == "W"
    ensures LineAsWritten(s) == WireAsWritten(ParseLine(s))
    ensures DecodeLine(s) == DecodeWire(ParseLine(s))
  {
  }

  /** A kept wire line whose only `ns` list holds a kept descriptor and an
      empty one. */
  lemma KeptThenEmptyLine(s: string, id: string, nb: NodeBody)
    requires Trim(s) == s && !Skipped(s)
    requires var parts := ParseLine(s);
      && |parts| == 3 && parts[0].text == "W" && parts[0].tag == None && parts[1] == LinePart(id, None, id)
      && parts[2].tag == Some("ns")
    requires var strs := Split(ParseLine(s)[2].value, '|');
      |strs| == 2 && DecodeNode(strs[0]) == NodeOut(Some(nb), []) && strs[1] == ""
    ensures LineAsWritten(s) == None
    ensures DecodeLine(s) == LineOut([MsgNodeArity], [], [WireGraph(id, [WireNode(0, nb.pos, nb.edges, nb.ref)])])
  {
    var parts := ParseLine(s);
    WireRoute(s);
    KeptThenEmpty(Split(parts[2].value, '|'), nb);
    ThirdPartNs(parts);
  }

  /** The tokens of a wire line whose `ns` list holds one descriptor and a
      trailing `|`. */
  lemma DanglingParts(s: string, id: string, inner: string, node: string)
    requires s == "W" + (" " + id + (" " + ("ns" + ":[" + inner + "]")))
    requires IsPlain(id) && '|' !in node && ']' !in node && inner == node + "|"
    ensures Trim(s) == s && !Skipped(s)
    ensures var parts := ParseLine(s);
      && |parts| == 3 && parts[0].text == "W" && parts[0].tag == None && parts[1] == LinePart(id, None, id)
      && parts[2].tag == Some("ns") && parts[2].value == inner
    ensures var strs := Split(inner, '|');
      |strs| == 2 && strs[0] == node && strs[1] == ""
  {
    assert Trim(s) == s && !Skipped(s) by {
      KeptLine(s, 'W');
    }
    assert IsPlain("W") && IsWord("ns") && ']' !in inner by {
      assert inner == node + ['|'];
    }
    WireTokens(s, "W", id, "ns", inner);
    SplitAt(node, "", '|');
    SplitNoSep("", '|');
    assert node + ['|'] + "" == inner;
  }

  /** A wire line whose `ns` list ends in `|`: the reader throws on the empty
      last descriptor, and the model keeps the wire with one issue for it. */
  lemma DanglingWire(s: string, id: string, inner: string, node: string, nb: NodeBody)
    requires s == "W" + (" " + id + (" " + ("ns" + ":[" + inner + "]")))
    requires IsPlain(id) && '|' !in node && ']' !in node && inner == node + "|"
    requires DecodeNode(node) == NodeOut(Some(nb), [])
    ensures LineAsWritten(s) == None
    ensures DecodeLine(s) == LineOut([MsgNodeArity], [], [WireGraph(id, [WireNode(0, nb.pos, nb.edges, nb.ref)])])
  {
    DanglingParts(s, id, inner, node);
    KeptThenEmptyLine(s, id, nb);
  }

  /** A line of three parts of which only the last is labelled `ns`. */
  lemma ThirdPartNs(parts: seq<LinePart>)
    requires |parts| == 3 && parts[0].tag == None && parts[1].tag == None && parts[2].tag == Some("ns")
    ensures NsThrows(parts) == AnyNodeThrows(Split(parts[2].value, '|'))
    ensures DecodeNsParts(WireAcc([], []), parts) == DecodeNodes(WireAcc([], []), Map(Split(parts[2].value, '|'), DecodeNode))
  {
    var a0 := WireAcc([], []);
    var p1 := parts[1..];
    var p2 := parts[2..];
    assert p1[0] == parts[1] && p1[1..] == p2;
    assert p2[0] == parts[2] && p2[1..] == [];
    var strs := Split(parts[2].value, '|');
    assert NsThrows(parts) == NsThrows(p1);
    assert NsThrows(p1) == NsThrows(p2);
    assert NsThrows(p2) == (AnyNodeThrows(strs) || NsThrows(p2[1..]));
    assert DecodeNsParts(a0, parts) == DecodeNsParts(a0, p1);
    assert DecodeNsParts(a0, p1) == DecodeNsParts(a0, p2);
    assert DecodeNsParts(a0, p2) == DecodeNsParts(DecodeNodes(a0, Map(strs, DecodeNode)), p2[1..]);
  }

  /** A one-node wire line as the exporter writes it, with a `|` after the
      descriptor, such as `W a ns:[1,2|]`: the reader throws, the model keeps
      the node and reports the empty descriptor. */
  lemma DanglingBar(s: string, id: string, n: WireNode)
    requires IsPlain(id) && RefSafe(n.ref)
    requires s == "W" + (" " + id + (" " + ("ns" + ":[" + (NodeText(n, 0) + "|") + "]")))
    ensures NodeAsWritten("") == None
    ensures LineAsWritten(s) == None
    ensures DecodeLine(s) == LineOut([MsgNodeArity], [], [WireGraph(id, [CanonNode(n, 0)])])
  {
    EmptyNode("");
    var node := NodeText(n, 0);
    assert '|' !in node && ']' !in node by {
      NodeTextHasNo(n, 0, '|');
      NodeTextHasNo(n, 0, ']');
    }
    NodeDecodes(n, 0);
    DanglingWire(s, id, node + "|", node, BodyOf(CanonNode(n, 0)));
  }
}
