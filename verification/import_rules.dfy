/**
 * What the reader promises, line by line and for the whole file: where its
 * issues point, which lines it passes over, and how component lines, wire
 * lines, node references and edges are decoded.
 */
module ImportRules {
  import opened Text
  import opened Decimal
  import opened CpuModel
  import opened Tokenizer
  import opened Exporter
  import opened Importer

  // ---------------------------------------------------------------------
  // Issues.

  /** Issue `x` is about one of `lines`, numbered from `idx + 1`: it carries
      that line's number and raw text, and no column. */
  predicate IssueOn(x: Issue, lines: seq<string>, idx: int) {
    && idx < x.lineNo <= idx + |lines|
    && x.lineContent == lines[x.lineNo - idx - 1]
    && x.colNo == None
  }

  lemma {:induction false} LineIssuesAt(msgs: seq<string>, idx: int, content: string)
    ensures forall i :: 0 <= i < |msgs| ==> LineIssues(msgs, idx, content)[i] == Issue(msgs[i], idx + 1, content, None)
  {
    if |msgs| > 0 {
      LineIssuesAt(msgs[1..], idx, content);
    }
  }

  /** Every issue gathered from `lines` points at the line it came from. */
  lemma {:induction false} AssembleIssues(outs: seq<LineOut>, lines: seq<string>, idx: int)
    requires |outs| == |lines|
    ensures forall i :: 0 <= i < |Assemble(outs, lines, idx).issues| ==> IssueOn(Assemble(outs, lines, idx).issues[i], lines, idx)
  {
    if |lines| > 0 {
      var head := LineIssues(outs[0].msgs, idx, lines[0]);
      var rest := Assemble(outs[1..], lines[1..], idx + 1);
      AssembleIssues(outs[1..], lines[1..], idx + 1);
      LineIssuesAt(outs[0].msgs, idx, lines[0]);
      var all := Assemble(outs, lines, idx).issues;
      assert all == head + rest.issues;
      forall i | 0 <= i < |all| ensures IssueOn(all[i], lines, idx) {
        if i < |head| {
          assert all[i] == head[i];
        } else {
          assert all[i] == rest.issues[i - |head|];
          assert IssueOn(rest.issues[i - |head|], lines[1..], idx + 1);
        }
      }
    }
  }

  lemma BodyIssues(lines: seq<string>, idx: int)
    ensures forall i :: 0 <= i < |DecodeBody(lines, idx).issues| ==> IssueOn(DecodeBody(lines, idx).issues[i], lines, idx)
  {
    AssembleIssues(Map(lines, DecodeLine), lines, idx);
  }

  /** The layout the reader decoded from `str`, with both counters at zero. */
  function DecodedLayout(str: string): Layout {
    var d := DecodeBody(Split(str, '\n'), 0);
    Layout(d.comps, d.wires, 0, 0)
  }

  /** The result holds issues only when there is at least one, and each one
      names a line of the input by number and raw text. */
  lemma ImportIssues(str: string)
    ensures var r := ImportData(str);
      r.issues.Some? ==>
        && |r.issues.value| > 0
        && forall i :: 0 <= i < |r.issues.value| ==> IssueOn(r.issues.value[i], Split(str, '\n'), 0)
  {
    var lines := Split(str, '\n');
    if StartsWith(lines[0], HeaderTag) && Version(lines[0]) == Some(1) {
      var d := DecodeBody(lines, 0);
      BodyIssues(lines, 0);
      var all := d.issues + SelfCheck(str, d, lines[0]);
      forall i | 0 <= i < |all| ensures IssueOn(all[i], lines, 0) {
        if i >= |d.issues| {
          assert all[i] == SelfCheck(str, d, lines[0])[i - |d.issues|];
        }
      }
    }
  }

  /** No issues exactly when the header is right, no line raised anything, and
      re-exporting what was decoded gives back the input. */
  lemma ImportClean(str: string)
    ensures var lines := Split(str, '\n');
      ImportData(str).issues.None? <==>
        && StartsWith(lines[0], HeaderTag)
        && Version(lines[0]) == Some(1)
        && DecodeBody(lines, 0).issues == []
        && ExportData(DecodedLayout(str)) == str
  {
  }

  /** A first line that does not start with `#wire-schema` is the only issue. */
  lemma HeaderRejected(str: string)
    requires !StartsWith(Split(str, '\n')[0], HeaderTag)
    ensures ImportData(str) == ImportResult(Some([Issue(MsgHeader, 1, Split(str, '\n')[0], None)]))
  {
  }

  /** A header with the right tag and a version other than 1 is the only issue. */
  lemma VersionRejected(str: string)
    requires StartsWith(Split(str, '\n')[0], HeaderTag)
    requires Version(Split(str, '\n')[0]) != Some(1)
    ensures ImportData(str) == ImportResult(Some([Issue(MsgVersion, 1, Split(str, '\n')[0], None)]))
  {
  }

  /** The first line of `first + "\n" + rest`. */
  lemma FirstLine(first: string, rest: string)
    requires '\n' !in first
    ensures Split(first + "\n" + rest, '\n')[0] == first
  {
    SplitAt(first, rest, '\n');
  }

  /** The version of `#wire-schema v` is `parseInt(v)`. */
  lemma VersionOf(v: string)
    requires ' ' !in v
    ensures StartsWith("#wire-schema " + v, HeaderTag)
    ensures Version("#wire-schema " + v) == JsParseInt(v)
  {
    var first := "#wire-schema " + v;
    assert first[..|HeaderTag|] == HeaderTag;
    assert ' ' !in HeaderTag;
    assert first == HeaderTag + [' '] + v;
    SplitAt(HeaderTag, v, ' ');
    SplitNoSep(v, ' ');
  }

  /** For instance `#wire-schema 2` is turned away, whatever follows it. */
  lemma VersionTwoRejected(rest: string)
    ensures ImportData("#wire-schema 2\n" + rest) == ImportResult(Some([Issue(MsgVersion, 1, "#wire-schema 2", None)]))
  {
    var first := "#wire-schema 2";
    var str := "#wire-schema 2\n" + rest;
    assert first == "#wire-schema " + "2";
    assert str == first + "\n" + rest;
    FirstLine(first, rest);
    VersionOf("2");
    assert JsParseInt("2") == Some(2) by {
      JsParseIntOfString(2, "");
      assert IntToString(2) + "" == "2";
    }
    VersionRejected(str);
  }

  // ---------------------------------------------------------------------
  // Lines passed over.

  /** A blank or comment line adds nothing: the lines after it decode exactly
      as they would without it, keeping their own line numbers. */
  lemma SkippedLine(raw: string, rest: seq<string>, idx: int)
    requires Skipped(Trim(raw))
    ensures DecodeBody([raw] + rest, idx) == DecodeBody(rest, idx + 1)
  {
    var lines := [raw] + rest;
    assert lines[1..] == rest;
    assert Map(lines, DecodeLine)[1..] == Map(rest, DecodeLine);
    assert Map(lines, DecodeLine)[0] == LineOut([], [], []);
  }

  /** Gathering piecewise: the lines of `b` keep the numbers they have after
      the lines of `a`. */
  lemma {:induction false} AssembleAppend(oa: seq<LineOut>, a: seq<string>, ob: seq<LineOut>, b: seq<string>, idx: int)
    requires |oa| == |a| && |ob| == |b|
    ensures var da := Assemble(oa, a, idx);
      var db := Assemble(ob, b, idx + |a|);
      Assemble(oa + ob, a + b, idx) == Decoded(da.issues + db.issues, da.comps + db.comps, da.wires + db.wires)
  {
    if |a| == 0 {
      assert a + b == b;
      assert oa + ob == ob;
    } else {
      var o := oa[0];
      var li := LineIssues(o.msgs, idx, a[0]);
      var dt := Assemble(oa[1..], a[1..], idx + 1);
      var db := Assemble(ob, b, idx + |a|);
      var dtb := Decoded(dt.issues + db.issues, dt.comps + db.comps, dt.wires + db.wires);
      assert Assemble(oa[1..] + ob, a[1..] + b, idx + 1) == dtb by {
        AssembleAppend(oa[1..], a[1..], ob, b, idx + 1);
      }
      assert Assemble(oa + ob, a + b, idx) == Decoded(li + dtb.issues, o.comps + dtb.comps, o.wires + dtb.wires) by {
        assert (a + b)[1..] == a[1..] + b;
        assert (oa + ob)[1..] == oa[1..] + ob;
        assert (a + b)[0] == a[0];
        assert (oa + ob)[0] == o;
      }
      assert li + (dt.issues + db.issues) == (li + dt.issues) + db.issues;
      assert o.comps + (dt.comps + db.comps) == (o.comps + dt.comps) + db.comps;
      assert o.wires + (dt.wires + db.wires) == (o.wires + dt.wires) + db.wires;
    }
  }

  /** Decoding a file piecewise. */
  lemma BodyAppend(a: seq<string>, b: seq<string>, idx: int)
    ensures var da := DecodeBody(a, idx);
      var db := DecodeBody(b, idx + |a|);
      DecodeBody(a + b, idx) == Decoded(da.issues + db.issues, da.comps + db.comps, da.wires + db.wires)
  {
    MapAppend(a, b, DecodeLine);
    AssembleAppend(Map(a, DecodeLine), a, Map(b, DecodeLine), b, idx);
  }

  /** A line whose tokens do not begin with a bare `C` or `W` raises one issue,
      naming its first character, and adds nothing. */
  lemma UnexpectedLine(raw: string)
    requires !Skipped(Trim(raw))
    requires var parts := ParseLine(Trim(raw)); |parts| == 0 || (parts[0].text != "C" && parts[0].text != "W")
    ensures DecodeLine(raw) == LineOut([MsgUnexpected(Trim(raw)[0])], [], [])
  {
  }

  // ---------------------------------------------------------------------
  // Component lines.

  /** A well-formed `p:` part: a value with exactly two comma-separated numbers. */
  predicate PlacesComp(part: LinePart) {
    part.tag == Some("p") && DecodePos(part.value).Ok?
  }

  /** Reference definition: the positions named by the well-formed `p:` parts,
      in the order the parts stand on the line. */
  function Placements(parts: seq<LinePart>): seq<Vec2> {
    if |parts| == 0 then []
    else (if PlacesComp(parts[0]) then [DecodePos(parts[0].value).value] else []) + Placements(parts[1..])
  }

  /** After the id and the definition, every part places one component or raises
      one issue; component `k` stands at the position of the `k`-th well-formed
      `p:` part and is named by the line's id and definition, with zero size and
      no ports. */
  lemma {:induction false} CompPartsRules(id: string, defId: string, parts: seq<LinePart>)
    ensures var r := CompParts(id, defId, parts);
      && |r.comps| == Count(parts, PlacesComp) == |Placements(parts)|
      && forall k :: 0 <= k < |r.comps| ==>
           r.comps[k] == Comp(id, id, defId, Placements(parts)[k], Vec2(0, 0), [])
  {
    if |parts| > 0 {
      CompPartsRules(id, defId, parts[1..]);
      var rest := CompParts(id, defId, parts[1..]);
      var ps := Placements(parts[1..]);
      if CompPart(id, defId, parts[0]).Ok? {
        var p := DecodePos(parts[0].value).value;
        assert PlacesComp(parts[0]);
        assert Placements(parts) == [p] + ps;
        assert CompParts(id, defId, parts).comps == [Comp(id, id, defId, p, Vec2(0, 0), [])] + rest.comps;
        PlacedCons(id, defId, p, ps, rest.comps);
      } else {
        assert !PlacesComp(parts[0]);
        assert Placements(parts) == [] + ps;
      }
    }
  }

  /** One more placed component in front of placed components. */
  lemma PlacedCons(id: string, defId: string, p: Vec2, ps: seq<Vec2>, cs: seq<Comp>)
    requires |cs| == |ps|
    requires forall k :: 0 <= k < |cs| ==> cs[k] == Comp(id, id, defId, ps[k], Vec2(0, 0), [])
    ensures var all := [Comp(id, id, defId, p, Vec2(0, 0), [])] + cs;
      forall k :: 0 <= k < |all| ==> all[k] == Comp(id, id, defId, ([p] + ps)[k], Vec2(0, 0), [])
  {
  }

  /** How many elements satisfy `p`. */
  function Count<T>(xs: seq<T>, p: T -> bool): (n: nat)
    ensures n <= |xs|
  {
    if |xs| == 0 then 0 else (if p(xs[0]) then 1 else 0) + Count(xs[1..], p)
  }

  /** A component line: fewer than three parts is one issue; otherwise each part
      after the third yields one component or one issue, and no wire; component
      `k` stands at the position of the `k`-th well-formed `p:` part. */
  lemma CompLineRules(parts: seq<LinePart>)
    ensures var r := DecodeComp(parts);
      && r.wires == []
      && (|parts| < 3 ==> r == LineOut([MsgCompArity], [], []))
      && (|parts| >= 3 ==>
            && |r.comps| == Count(parts[3..], PlacesComp) == |Placements(parts[3..])|
            && |r.comps| + |r.msgs| == |parts| - 3
            && forall k :: 0 <= k < |r.comps| ==>
                 r.comps[k] == Comp(parts[1].text, parts[1].text, parts[2].text, Placements(parts[3..])[k], Vec2(0, 0), []))
  {
    if |parts| >= 3 {
      CompPartsRules(parts[1].text, parts[2].text, parts[3..]);
    }
  }

  // ---------------------------------------------------------------------
  // Wire lines.

  /** Node ids are positions: node `k` of a wire has id `k`. */
  predicate Numbered(nodes: seq<WireNode>) {
    forall k :: 0 <= k < |nodes| ==> nodes[k].id == k
  }

  /** One descriptor: a kept body is appended, numbered by how many nodes the
      wire already has, a dropped one adds no node; its messages follow the
      earlier ones. */
  lemma NodeStepNumbered(acc: WireAcc, o: NodeOut)
    requires Numbered(acc.nodes)
    ensures var r := NodeStep(acc, o);
      && Numbered(r.nodes)
      && r.nodes[..|acc.nodes|] == acc.nodes
      && (o.body.Some? <==> |r.nodes| == |acc.nodes| + 1)
      && (o.body.None? ==> r.nodes == acc.nodes)
      && (o.body.Some? ==>
            r.nodes[|acc.nodes|] == WireNode(|acc.nodes|, o.body.value.pos, o.body.value.edges, o.body.value.ref))
      && r.msgs == acc.msgs + o.msgs
  {
  }

  lemma {:induction false} DecodeNodesNumbered(acc: WireAcc, outs: seq<NodeOut>)
    requires Numbered(acc.nodes)
    ensures Numbered(DecodeNodes(acc, outs).nodes)
    decreases |outs|
  {
    if |outs| > 0 {
      NodeStepNumbered(acc, outs[0]);
      DecodeNodesNumbered(NodeStep(acc, outs[0]), outs[1..]);
    }
  }

  /** The body of a node, without its number. */
  function BodyOf(w: WireNode): NodeBody {
    NodeBody(w.pos, w.edges, w.ref)
  }

  /** Descriptors that each decode cleanly give exactly those nodes, in order,
      numbered on from the nodes already there, and no issue. */
  lemma {:induction false} CleanNodes(acc: seq<WireNode>, outs: seq<NodeOut>, ws: seq<WireNode>)
    requires |outs| == |ws|
    requires forall k :: 0 <= k < |ws| ==> outs[k] == NodeOut(Some(BodyOf(ws[k])), []) && ws[k].id == |acc| + k
    ensures DecodeNodes(WireAcc(acc, []), outs) == WireAcc(acc + ws, [])
    decreases |outs|
  {
    if |outs| > 0 {
      assert ws[0].id == |acc| + 0;
      assert NodeStep(WireAcc(acc, []), outs[0]) == WireAcc(acc + [ws[0]], []);
      CleanNodes(acc + [ws[0]], outs[1..], ws[1..]);
      assert acc + [ws[0]] + ws[1..] == acc + ws;
    } else {
      assert acc + [] == acc;
    }
  }

  /** Reference definition: the bodies of the descriptors that are kept, in order. */
  function KeptBodies(outs: seq<NodeOut>): seq<NodeBody> {
    if |outs| == 0 then []
    else (if outs[0].body.Some? then [outs[0].body.value] else []) + KeptBodies(outs[1..])
  }

  /** The messages of all descriptors, in order. */
  function OutMsgs(outs: seq<NodeOut>): seq<string> {
    if |outs| == 0 then [] else outs[0].msgs + OutMsgs(outs[1..])
  }

  /** Bodies as nodes numbered `from`, `from + 1`, ... */
  function NumberFrom(bs: seq<NodeBody>, from: int): (r: seq<WireNode>)
    ensures |r| == |bs|
  {
    if |bs| == 0 then [] else [WireNode(from, bs[0].pos, bs[0].edges, bs[0].ref)] + NumberFrom(bs[1..], from + 1)
  }

  /** Node `k` is body `k`, numbered `from + k`. */
  lemma {:induction false} NumberFromMeaning(bs: seq<NodeBody>, from: int)
    ensures forall k :: 0 <= k < |bs| ==>
      NumberFrom(bs, from)[k] == WireNode(from + k, bs[k].pos, bs[k].edges, bs[k].ref)
  {
    if |bs| > 0 {
      NumberFromMeaning(bs[1..], from + 1);
      forall k | 1 <= k < |bs| ensures NumberFrom(bs, from)[k] == WireNode(from + k, bs[k].pos, bs[k].edges, bs[k].ref) {
        assert NumberFrom(bs, from)[k] == NumberFrom(bs[1..], from + 1)[k - 1];
      }
    }
  }

  /** One descriptor of the list, then the others: the nodes. */
  lemma KeptStepNodes(acc: WireAcc, outs: seq<NodeOut>)
    requires |outs| > 0
    ensures var next := NodeStep(acc, outs[0]);
      next.nodes + NumberFrom(KeptBodies(outs[1..]), |next.nodes|)
        == acc.nodes + NumberFrom(KeptBodies(outs), |acc.nodes|)
  {
    var o := outs[0];
    var n := |acc.nodes|;
    var rest := KeptBodies(outs[1..]);
    if o.body.Some? {
      var b := o.body.value;
      var w := WireNode(n, b.pos, b.edges, b.ref);
      assert NodeStep(acc, o).nodes == acc.nodes + [w];
      assert NumberFrom(KeptBodies(outs), n) == [w] + NumberFrom(rest, n + 1) by {
        assert KeptBodies(outs) == [b] + rest;
        ConsParts(b, rest);
      }
      Assoc(acc.nodes, [w], NumberFrom(rest, n + 1));
    } else {
      assert NodeStep(acc, o).nodes == acc.nodes by {
        assert acc.nodes + [] == acc.nodes;
      }
      assert KeptBodies(outs) == rest by {
        assert KeptBodies(outs) == [] + rest;
        assert [] + rest == rest;
      }
    }
  }

  /** One descriptor of the list, then the others: the messages. */
  lemma KeptStepMsgs(acc: WireAcc, outs: seq<NodeOut>)
    requires |outs| > 0
    ensures NodeStep(acc, outs[0]).msgs + OutMsgs(outs[1..]) == acc.msgs + OutMsgs(outs)
  {
    assert OutMsgs(outs) == outs[0].msgs + OutMsgs(outs[1..]);
  }

  /** The recovery of a node list: every kept descriptor becomes the next node,
      numbered on from the nodes already there, and every dropped one is left
      out; the messages of all descriptors are kept in order. */
  lemma {:induction false} KeptNodes(acc: WireAcc, outs: seq<NodeOut>)
    ensures DecodeNodes(acc, outs)
      == WireAcc(acc.nodes + NumberFrom(KeptBodies(outs), |acc.nodes|), acc.msgs + OutMsgs(outs))
    decreases |outs|
  {
    if |outs| == 0 {
      assert acc.nodes + [] == acc.nodes;
      assert acc.msgs + [] == acc.msgs;
    } else {
      KeptNodes(NodeStep(acc, outs[0]), outs[1..]);
      KeptStepNodes(acc, outs);
      KeptStepMsgs(acc, outs);
    }
  }

  /** Reference definition: the descriptors of every `ns` part, in the order the
      parts stand on the line, each decoded on its own. */
  function NsDescriptors(parts: seq<LinePart>): seq<NodeOut> {
    if |parts| == 0 then []
    else (if parts[0].tag == Some("ns") then Map(Split(parts[0].value, '|'), DecodeNode) else []) + NsDescriptors(parts[1..])
  }

  lemma {:induction false} DecodeNodesAppend(acc: WireAcc, a: seq<NodeOut>, b: seq<NodeOut>)
    ensures DecodeNodes(acc, a + b) == DecodeNodes(DecodeNodes(acc, a), b)
    decreases |a|
  {
    if |a| == 0 {
      assert a + b == b;
    } else {
      assert (a + b)[0] == a[0];
      assert (a + b)[1..] == a[1..] + b;
      DecodeNodesAppend(NodeStep(acc, a[0]), a[1..], b);
    }
  }

  /** The `ns` parts of a line are decoded as one list of descriptors. */
  lemma {:induction false} NsPartsAsOneList(acc: WireAcc, parts: seq<LinePart>)
    ensures DecodeNsParts(acc, parts) == DecodeNodes(acc, NsDescriptors(parts))
    decreases |parts|
  {
    if |parts| > 0 {
      var here := if parts[0].tag == Some("ns") then Map(Split(parts[0].value, '|'), DecodeNode) else [];
      var next := if parts[0].tag == Some("ns") then DecodeNodes(acc, here) else acc;
      NsPartsAsOneList(next, parts[1..]);
      assert NsDescriptors(parts) == here + NsDescriptors(parts[1..]);
      DecodeNodesAppend(acc, here, NsDescriptors(parts[1..]));
    }
  }

  lemma {:induction false} NsPartsNumbered(acc: WireAcc, parts: seq<LinePart>)
    requires Numbered(acc.nodes)
    ensures Numbered(DecodeNsParts(acc, parts).nodes)
    decreases |parts|
  {
    if |parts| > 0 {
      var outs := Map(Split(parts[0].value, '|'), DecodeNode);
      if parts[0].tag == Some("ns") {
        DecodeNodesNumbered(acc, outs);
      }
      NsPartsNumbered(if parts[0].tag == Some("ns") then DecodeNodes(acc, outs) else acc, parts[1..]);
    }
  }

  /** Parts not labelled `ns` add neither nodes nor issues. */
  lemma {:induction false} OtherPartsIgnored(acc: WireAcc, parts: seq<LinePart>)
    requires forall k :: 0 <= k < |parts| ==> parts[k].tag != Some("ns")
    ensures DecodeNsParts(acc, parts) == acc
    decreases |parts|
  {
    if |parts| > 0 {
      OtherPartsIgnored(acc, parts[1..]);
    }
  }

  /** A wire line: fewer than three parts is one issue; otherwise exactly one
      wire, named by the second part, holding the kept descriptors of all its
      `ns` parts in order, numbered by position, with the messages of all
      descriptors in order. */
  lemma WireLineRules(parts: seq<LinePart>)
    ensures var r := DecodeWire(parts);
      && r.comps == []
      && (|parts| < 3 ==> r == LineOut([MsgWireArity], [], []))
      && (|parts| >= 3 ==>
            && |r.wires| == 1 && r.wires[0].id == parts[1].text && Numbered(r.wires[0].nodes)
            && r.wires[0].nodes == NumberFrom(KeptBodies(NsDescriptors(parts)), 0)
            && r.msgs == OutMsgs(NsDescriptors(parts)))
  {
    if |parts| >= 3 {
      NsPartsNumbered(WireAcc([], []), parts);
      NsPartsAsOneList(WireAcc([], []), parts);
      KeptNodes(WireAcc([], []), NsDescriptors(parts));
    }
  }

  /** A wire line with no `ns` part still adds its wire, with no nodes and no issue. */
  lemma WireWithoutNodes(parts: seq<LinePart>)
    requires |parts| >= 3
    requires forall k :: 0 <= k < |parts| ==> parts[k].tag != Some("ns")
    ensures DecodeWire(parts) == LineOut([], [], [WireGraph(parts[1].text, [])])
  {
    OtherPartsIgnored(WireAcc([], []), parts);
  }

  // ---------------------------------------------------------------------
  // Node references.

  /** A `p:` part that names a component port: its value has exactly one `/`. */
  predicate NamesPort(part: LinePart) {
    part.tag == Some("p") && |Split(part.value, '/')| == 2
  }

  function PortRef(part: LinePart): ElRef
    requires NamesPort(part)
  {
    var cs := Split(part.value, '/');
    CompNodeRef(cs[0], cs[1])
  }

  /** Reference definition, searching from the end: the port named by the last
      part that names one, or `ref` if none does. */
  function LastRef(parts: seq<LinePart>, ref: ElRef): ElRef {
    if |parts| == 0 then ref
    else if NamesPort(parts[|parts| - 1]) then PortRef(parts[|parts| - 1])
    else LastRef(parts[..|parts| - 1], ref)
  }

  /** Starting from a different reference changes nothing once the first part names a port. */
  lemma {:induction false} LastRefCons(parts: seq<LinePart>, ref: ElRef)
    requires |parts| > 0
    ensures LastRef(parts, ref) == LastRef(parts[1..], if NamesPort(parts[0]) then PortRef(parts[0]) else ref)
  {
    if |parts| > 1 {
      var init := parts[..|parts| - 1];
      assert init[1..] == parts[1..][..|parts[1..]| - 1];
      assert parts[1..][|parts[1..]| - 1] == parts[|parts| - 1];
      assert init[0] == parts[0];
      LastRefCons(init, ref);
    }
  }

  /** The last well-formed `p:` part wins; each malformed one raises one issue. */
  lemma {:induction false} RefLastWins(parts: seq<LinePart>, ref: ElRef)
    ensures DecodeRef(parts, ref).ref == LastRef(parts, ref)
    ensures |DecodeRef(parts, ref).msgs| == Count(parts, BadPort)
  {
    if |parts| > 0 {
      var next := if NamesPort(parts[0]) then PortRef(parts[0]) else ref;
      RefLastWins(parts[1..], next);
      LastRefCons(parts, ref);
    }
  }

  /** A `p:` part that does not name a port. */
  predicate BadPort(part: LinePart) {
    part.tag == Some("p") && |Split(part.value, '/')| != 2
  }

  // ---------------------------------------------------------------------
  // Edges.

  /** Fields that all parse are all kept, in order, without issues. */
  lemma {:induction false} EdgesRead(fields: seq<string>, xs: seq<int>)
    requires |fields| == |xs|
    requires forall k :: 0 <= k < |fields| ==> JsParseInt(fields[k]) == Some(xs[k])
    ensures DecodeEdges(fields) == EdgesOut(xs, [])
  {
    if |xs| > 0 {
      EdgesRead(fields[1..], xs[1..]);
      assert [xs[0]] + xs[1..] == xs;
    }
  }

  /** Edge fields read back the printed indices, in order, without issues. */
  lemma EdgesOfNumerals(xs: seq<int>)
    ensures DecodeEdges(Numerals(xs)) == EdgesOut(xs, [])
  {
    forall k | 0 <= k < |xs| ensures JsParseInt(Numerals(xs)[k]) == Some(xs[k]) {
      JsParseIntOfString(xs[k], "");
      assert IntToString(xs[k]) + "" == IntToString(xs[k]);
    }
    EdgesRead(Numerals(xs), xs);
  }

  /** The first field read, then the others. */
  lemma EdgesCons(x: string, rest: seq<string>)
    ensures var r := DecodeEdges(rest);
      DecodeEdges([x] + rest)
        == if JsParseInt(x).Some? then EdgesOut([JsParseInt(x).value] + r.edges, r.msgs)
           else EdgesOut(r.edges, [MsgEdgeNumber] + r.msgs)
  {
    assert ([x] + rest)[1..] == rest;
  }

  lemma {:induction false} EdgesAppend(a: seq<string>, b: seq<string>)
    ensures DecodeEdges(a + b) == EdgesOut(DecodeEdges(a).edges + DecodeEdges(b).edges, DecodeEdges(a).msgs + DecodeEdges(b).msgs)
  {
    if |a| == 0 {
      assert a + b == b;
    } else {
      var x := a[0];
      var ea := DecodeEdges(a[1..]);
      var eb := DecodeEdges(b);
      var eab := DecodeEdges(a[1..] + b);
      assert eab == EdgesOut(ea.edges + eb.edges, ea.msgs + eb.msgs) by {
        EdgesAppend(a[1..], b);
      }
      assert DecodeEdges(a + b) == DecodeEdges([x] + (a[1..] + b)) by {
        assert a + b == [x] + (a[1..] + b);
      }
      assert DecodeEdges(a) == DecodeEdges([x] + a[1..]) by {
        assert a == [x] + a[1..];
      }
      if JsParseInt(x).Some? {
        var v := JsParseInt(x).value;
        assert DecodeEdges(a + b) == EdgesOut([v] + (ea.edges + eb.edges), ea.msgs + eb.msgs) by {
          EdgesCons(x, a[1..] + b);
        }
        assert DecodeEdges(a) == EdgesOut([v] + ea.edges, ea.msgs) by {
          EdgesCons(x, a[1..]);
        }
        Assoc([v], ea.edges, eb.edges);
      } else {
        assert DecodeEdges(a + b) == EdgesOut(ea.edges + eb.edges, [MsgEdgeNumber] + (ea.msgs + eb.msgs)) by {
          EdgesCons(x, a[1..] + b);
        }
        assert DecodeEdges(a) == EdgesOut(ea.edges, [MsgEdgeNumber] + ea.msgs) by {
          EdgesCons(x, a[1..]);
        }
        Assoc([MsgEdgeNumber], ea.msgs, eb.msgs);
      }
    }
  }

  /** An edge field that is not a number is dropped with one issue; the
      fields around it are read as if it were not there. */
  lemma BadEdgeDropped(a: seq<string>, bad: string, b: seq<string>)
    requires JsParseInt(bad).None?
    ensures var r := DecodeEdges(a + [bad] + b);
      var ab := DecodeEdges(a + b);
      && r.edges == ab.edges
      && |r.msgs| == |ab.msgs| + 1
  {
    var ea := DecodeEdges(a);
    var eb := DecodeEdges(b);
    assert DecodeEdges([bad]) == EdgesOut([], [MsgEdgeNumber]) by {
      assert [bad][1..] == [];
    }
    assert DecodeEdges(a + [bad]) == EdgesOut(ea.edges, ea.msgs + [MsgEdgeNumber]) by {
      EdgesAppend(a, [bad]);
      assert ea.edges + [] == ea.edges;
    }
    EdgesAppend(a + [bad], b);
    EdgesAppend(a, b);
  }

  /** The comma-separated fields of a node's first part. */
  function NodeFields(nps: seq<LinePart>): seq<string> {
    if |nps| == 0 then [] else Split(nps[0].text, ',')
  }

  /** A node is kept when its first part has at least two fields and both
      of the first two are numbers. */
  predicate NodeKept(nps: seq<LinePart>) {
    var fs := NodeFields(nps);
    |fs| >= 2 && JsParseFloat(fs[0]).Some? && JsParseFloat(fs[1]).Some?
  }

  /** A node descriptor is dropped with exactly one issue unless its first
      part starts with two numbers; a kept node holds those numbers as its
      position, the edge fields that are numbers, and the last well-formed
      reference, with one issue per bad edge field and per malformed `p:`. */
  lemma NodeRules(nps: seq<LinePart>)
    ensures var r := NodeFromParts(nps);
      var fs := NodeFields(nps);
      && (r.body.Some? <==> NodeKept(nps))
      && (!NodeKept(nps) ==> |r.msgs| == 1)
      && (NodeKept(nps) ==>
            && r.body.value.pos == Vec2(JsParseFloat(fs[0]).value, JsParseFloat(fs[1]).value)
            && r.body.value.edges == DecodeEdges(fs[2..]).edges
            && r.body.value.ref == LastRef(nps, NoRef)
            && |r.msgs| == |fs| - 2 - |r.body.value.edges| + Count(nps, BadPort))
  {
    RefLastWins(nps, NoRef);
  }
}
