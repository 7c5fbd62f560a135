/**
 * The wire-schema reader. It checks the header line, decodes every `C` and
 * `W` line into components and wires, collects one issue per problem found
 * (with the 1-based number and the raw text of the line it was found on),
 * and finally re-exports what it decoded and reports an issue on line 1 if
 * that does not reproduce the input exactly. The result holds the issues
 * only, `None` when there were none.
 */
module Importer {
  import opened Text
  import opened Decimal
  import opened CpuModel
  import opened Tokenizer
  import opened Exporter

  const HeaderTag: string := "#wire-schema"

  const MsgHeader: string := "Invalid file format: first line must be #wire-schema <version>"
  const MsgVersion: string := "Invalid file format: only version 1 is supported"
  const MsgCompArity: string := "Invalid component line: must have at least 3 parts"
  const MsgPosArity: string := "Invalid component line: p: must have 2 parts"
  const MsgPosNumbers: string := "Invalid component line: p: must have 2 numbers"
  const MsgCompUnknown: string := "Invalid component line: unknown part"
  const MsgWireArity: string := "Invalid wire line: must have at least 3 space-separated parts"
  const MsgNodeArity: string := "Invalid wire node: must have at least 2 parts"
  const MsgNodeNumbers: string := "Invalid wire node: must have 2 numbers"
  const MsgEdgeNumber: string := "Invalid wire node: edge must be a number"
  const MsgRefArity: string := "Invalid wire node: c: must have 2 parts"
  const MsgMismatch: string := "Exported data does not match imported data"

  function MsgUnexpected(c: char): string {
    "Unexpected line start letter: '" + [c] + "'"
  }

  /** One problem: the message, the 1-based line number, the raw line, and a
      column, which the importer never fills in. */
  datatype Issue = Issue(issue: string, lineNo: int, lineContent: string, colNo: Option<int>)

  datatype ImportResult = ImportResult(issues: Option<seq<Issue>>)

  /** A decoded value, or the message that rejects it. */
  datatype Outcome<T> = Ok(value: T) | Rejected(msg: string)

  /** What one line contributes: its messages in order, and the components
      and wires it adds. */
  datatype LineOut = LineOut(msgs: seq<string>, comps: seq<Comp>, wires: seq<WireGraph>)

  // ---------------------------------------------------------------------
  // Component lines: `C <id> <defId> p:<x>,<y>`.

  /** The value of a `p:` part of a component line. */
  function DecodePos(v: string): Outcome<Vec2> {
    var ps := Split(v, ',');
    if |ps| != 2 then Rejected(MsgPosArity)
    else
      var x := JsParseFloat(ps[0]);
      var y := JsParseFloat(ps[1]);
      if x.None? || y.None? then Rejected(MsgPosNumbers) else Ok(Vec2(x.value, y.value))
  }

  /** A part after the third of a component line: each `p:` part places one
      component, anything else is rejected. */
  function CompPart(id: string, defId: string, part: LinePart): Outcome<Comp> {
    if part.tag == Some("p") then
      var pos := DecodePos(part.value);
      if pos.Rejected? then Rejected(pos.msg)
      else Ok(Comp(id, id, defId, pos.value, Vec2(0, 0), []))
    else Rejected(MsgCompUnknown)
  }

  function CompParts(id: string, defId: string, parts: seq<LinePart>): (r: LineOut)
    ensures |r.comps| + |r.msgs| == |parts| && r.wires == []
  {
    if |parts| == 0 then LineOut([], [], [])
    else
      var o := CompPart(id, defId, parts[0]);
      var rest := CompParts(id, defId, parts[1..]);
      if o.Ok? then LineOut(rest.msgs, [o.value] + rest.comps, [])
      else LineOut([o.msg] + rest.msgs, rest.comps, [])
  }

  function DecodeComp(parts: seq<LinePart>): LineOut {
    if |parts| < 3 then LineOut([MsgCompArity], [], [])
    else CompParts(parts[1].text, parts[2].text, parts[3..])
  }

  // ---------------------------------------------------------------------
  // Wire lines: `W <id> ns:[<node>|<node>|...]`, where a node is
  // `x,y[,edge...][ p:<component>/<port>]`.

  datatype EdgesOut = EdgesOut(edges: seq<int>, msgs: seq<string>)

  /** The edge fields of a node: each is read with `parseInt`; one that is not
      a number is reported and left out, the others are kept in order. */
  function DecodeEdges(fields: seq<string>): (r: EdgesOut)
    ensures |r.edges| + |r.msgs| == |fields|
  {
    if |fields| == 0 then EdgesOut([], [])
    else
      var e := JsParseInt(fields[0]);
      var rest := DecodeEdges(fields[1..]);
      if e.Some? then EdgesOut([e.value] + rest.edges, rest.msgs)
      else EdgesOut(rest.edges, [MsgEdgeNumber] + rest.msgs)
  }

  datatype RefOut = RefOut(ref: ElRef, msgs: seq<string>)

  /** The `p:` parts of a node, in order, starting from reference `ref`: a
      part whose value splits on `/` into exactly two pieces replaces the
      reference, any other `p:` part is reported. */
  function DecodeRef(parts: seq<LinePart>, ref: ElRef): RefOut {
    if |parts| == 0 then RefOut(ref, [])
    else if parts[0].tag == Some("p") then
      var cs := Split(parts[0].value, '/');
      if |cs| != 2 then
        var rest := DecodeRef(parts[1..], ref);
        RefOut(rest.ref, [MsgRefArity] + rest.msgs)
      else DecodeRef(parts[1..], CompNodeRef(cs[0], cs[1]))
    else DecodeRef(parts[1..], ref)
  }

  /** A decoded node descriptor before it is numbered: its position, its
      edges and its reference. */
  datatype NodeBody = NodeBody(pos: Vec2, edges: seq<int>, ref: ElRef)

  datatype NodeOut = NodeOut(body: Option<NodeBody>, msgs: seq<string>)

  /** One node descriptor, decoded on its own. */
  function DecodeNode(nodeStr: string): NodeOut {
    NodeFromParts(ParseLine(nodeStr))
  }

  /** The parts of a node descriptor. The first holds the comma-separated
      numbers; a descriptor with no part at all is reported like one with too
      few numbers. */
  function NodeFromParts(nps: seq<LinePart>): NodeOut {
    if |nps| == 0 then NodeOut(None, [MsgNodeArity])
    else
      var pe := Split(nps[0].text, ',');
      if |pe| < 2 then NodeOut(None, [MsgNodeArity])
      else
        var x := JsParseFloat(pe[0]);
        var y := JsParseFloat(pe[1]);
        if x.None? || y.None? then NodeOut(None, [MsgNodeNumbers])
        else
          var es := DecodeEdges(pe[2..]);
          var r := DecodeRef(nps, NoRef);
          NodeOut(Some(NodeBody(Vec2(x.value, y.value), es.edges, r.ref)), es.msgs + r.msgs)
  }

  /** The nodes of one wire decoded so far, and the messages so far. */
  datatype WireAcc = WireAcc(nodes: seq<WireNode>, msgs: seq<string>)

  /** Adds one decoded descriptor; a kept node is numbered by how many nodes
      the wire already has. */
  function NodeStep(acc: WireAcc, o: NodeOut): WireAcc {
    var kept := if o.body.Some? then [WireNode(|acc.nodes|, o.body.value.pos, o.body.value.edges, o.body.value.ref)] else [];
    WireAcc(acc.nodes + kept, acc.msgs + o.msgs)
  }

  function DecodeNodes(acc: WireAcc, outs: seq<NodeOut>): WireAcc
    decreases |outs|
  {
    if |outs| == 0 then acc else DecodeNodes(NodeStep(acc, outs[0]), outs[1..])
  }

  /** Every part labelled `ns`, wherever it stands on the line, adds its
      `|`-separated descriptors; parts with any other label are ignored. */
  function DecodeNsParts(acc: WireAcc, parts: seq<LinePart>): WireAcc
    decreases |parts|
  {
    if |parts| == 0 then acc
    else
      var next := if parts[0].tag == Some("ns") then DecodeNodes(acc, Map(Split(parts[0].value, '|'), DecodeNode)) else acc;
      DecodeNsParts(next, parts[1..])
  }

  /** A wire line with at least three parts always adds exactly one wire, even
      one without nodes. */
  function DecodeWire(parts: seq<LinePart>): LineOut {
    if |parts| < 3 then LineOut([MsgWireArity], [], [])
    else
      var acc := DecodeNsParts(WireAcc([], []), parts);
      LineOut(acc.msgs, [], [WireGraph(parts[1].text, acc.nodes)])
  }

  // ---------------------------------------------------------------------
  // Lines and files.

  /** A trimmed line the importer passes over: empty, or a `#` comment. */
  predicate Skipped(line: string) { |line| == 0 || line[0] == '#' }

  /** One raw line, trimmed and passed to the tokenizer unless skipped. */
  function DecodeLine(raw: string): LineOut {
    var line := Trim(raw);
    if Skipped(line) then LineOut([], [], []) else LineFromParts(ParseLine(line), line[0])
  }

  /** The parts of a line that is not skipped, whose first character is
      `first`. A line whose parts do not start with `C` or `W` is reported by
      its first character, including a line the tokenizer finds no part in. */
  function LineFromParts(parts: seq<LinePart>, first: char): LineOut {
    if |parts| > 0 && parts[0].text == "C" then DecodeComp(parts)
    else if |parts| > 0 && parts[0].text == "W" then DecodeWire(parts)
    else LineOut([MsgUnexpected(first)], [], [])
  }

  /** The issues for the messages of the line at index `idx`. */
  function LineIssues(msgs: seq<string>, idx: int, content: string): (r: seq<Issue>)
    ensures |r| == |msgs|
  {
    if |msgs| == 0 then [] else [Issue(msgs[0], idx + 1, content, None)] + LineIssues(msgs[1..], idx, content)
  }

  datatype Decoded = Decoded(issues: seq<Issue>, comps: seq<Comp>, wires: seq<WireGraph>)

  /** Gathers what the lines from index `idx` on contributed, in line order;
      `outs[k]` is what line `lines[k]` contributed. */
  function Assemble(outs: seq<LineOut>, lines: seq<string>, idx: int): Decoded
    requires |outs| == |lines|
  {
    if |lines| == 0 then Decoded([], [], [])
    else
      var rest := Assemble(outs[1..], lines[1..], idx + 1);
      Decoded(LineIssues(outs[0].msgs, idx, lines[0]) + rest.issues, outs[0].comps + rest.comps, outs[0].wires + rest.wires)
  }

  /** All lines from index `idx` on, each decoded on its own. */
  function DecodeBody(lines: seq<string>, idx: int): Decoded {
    Assemble(Map(lines, DecodeLine), lines, idx)
  }

  /** The version: `parseInt` of the second space-separated word of the header. */
  function Version(header: string): Option<int> {
    var ws := Split(header, ' ');
    if |ws| < 2 then None else JsParseInt(ws[1])
  }

  /** The issue of the final self-check: re-exporting the decoded layout must
      give back the input. */
  function SelfCheck(str: string, d: Decoded, first: string): seq<Issue> {
    if ExportData(Layout(d.comps, d.wires, 0, 0)) != str then [Issue(MsgMismatch, 1, first, None)] else []
  }

  function ImportData(str: string): ImportResult {
    var lines := Split(str, '\n');
    if !StartsWith(lines[0], HeaderTag) then ImportResult(Some([Issue(MsgHeader, 1, lines[0], None)]))
    else if Version(lines[0]) != Some(1) then ImportResult(Some([Issue(MsgVersion, 1, lines[0], None)]))
    else
      var d := DecodeBody(lines, 0);
      var all := d.issues + SelfCheck(str, d, lines[0]);
      ImportResult(if |all| == 0 then None else Some(all))
  }
}
