/**
 * Importing what export wrote. For a layout whose identifiers the tokenizer
 * reads back as single words, every line of the export decodes without a
 * message into the same component or wire in canonical form (the form that
 * survives the text format), and the self-check re-export reproduces the
 * text exactly, so the import reports no issue.
 */
module RoundTrip {
  import opened Text
  import opened Decimal
  import opened CpuModel
  import opened Tokenizer
  import opened Exporter
  import opened Importer
  import opened ImportRules

  // ---------------------------------------------------------------------
  // Which layouts survive the text format.

  /** A character of a component or port name inside a `p:` reference: a
      plain character other than the reference and node separators. */
  predicate IsPortChar(c: char) { IsPlainChar(c) && c != '/' && c != '|' }

  predicate RefSafe(ref: ElRef) {
    ref.CompNodeRef? ==> All(ref.id, IsPortChar) && All(ref.compNodeId, IsPortChar)
  }

  predicate WireSafe(w: WireGraph) {
    IsPlain(w.id) && forall m :: 0 <= m < |w.nodes| ==> RefSafe(w.nodes[m].ref)
  }

  predicate CompSafe(c: Comp) { IsPlain(c.id) && IsPlain(c.defId) }

  /** Every identifier is a non-empty run of characters that are neither
      whitespace nor `[`, `]`, `:`; port references also avoid `/` and `|`. */
  predicate SafeLayout(layout: Layout) {
    && (forall k :: 0 <= k < |layout.comps| ==> CompSafe(layout.comps[k]))
    && (forall k :: 0 <= k < |layout.wires| ==> WireSafe(layout.wires[k]))
  }

  // ---------------------------------------------------------------------
  // What the text format keeps of a layout.

  /** A reference kind the format cannot write is dropped. */
  function CanonRef(ref: ElRef): ElRef {
    if ref.CompNodeRef? then ref else NoRef
  }

  /** Node `j` as read back: numbered `j`, holding its back-edges only. */
  function CanonNode(n: WireNode, j: int): WireNode {
    WireNode(j, n.pos, BackEdges(n.edges, j), CanonRef(n.ref))
  }

  /** The nodes of a wire, as read back. */
  function CanonNodes(nodes: seq<WireNode>): (r: seq<WireNode>)
    ensures |r| == |nodes|
  {
    seq(|nodes|, k requires 0 <= k < |nodes| => CanonNode(nodes[k], k))
  }

  function CanonWire(w: WireGraph): WireGraph {
    WireGraph(w.id, CanonNodes(w.nodes))
  }

  /** A component as read back: named by its identifier, with no size and no ports. */
  function CanonComp(c: Comp): Comp {
    Comp(c.id, c.id, c.defId, c.pos, Vec2(0, 0), [])
  }

  /** The layout as read back: identifier counters are not part of the format. */
  function Canon(layout: Layout): Layout {
    Layout(Map(layout.comps, CanonComp), Map(layout.wires, CanonWire), 0, 0)
  }

  // ---------------------------------------------------------------------
  // Node descriptors.

  lemma AllWeaken(s: string, p: char -> bool, q: char -> bool)
    requires All(s, p) && forall c :: p(c) ==> q(c)
    ensures All(s, q)
  {
  }

  predicate IsNumbersChar(c: char) { IsNumeralChar(c) || c == ',' }

  lemma {:induction false} JoinAll(ps: seq<string>, sep: char, p: char -> bool)
    requires |ps| >= 1 && p(sep)
    requires forall k :: 0 <= k < |ps| ==> All(ps[k], p)
    ensures All(Join(ps, sep), p)
  {
    if |ps| > 1 {
      JoinAll(ps[1..], sep, p);
      AllConcat(ps[0], [sep], p);
      AllConcat(ps[0] + [sep], Join(ps[1..], sep), p);
    }
  }

  /** The numbers of a node form one bare token. */
  lemma NumbersPlain(xs: seq<int>)
    requires |xs| >= 1
    ensures IsPlain(Join(Numerals(xs), ','))
    ensures Split(Join(Numerals(xs), ','), ',') == Numerals(xs)
  {
    var ns := Numerals(xs);
    forall k | 0 <= k < |ns| ensures All(ns[k], IsNumbersChar) && ',' !in ns[k] {
      AllWeaken(ns[k], IsNumeralChar, IsNumbersChar);
      NumeralHasNo(xs[k], ',');
    }
    JoinAll(ns, ',', IsNumbersChar);
    AllWeaken(Join(ns, ','), IsNumbersChar, IsPlainChar);
    SplitJoin(ns, ',');
  }

  lemma NumeralsDrop(xs: seq<int>, k: nat)
    requires k <= |xs|
    ensures Numerals(xs)[k..] == Numerals(xs[k..])
  {
  }

  /** A reference written as `<component>/<port>` splits back into its two names. */
  lemma PortSplit(a: string, b: string)
    requires All(a, IsPortChar) && All(b, IsPortChar)
    ensures IsPlain(a + "/" + b)
    ensures Split(a + "/" + b, '/') == [a, b]
  {
    NotInAll(a, IsPortChar, '/');
    NotInAll(b, IsPortChar, '/');
    AllWeaken(a, IsPortChar, IsPlainChar);
    AllWeaken(b, IsPortChar, IsPlainChar);
    AllConcat(a, "/", IsPlainChar);
    AllConcat(a + "/", b, IsPlainChar);
    SplitAt(a, b, '/');
    SplitNoSep(b, '/');
  }

  lemma BareLine(s: string, t: string)
    requires s == t && IsPlain(t)
    ensures ParseLine(s) == [LinePart(t, None, t)]
  {
    assert AllValid([]);
    assert t == TokText(Bare(t)) + SpaceToks([]);
    ParseToks(Bare(t), []);
  }

  /** A bare token, a space and a labelled token `l:v`. */
  lemma BareTaggedLine(s: string, t: string, l: string, v: string)
    requires s == t + (" " + (l + ":" + v)) && IsPlain(t) && IsWord(l) && IsPlain(v)
    ensures ParseLine(s) == [LinePart(t, None, t), LinePart(l + ":" + v, Some(l), v)]
  {
    var tail := " " + (l + ":" + v);
    var p0 := LinePart(t, None, t);
    var ps := [LinePart(l + ":" + v, Some(l), v)];
    assert ParseLine(tail) == ps by {
      SpacedTagged(tail, l, v);
    }
    assert ParseLine(s) == [p0] + ps by {
      BareThen(t, tail);
    }
    Cons1(p0, ps);
  }

  lemma Cons1<T>(a: T, ps: seq<T>)
    requires |ps| == 1
    ensures [a] + ps == [a, ps[0]]
  {
  }

  /** The reference suffix of a node descriptor, grouped as a space and a token. */
  lemma RefShape(num: string, a: string, b: string)
    ensures num + " p:" + (a + "/" + b) == num + (" " + ("p" + ":" + (a + "/" + b)))
    ensures "p" + ":" + (a + "/" + b) == "p:" + a + "/" + b
  {
    assert " p:" == " " + "p" + ":";
    assert "p:" == "p" + ":";
  }

  lemma NodeTextParts(n: WireNode, j: int)
    ensures n.ref.CompNodeRef? ==> NodeText(n, j) == NumbersText(n, j) + " p:" + (n.ref.id + "/" + n.ref.compNodeId)
    ensures !n.ref.CompNodeRef? ==> NodeText(n, j) == NumbersText(n, j)
  {
    if n.ref.CompNodeRef? {
      var a, b := n.ref.id, n.ref.compNodeId;
      assert " p:" + a + "/" + b == " p:" + (a + "/" + b);
    } else {
      assert NumbersText(n, j) + "" == NumbersText(n, j);
    }
  }

  /** The parts a node descriptor is written as: its numbers, then its
      reference if it has one. */
  function NodeParts(n: WireNode, j: int): seq<LinePart> {
    var num := NumbersText(n, j);
    [LinePart(num, None, num)]
    + (if n.ref.CompNodeRef? then [LinePart("p:" + n.ref.id + "/" + n.ref.compNodeId, Some("p"), n.ref.id + "/" + n.ref.compNodeId)] else [])
  }

  lemma RefNodeParts(n: WireNode, j: int)
    requires n.ref.CompNodeRef? && RefSafe(n.ref)
    ensures ParseLine(NodeText(n, j)) == NodeParts(n, j)
  {
    var num := NumbersText(n, j);
    var pr := n.ref.id + "/" + n.ref.compNodeId;
    assert IsPlain(num) && IsPlain(pr) by {
      NumbersPlain([n.pos.x, n.pos.y] + BackEdges(n.edges, j));
      PortSplit(n.ref.id, n.ref.compNodeId);
    }
    assert NodeText(n, j) == num + (" " + ("p" + ":" + pr)) by {
      NodeTextParts(n, j);
      RefShape(num, n.ref.id, n.ref.compNodeId);
    }
    assert NodeParts(n, j) == [LinePart(num, None, num), LinePart("p" + ":" + pr, Some("p"), pr)] by {
      RefShape(num, n.ref.id, n.ref.compNodeId);
    }
    assert IsWord("p");
    BareTaggedLine(NodeText(n, j), num, "p", pr);
  }

  lemma PlainNodeParts(n: WireNode, j: int)
    requires !n.ref.CompNodeRef?
    ensures ParseLine(NodeText(n, j)) == NodeParts(n, j)
  {
    NumbersPlain([n.pos.x, n.pos.y] + BackEdges(n.edges, j));
    NodeTextParts(n, j);
    BareLine(NodeText(n, j), NumbersText(n, j));
  }

  /** The numbers of a node read back: the position, then the edges. */
  lemma NumbersDecode(xs: seq<int>)
    requires |xs| >= 2
    ensures var pe := Split(Join(Numerals(xs), ','), ',');
            && |pe| == |xs|
            && JsParseFloat(pe[0]) == Some(xs[0]) && JsParseFloat(pe[1]) == Some(xs[1])
            && DecodeEdges(pe[2..]) == EdgesOut(xs[2..], [])
  {
    NumbersPlain(xs);
    JsParseFloatOfString(xs[0]);
    JsParseFloatOfString(xs[1]);
    NumeralsDrop(xs, 2);
    EdgesOfNumerals(xs[2..]);
  }

  /** The reference part of a node, if any, read back. */
  lemma RefDecodes(ref: ElRef, num: string)
    requires RefSafe(ref)
    ensures var nps := [LinePart(num, None, num)]
                       + (if ref.CompNodeRef? then [LinePart("p:" + ref.id + "/" + ref.compNodeId, Some("p"), ref.id + "/" + ref.compNodeId)] else []);
            DecodeRef(nps, NoRef) == RefOut(CanonRef(ref), [])
  {
    var nps := [LinePart(num, None, num)]
               + (if ref.CompNodeRef? then [LinePart("p:" + ref.id + "/" + ref.compNodeId, Some("p"), ref.id + "/" + ref.compNodeId)] else []);
    if ref.CompNodeRef? {
      PortSplit(ref.id, ref.compNodeId);
      assert DecodeRef(nps, NoRef) == DecodeRef(nps[1..], NoRef);
      assert DecodeRef(nps[1..], NoRef) == DecodeRef([], ref);
    } else {
      assert DecodeRef(nps, NoRef) == DecodeRef([], NoRef);
    }
  }

  /** The parts of the descriptor of node `j` decode, without a message, to
      node `j` in canonical form. */
  lemma NodePartsDecode(n: WireNode, j: int, nps: seq<LinePart>)
    requires RefSafe(n.ref)
    requires nps == NodeParts(n, j)
    ensures NodeFromParts(nps) == NodeOut(Some(BodyOf(CanonNode(n, j))), [])
  {
    var xs := [n.pos.x, n.pos.y] + BackEdges(n.edges, j);
    NumbersDecode(xs);
    assert xs[2..] == BackEdges(n.edges, j);
    RefDecodes(n.ref, NumbersText(n, j));
  }

  /** The descriptor of node `j` decodes, without a message, to node `j` in
      canonical form. */
  lemma NodeDecodes(n: WireNode, j: int)
    requires RefSafe(n.ref)
    ensures DecodeNode(NodeText(n, j)) == NodeOut(Some(BodyOf(CanonNode(n, j))), [])
  {
    if n.ref.CompNodeRef? { RefNodeParts(n, j); } else { PlainNodeParts(n, j); }
    NodePartsDecode(n, j, ParseLine(NodeText(n, j)));
  }

  // ---------------------------------------------------------------------
  // Wire lines.

  predicate RefsSafe(nodes: seq<WireNode>) {
    forall m :: 0 <= m < |nodes| ==> RefSafe(nodes[m].ref)
  }

  /** The descriptors of a wire's nodes decode, in order and without a
      message, to those nodes in canonical form. */
  lemma NodesDecode(nodes: seq<WireNode>)
    requires RefsSafe(nodes)
    ensures DecodeNodes(WireAcc([], []), Map(NodeTexts(nodes), DecodeNode)) == WireAcc(CanonNodes(nodes), [])
  {
    var outs := Map(NodeTexts(nodes), DecodeNode);
    var ws := CanonNodes(nodes);
    var none: seq<WireNode> := [];
    forall k | 0 <= k < |ws|
      ensures outs[k] == NodeOut(Some(BodyOf(ws[k])), []) && ws[k].id == |none| + k
    {
      NodeDecodes(nodes[k], k);
    }
    CleanNodes(none, outs, ws);
    assert none + ws == ws;
  }

  lemma NodeTextHasNo(n: WireNode, j: int, c: char)
    requires RefSafe(n.ref) && !IsNumeralChar(c) && !IsPortChar(c) && c != ',' && c != ' ' && c != 'p' && c != ':' && c != '/'
    ensures c !in NodeText(n, j)
  {
    NumbersTextHasNo(n, j, c);
    if n.ref.CompNodeRef? {
      NotInAll(n.ref.id, IsPortChar, c);
      NotInAll(n.ref.compNodeId, IsPortChar, c);
    }
  }

  /** The bracketed node list of a wire with nodes is a non-empty list token
      whose `|`-separated pieces are the node descriptors. */
  lemma NodeListToken(w: WireGraph)
    requires |w.nodes| > 0 && RefsSafe(w.nodes)
    ensures var inner := NodesFrom(NodeTexts(w.nodes), 0);
            |inner| > 0 && ']' !in inner && Split(inner, '|') == NodeTexts(w.nodes)
  {
    var inner := NodesFrom(NodeTexts(w.nodes), 0);
    NodesFromIsJoin(NodeTexts(w.nodes));
    assert |inner| > 0 by {
      assert inner == NodeTexts(w.nodes)[0] + NodesFrom(NodeTexts(w.nodes), 1);
      NumbersPlain([w.nodes[0].pos.x, w.nodes[0].pos.y] + BackEdges(w.nodes[0].edges, 0));
      NodeTextParts(w.nodes[0], 0);
    }
    assert ']' !in inner by {
      forall k | 0 <= k < |w.nodes| ensures ']' !in NodeTexts(w.nodes)[k] {
        NodeTextHasNo(w.nodes[k], k, ']');
      }
      NodesFromHasNo(NodeTexts(w.nodes), 0, ']');
    }
    assert Split(inner, '|') == NodeTexts(w.nodes) by {
      forall k | 0 <= k < |w.nodes| ensures '|' !in NodeTexts(w.nodes)[k] {
        NodeTextHasNo(w.nodes[k], k, '|');
      }
      SplitJoin(NodeTexts(w.nodes), '|');
    }
  }

  /** A space and a list token `l:[inner]`, at the end of a line. */
  lemma SpacedList(tail: string, l: string, inner: string)
    requires tail == " " + (l + ":[" + inner + "]") && IsWord(l) && |inner| > 0 && ']' !in inner
    ensures ParseLine(tail) == [LinePart(l + ":[" + inner + "]", Some(l), inner)]
  {
    assert tail == " " + TokText(TaggedList(l, inner)) + "";
    ParseSpaceTok(TaggedList(l, inner), "");
    assert ParseLine("") == [];
  }

  /** A wire line with a non-empty node list labelled `l` reads as three parts. */
  lemma WireTokens(s: string, w0: string, id: string, l: string, inner: string)
    requires s == w0 + (" " + id + (" " + (l + ":[" + inner + "]")))
    requires IsPlain(w0) && IsPlain(id) && IsWord(l) && |inner| > 0 && ']' !in inner
    ensures ParseLine(s) == [LinePart(w0, None, w0), LinePart(id, None, id), LinePart(l + ":[" + inner + "]", Some(l), inner)]
  {
    var tail := " " + (l + ":[" + inner + "]");
    var rest := " " + id + tail;
    assert ParseLine(s) == [LinePart(w0, None, w0)] + ParseLine(rest) by {
      ParseTok(Bare(w0), rest);
    }
    assert ParseLine(rest) == [LinePart(id, None, id)] + ParseLine(tail) by {
      ParseSpaceTok(Bare(id), tail);
    }
    SpacedList(tail, l, inner);
  }

  /** A space and the empty list `l:[]`, which reads as the bare word `l`. */
  lemma SpacedEmptyList(tail: string, l: string)
    requires tail == " " + (l + ":[]") && IsWord(l)
    ensures ParseLine(tail) == [LinePart(l, None, l)]
  {
    EmptyListMatch(l);
    assert (l + ":[]")[0] == l[0];
    WordIsNotWs(l[0]);
    ParseSpace(l + ":[]");
    EmptyListIsBare(l);
  }

  lemma SpacedIdEmptyList(rest: string, id: string, l: string)
    requires rest == " " + id + (" " + (l + ":[]")) && IsPlain(id) && IsWord(l)
    ensures ParseLine(rest) == [LinePart(id, None, id), LinePart(l, None, l)]
  {
    var tail := " " + (l + ":[]");
    SpacedEmptyList(tail, l);
    assert ValidTok(Bare(id));
    ParseSpaceTok(Bare(id), tail);
  }

  lemma EmptyWireTokens(s: string, w0: string, id: string, l: string)
    requires s == w0 + (" " + id + (" " + (l + ":[]"))) && IsPlain(w0) && IsPlain(id) && IsWord(l)
    ensures ParseLine(s) == [LinePart(w0, None, w0), LinePart(id, None, id), LinePart(l, None, l)]
  {
    var rest := " " + id + (" " + (l + ":[]"));
    assert ParseLine(s) == [LinePart(w0, None, w0)] + ParseLine(rest) by {
      ParseTok(Bare(w0), rest);
    }
    SpacedIdEmptyList(rest, id, l);
  }

  lemma WireShape(id: string, inner: string)
    ensures "W " + id + " ns:[" + inner + "]" == "W" + (" " + id + (" " + ("ns" + ":[" + inner + "]")))
  {
    assert "W " == "W" + " ";
    assert " ns:[" == " " + "ns" + ":[";
  }

  lemma WireLineText(w: WireGraph)
    ensures WireLine(w) == "W" + (" " + w.id + (" " + ("ns" + ":[" + NodesFrom(NodeTexts(w.nodes), 0) + "]")))
  {
    WireShape(w.id, NodesFrom(NodeTexts(w.nodes), 0));
  }

  lemma WireLineShape(w: WireGraph)
    requires |w.nodes| > 0 && IsPlain(w.id) && RefsSafe(w.nodes)
    ensures var inner := NodesFrom(NodeTexts(w.nodes), 0);
            && WireLine(w) == "W" + (" " + w.id + (" " + ("ns" + ":[" + inner + "]")))
            && IsWord("ns") && |inner| > 0 && ']' !in inner
  {
    assert |NodesFrom(NodeTexts(w.nodes), 0)| > 0 && ']' !in NodesFrom(NodeTexts(w.nodes), 0) by {
      NodeListToken(w);
    }
    WireLineText(w);
    assert IsWord("ns");
  }

  /** The parts of the line of a wire with nodes. */
  lemma WireLineParts(w: WireGraph)
    requires |w.nodes| > 0 && IsPlain(w.id) && RefsSafe(w.nodes)
    ensures var inner := NodesFrom(NodeTexts(w.nodes), 0);
            ParseLine(WireLine(w))
            == [LinePart("W", None, "W"), LinePart(w.id, None, w.id), LinePart("ns" + ":[" + inner + "]", Some("ns"), inner)]
  {
    WireLineShape(w);
    assert IsPlain("W");
    WireTokens(WireLine(w), "W", w.id, "ns", NodesFrom(NodeTexts(w.nodes), 0));
  }

  lemma EmptyWireLineShape(w: WireGraph)
    requires |w.nodes| == 0
    ensures WireLine(w) == "W" + (" " + w.id + (" " + ("ns" + ":[]"))) && IsWord("ns")
  {
    WireLineText(w);
    assert NodesFrom(NodeTexts(w.nodes), 0) == "";
    assert "ns" + ":[" + "" + "]" == "ns" + ":[]";
    assert IsWord("ns");
  }

  /** The parts of the line of a wire without nodes. */
  lemma EmptyWireLineParts(w: WireGraph)
    requires |w.nodes| == 0 && IsPlain(w.id)
    ensures ParseLine(WireLine(w)) == [LinePart("W", None, "W"), LinePart(w.id, None, w.id), LinePart("ns", None, "ns")]
  {
    EmptyWireLineShape(w);
    assert IsPlain("W");
    EmptyWireTokens(WireLine(w), "W", w.id, "ns");
  }

  /** The line of a wire decodes, without a message, to that wire in
      canonical form. */
  lemma WireDecodes(w: WireGraph)
    requires WireSafe(w)
    ensures DecodeWire(ParseLine(WireLine(w))) == LineOut([], [], [CanonWire(w)])
  {
    var parts := ParseLine(WireLine(w));
    if |w.nodes| == 0 {
      EmptyWireLineParts(w);
      WireWithoutNodes(parts);
    } else {
      var inner := NodesFrom(NodeTexts(w.nodes), 0);
      WireLineParts(w);
      assert DecodeNsParts(WireAcc([], []), parts) == WireAcc(CanonNodes(w.nodes), []) by {
        assert DecodeNsParts(WireAcc([], []), parts) == DecodeNsParts(WireAcc([], []), parts[2..]) by {
          assert DecodeNsParts(WireAcc([], []), parts) == DecodeNsParts(WireAcc([], []), parts[1..]);
          assert parts[1..][1..] == parts[2..];
        }
        assert DecodeNsParts(WireAcc([], []), parts[2..]) == DecodeNodes(WireAcc([], []), Map(Split(inner, '|'), DecodeNode)) by {
          assert parts[2..][1..] == [];
        }
        NodeListToken(w);
        NodesDecode(w.nodes);
      }
    }
  }

  /** Neither end of a line of the export is whitespace, and it is not
      skipped. */
  lemma KeptLine(s: string, first: char)
    requires |s| > 0 && s[0] == first && !IsWs(first) && first != '#' && !IsWs(s[|s| - 1])
    ensures Trim(s) == s && !Skipped(s)
  {
    TrimKeeps(s);
  }

  lemma WireLineDecodes(w: WireGraph)
    requires WireSafe(w)
    ensures DecodeLine(WireLine(w)) == LineOut([], [], [CanonWire(w)])
  {
    var s := WireLine(w);
    assert Trim(s) == s && !Skipped(s) by {
      KeptLine(s, 'W');
    }
    assert |ParseLine(s)| > 0 && ParseLine(s)[0].text == "W" by {
      if |w.nodes| == 0 { EmptyWireLineParts(w); } else { WireLineParts(w); }
    }
    RoutesWire(s);
    WireDecodes(w);
  }

  // ---------------------------------------------------------------------
  // Component lines.

  /** A space and a labelled token `l:v`, at the end of a line. */
  lemma SpacedTagged(tail: string, l: string, v: string)
    requires tail == " " + (l + ":" + v) && IsWord(l) && IsPlain(v)
    ensures ParseLine(tail) == [LinePart(l + ":" + v, Some(l), v)]
  {
    assert tail == " " + TokText(Tagged(l, v)) + "";
    ParseSpaceTok(Tagged(l, v), "");
    assert ParseLine("") == [];
  }

  /** A bare first token, then the rest of the line. */
  lemma BareThen(t: string, rest: string)
    requires IsPlain(t) && |rest| > 0 && rest[0] == ' '
    ensures ParseLine(t + rest) == [LinePart(t, None, t)] + ParseLine(rest)
  {
    ParseTok(Bare(t), rest);
  }

  /** The last two parts of a component line. */
  lemma SpacedDefTagged(tail: string, defId: string, l: string, v: string)
    requires tail == " " + defId + (" " + (l + ":" + v)) && IsPlain(defId) && IsWord(l) && IsPlain(v)
    ensures ParseLine(tail) == [LinePart(defId, None, defId), LinePart(l + ":" + v, Some(l), v)]
  {
    var r3 := " " + (l + ":" + v);
    assert ParseLine(tail) == [LinePart(defId, None, defId)] + ParseLine(r3) by {
      ParseSpaceTok(Bare(defId), r3);
    }
    SpacedTagged(r3, l, v);
  }

  /** The last three parts of a component line. */
  lemma SpacedIdDefTagged(tail: string, id: string, defId: string, l: string, v: string)
    requires tail == " " + id + (" " + defId + (" " + (l + ":" + v)))
    requires IsPlain(id) && IsPlain(defId) && IsWord(l) && IsPlain(v)
    ensures ParseLine(tail) == [LinePart(id, None, id), LinePart(defId, None, defId), LinePart(l + ":" + v, Some(l), v)]
  {
    var r2 := " " + defId + (" " + (l + ":" + v));
    assert ParseLine(tail) == [LinePart(id, None, id)] + ParseLine(r2) by {
      ParseSpaceTok(Bare(id), r2);
    }
    SpacedDefTagged(r2, defId, l, v);
  }

  /** A component line reads as four parts. */
  lemma CompTokens(s: string, c0: string, id: string, defId: string, l: string, v: string)
    requires s == c0 + (" " + id + (" " + defId + (" " + (l + ":" + v))))
    requires IsPlain(c0) && IsPlain(id) && IsPlain(defId) && IsWord(l) && IsPlain(v)
    ensures ParseLine(s) == [LinePart(c0, None, c0), LinePart(id, None, id), LinePart(defId, None, defId), LinePart(l + ":" + v, Some(l), v)]
  {
    var r1 := " " + id + (" " + defId + (" " + (l + ":" + v)));
    var p0 := LinePart(c0, None, c0);
    var ps := [LinePart(id, None, id), LinePart(defId, None, defId), LinePart(l + ":" + v, Some(l), v)];
    assert ParseLine(r1) == ps by {
      SpacedIdDefTagged(r1, id, defId, l, v);
    }
    assert ParseLine(s) == [p0] + ps by {
      BareThen(c0, r1);
    }
    Cons3(p0, ps);
  }

  lemma Cons3<T>(a: T, ps: seq<T>)
    requires |ps| == 3
    ensures [a] + ps == [a, ps[0], ps[1], ps[2]]
  {
  }

  /** The position of a component, as written. */
  function PosText(p: Vec2): string {
    IntToString(p.x) + "," + IntToString(p.y)
  }

  lemma CompShape(id: string, defId: string, pos: string)
    ensures "C " + id + " " + defId + " p:" + pos == "C" + (" " + id + (" " + defId + (" " + ("p" + ":" + pos))))
  {
    assert "C " == "C" + " ";
    assert " p:" == " " + "p" + ":";
  }

  lemma CompLineText(c: Comp)
    ensures CompLine(c) == "C" + (" " + c.id + (" " + c.defId + (" " + ("p" + ":" + PosText(c.pos)))))
  {
    var x, y := IntToString(c.pos.x), IntToString(c.pos.y);
    assert CompLine(c) == "C " + c.id + " " + c.defId + " p:" + (x + "," + y);
    CompShape(c.id, c.defId, x + "," + y);
  }

  /** A written position is one bare token. */
  lemma PosPlain(p: Vec2)
    ensures IsPlain(PosText(p))
  {
    var x, y := IntToString(p.x), IntToString(p.y);
    AllWeaken(x, IsNumeralChar, IsPlainChar);
    AllWeaken(y, IsNumeralChar, IsPlainChar);
    AllConcat(x, ",", IsPlainChar);
    AllConcat(x + ",", y, IsPlainChar);
  }

  /** A written position reads back as itself. */
  lemma PosDecodes(p: Vec2)
    ensures DecodePos(PosText(p)) == Ok(p)
  {
    var x, y := IntToString(p.x), IntToString(p.y);
    var ps := Split(PosText(p), ',');
    assert |ps| == 2 && ps[0] == x && ps[1] == y by {
      NumeralHasNo(p.x, ',');
      NumeralHasNo(p.y, ',');
      SplitAt(x, y, ',');
      SplitNoSep(y, ',');
    }
    JsParseFloatOfString(p.x);
    JsParseFloatOfString(p.y);
  }

  lemma CompLineParts(c: Comp)
    requires CompSafe(c)
    ensures ParseLine(CompLine(c))
            == [LinePart("C", None, "C"), LinePart(c.id, None, c.id), LinePart(c.defId, None, c.defId), LinePart("p" + ":" + PosText(c.pos), Some("p"), PosText(c.pos))]
  {
    CompLineText(c);
    PosPlain(c.pos);
    assert IsPlain("C") && IsWord("p");
    CompTokens(CompLine(c), "C", c.id, c.defId, "p", PosText(c.pos));
  }

  /** The parts of the line of a component decode, without a message, to that
      component in canonical form. */
  lemma CompDecodes(c: Comp)
    requires CompSafe(c)
    ensures DecodeComp(ParseLine(CompLine(c))) == LineOut([], [CanonComp(c)], [])
  {
    var parts := ParseLine(CompLine(c));
    CompLineParts(c);
    PosDecodes(c.pos);
    assert parts[3..] == [parts[3]];
    assert CompParts(c.id, c.defId, parts[3..][1..]) == LineOut([], [], []) by {
      assert parts[3..][1..] == [];
    }
  }

  lemma CompLineDecodes(c: Comp)
    requires CompSafe(c)
    ensures DecodeLine(CompLine(c)) == LineOut([], [CanonComp(c)], [])
  {
    var s := CompLine(c);
    assert Trim(s) == s && !Skipped(s) by {
      assert |s| > 0 && s[0] == 'C' && !IsWs(s[|s| - 1]) by {
        CompLineText(c);
        var y := IntToString(c.pos.y);
        assert s[|s| - 1] == y[|y| - 1];
      }
      KeptLine(s, 'C');
    }
    assert |ParseLine(s)| > 0 && ParseLine(s)[0].text == "C" by {
      CompLineParts(c);
    }
    assert DecodeComp(ParseLine(s)) == LineOut([], [CanonComp(c)], []) by {
      CompDecodes(c);
    }
    DecodesAsComp(s, LineOut([], [CanonComp(c)], []));
  }

  /** A kept line whose first part is `C` goes to the component decoder. */
  lemma DecodesAsComp(s: string, out: LineOut)
    requires Trim(s) == s && !Skipped(s)
    requires |ParseLine(s)| > 0 && ParseLine(s)[0].text == "C"
    requires DecodeComp(ParseLine(s)) == out
    ensures DecodeLine(s) == out
  {
  }

  /** A kept line whose first part is `W` goes to the wire decoder. */
  lemma RoutesWire(s: string)
    requires Trim(s) == s && !Skipped(s)
    requires |ParseLine(s)| > 0 && ParseLine(s)[0].text == "W"
    ensures DecodeLine(s) == DecodeWire(ParseLine(s))
  {
  }

  // ---------------------------------------------------------------------
  // Whole files.

  /** The body decoded from its first line on. */
  lemma BodyCons(line: string, rest: seq<string>, idx: int)
    ensures var o := DecodeLine(line);
      var d := DecodeBody(rest, idx + 1);
      DecodeBody([line] + rest, idx) == Decoded(LineIssues(o.msgs, idx, line) + d.issues, o.comps + d.comps, o.wires + d.wires)
  {
    var lines := [line] + rest;
    assert lines[1..] == rest;
    assert Map(lines, DecodeLine)[1..] == Map(rest, DecodeLine);
  }

  /** What the line of component `c` contributes once read back. */
  function CompOut(c: Comp): LineOut { LineOut([], [CanonComp(c)], []) }

  /** What the line of wire `w` contributes once read back. */
  function WireOut(w: WireGraph): LineOut { LineOut([], [], [CanonWire(w)]) }

  lemma {:induction false} AssembleComps(comps: seq<Comp>, lines: seq<string>, idx: int)
    requires |lines| == |comps|
    ensures Assemble(Map(comps, CompOut), lines, idx) == Decoded([], Map(comps, CanonComp), [])
  {
    if |comps| > 0 {
      assert Map(comps, CompOut)[1..] == Map(comps[1..], CompOut);
      assert Map(comps, CanonComp) == [CanonComp(comps[0])] + Map(comps[1..], CanonComp);
      AssembleComps(comps[1..], lines[1..], idx + 1);
    }
  }

  lemma {:induction false} AssembleWires(wires: seq<WireGraph>, lines: seq<string>, idx: int)
    requires |lines| == |wires|
    ensures Assemble(Map(wires, WireOut), lines, idx) == Decoded([], [], Map(wires, CanonWire))
  {
    if |wires| > 0 {
      assert Map(wires, WireOut)[1..] == Map(wires[1..], WireOut);
      assert Map(wires, CanonWire) == [CanonWire(wires[0])] + Map(wires[1..], CanonWire);
      AssembleWires(wires[1..], lines[1..], idx + 1);
    }
  }

  /** Mapping with `f` then `g` is mapping with `h` when they agree on `xs`. */
  lemma MapThen<A, B, C>(xs: seq<A>, f: A -> B, g: B -> C, h: A -> C)
    requires forall k :: 0 <= k < |xs| ==> g(f(xs[k])) == h(xs[k])
    ensures Map(Map(xs, f), g) == Map(xs, h)
  {
  }

  /** The exported component lines read back, in order, without an issue. */
  lemma CompLinesDecode(comps: seq<Comp>, idx: int)
    requires forall k :: 0 <= k < |comps| ==> CompSafe(comps[k])
    ensures DecodeBody(Map(comps, CompLine), idx) == Decoded([], Map(comps, CanonComp), [])
  {
    forall k | 0 <= k < |comps| ensures DecodeLine(CompLine(comps[k])) == CompOut(comps[k]) {
      CompLineDecodes(comps[k]);
    }
    MapThen(comps, CompLine, DecodeLine, CompOut);
    AssembleComps(comps, Map(comps, CompLine), idx);
  }

  /** The exported wire lines read back, in order, without an issue. */
  lemma WireLinesDecode(wires: seq<WireGraph>, idx: int)
    requires forall k :: 0 <= k < |wires| ==> WireSafe(wires[k])
    ensures DecodeBody(Map(wires, WireLine), idx) == Decoded([], [], Map(wires, CanonWire))
  {
    forall k | 0 <= k < |wires| ensures DecodeLine(WireLine(wires[k])) == WireOut(wires[k]) {
      WireLineDecodes(wires[k]);
    }
    MapThen(wires, WireLine, DecodeLine, WireOut);
    AssembleWires(wires, Map(wires, WireLine), idx);
  }

  /** Safe identifiers hold no line break. */
  lemma SafeAvoidsNewline(layout: Layout)
    requires SafeLayout(layout)
    ensures LayoutAvoids(layout, '\n')
  {
    forall k | 0 <= k < |layout.comps|
      ensures '\n' !in layout.comps[k].id && '\n' !in layout.comps[k].defId
    {
      NotInAll(layout.comps[k].id, IsPlainChar, '\n');
      NotInAll(layout.comps[k].defId, IsPlainChar, '\n');
    }
    forall k | 0 <= k < |layout.wires| ensures WireAvoids(layout.wires[k], '\n') {
      var w := layout.wires[k];
      NotInAll(w.id, IsPlainChar, '\n');
      forall m | 0 <= m < |w.nodes| ensures RefAvoids(w.nodes[m].ref, '\n') {
        var r := w.nodes[m].ref;
        if r.CompNodeRef? {
          NotInAll(r.id, IsPortChar, '\n');
          NotInAll(r.compNodeId, IsPortChar, '\n');
        }
      }
    }
  }

  /** The header passes both checks of the importer. */
  lemma HeaderAccepted()
    ensures StartsWith(Header, HeaderTag) && Version(Header) == Some(1)
  {
    assert Header == "#wire-schema " + "1";
    VersionOf("1");
    JsParseIntOfString(1, "");
    assert IntToString(1) + "" == "1";
  }

  lemma HeaderSkipped()
    ensures Skipped(Trim(Header))
  {
    TrimKeeps(Header);
  }

  /** Lines `cls` and lines `wls` that raise nothing, then a skipped last line. */
  lemma QuietBody(cls: seq<string>, wls: seq<string>, e: string)
    requires Skipped(Trim(e))
    requires DecodeBody(cls, 1).issues == [] && DecodeBody(cls, 1).wires == []
    requires DecodeBody(wls, 1 + |cls|).issues == [] && DecodeBody(wls, 1 + |cls|).comps == []
    ensures DecodeBody(cls + (wls + [e]), 1) == Decoded([], DecodeBody(cls, 1).comps, DecodeBody(wls, 1 + |cls|).wires)
  {
    var dc := DecodeBody(cls, 1);
    var dw := DecodeBody(wls, 1 + |cls|);
    assert DecodeBody(wls + [e], 1 + |cls|) == dw by {
      SkippedLast(wls, e, 1 + |cls|);
    }
    assert DecodeBody(cls + (wls + [e]), 1) == Decoded(dc.issues + dw.issues, dc.comps + dw.comps, dc.wires + dw.wires) by {
      BodyAppend(cls, wls + [e], 1);
    }
    assert dc.issues + dw.issues == [] && dc.comps + dw.comps == dc.comps && dc.wires + dw.wires == dw.wires;
  }

  /** The same lines after a skipped first line. */
  lemma QuietFile(h: string, cls: seq<string>, wls: seq<string>, e: string)
    requires Skipped(Trim(h)) && Skipped(Trim(e))
    requires DecodeBody(cls, 1).issues == [] && DecodeBody(cls, 1).wires == []
    requires DecodeBody(wls, 1 + |cls|).issues == [] && DecodeBody(wls, 1 + |cls|).comps == []
    ensures DecodeBody([h] + (cls + (wls + [e])), 0) == Decoded([], DecodeBody(cls, 1).comps, DecodeBody(wls, 1 + |cls|).wires)
  {
    SkippedLine(h, cls + (wls + [e]), 0);
    QuietBody(cls, wls, e);
  }

  /** A skipped last line adds nothing. */
  lemma SkippedLast(lines: seq<string>, raw: string, idx: int)
    requires Skipped(Trim(raw))
    ensures DecodeBody(lines + [raw], idx) == DecodeBody(lines, idx)
  {
    assert DecodeBody([raw], idx + |lines|) == Decoded([], [], []) by {
      SkippedLine(raw, [], idx + |lines|);
      assert [raw] + [] == [raw];
    }
    BodyAppend(lines, [raw], idx);
  }

  /** The lines of an exported file, grouped as the importer walks them. */
  lemma FileLines(layout: Layout)
    requires SafeLayout(layout)
    ensures Split(ExportData(layout), '\n')
         == [Header] + (Map(layout.comps, CompLine) + (Map(layout.wires, WireLine) + [""]))
  {
    var cls := Map(layout.comps, CompLine);
    var wls := Map(layout.wires, WireLine);
    SafeAvoidsNewline(layout);
    ExportLines(layout);
    Regroup(Header, cls, wls, "");
  }

  /** The body of an exported file reads back as the canonical form of the
      layout, without an issue. */
  lemma FileDecodes(layout: Layout)
    requires SafeLayout(layout)
    ensures Split(ExportData(layout), '\n')[0] == Header
    ensures DecodeBody(Split(ExportData(layout), '\n'), 0) == Decoded([], Map(layout.comps, CanonComp), Map(layout.wires, CanonWire))
  {
    var cls := Map(layout.comps, CompLine);
    var wls := Map(layout.wires, WireLine);
    FileLines(layout);
    assert DecodeBody(cls, 1) == Decoded([], Map(layout.comps, CanonComp), []) by {
      CompLinesDecode(layout.comps, 1);
    }
    assert DecodeBody(wls, 1 + |cls|) == Decoded([], [], Map(layout.wires, CanonWire)) by {
      WireLinesDecode(layout.wires, 1 + |cls|);
    }
    HeaderSkipped();
    assert Skipped(Trim(""));
    QuietFile(Header, cls, wls, "");
  }

  /** A node prints the same once read back: its back-edges are already
      back-edges, and a reference that prints nothing reads back as none. */
  lemma CanonNodeText(n: WireNode, j: int)
    ensures NodeText(CanonNode(n, j), j) == NodeText(n, j)
  {
    BackEdgesMeaning(n.edges, j);
    BackEdgesMeaning(BackEdges(n.edges, j), j);
  }

  lemma CanonWireLine(w: WireGraph)
    ensures WireLine(CanonWire(w)) == WireLine(w)
  {
    var ns := CanonNodes(w.nodes);
    if |w.nodes| > 0 {
      forall k | 0 <= k < |ns| ensures NodeTexts(ns)[k] == NodeTexts(w.nodes)[k] {
        CanonNodeText(w.nodes[k], k);
      }
      assert NodeTexts(ns) == NodeTexts(w.nodes);
    }
  }

  /** The canonical form of a layout exports to the same text as the layout. */
  lemma CanonExports(layout: Layout)
    ensures ExportData(Canon(layout)) == ExportData(layout)
  {
    var c := Canon(layout);
    assert Map(c.comps, CompLine) == Map(layout.comps, CompLine);
    forall k | 0 <= k < |layout.wires| ensures WireLine(c.wires[k]) == WireLine(layout.wires[k]) {
      CanonWireLine(layout.wires[k]);
    }
    assert Map(c.wires, WireLine) == Map(layout.wires, WireLine);
  }

  /** Exporting a layout whose identifiers are safe and importing the text
      raises no issue at all, the final self-check included, and the layout
      read back is the canonical form of the one exported. */
  lemma ImportOfExport(layout: Layout)
    requires SafeLayout(layout)
    ensures ImportData(ExportData(layout)) == ImportResult(None)
    ensures DecodedLayout(ExportData(layout)) == Canon(layout)
  {
    var str := ExportData(layout);
    FileDecodes(layout);
    HeaderAccepted();
    CanonExports(layout);
    ImportClean(str);
  }
}
