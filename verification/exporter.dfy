/**
 * The wire-schema serialiser: a header line, one `C` line per component and
 * one `W` line per wire, each terminated by a newline.
 */
module Exporter {
  import opened Text
  import opened Decimal
  import opened CpuModel

  const Header: string := "#wire-schema 1"

  /** The back-edges export writes for node `j`: the stored edges below `j`,
      in stored order. */
  function BackEdges(edges: seq<int>, j: int): (r: seq<int>)
    ensures |r| <= |edges|
  {
    if |edges| == 0 then [] else (if edges[0] < j then [edges[0]] else []) + BackEdges(edges[1..], j)
  }

  /** The kept edges are exactly the edges below `j`; when every edge is below
      `j` nothing is dropped. */
  lemma {:induction false} BackEdgesMeaning(edges: seq<int>, j: int)
    ensures forall k :: 0 <= k < |BackEdges(edges, j)| ==> BackEdges(edges, j)[k] < j
    ensures forall e :: (e in edges && e < j) <==> e in BackEdges(edges, j)
    ensures (forall k :: 0 <= k < |edges| ==> edges[k] < j) ==> BackEdges(edges, j) == edges
  {
    if |edges| > 0 {
      BackEdgesMeaning(edges[1..], j);
      assert edges == [edges[0]] + edges[1..];
    }
  }

  /** Filtering distributes over concatenation, so the kept edges keep their order. */
  lemma {:induction false} BackEdgesAppend(a: seq<int>, b: seq<int>, j: int)
    ensures BackEdges(a + b, j) == BackEdges(a, j) + BackEdges(b, j)
  {
    if |a| > 0 {
      assert (a + b)[1..] == a[1..] + b;
      BackEdgesAppend(a[1..], b, j);
    } else {
      assert a + b == b;
    }
  }

  function Numerals(xs: seq<int>): seq<string> {
    seq(|xs|, k requires 0 <= k < |xs| => IntToString(xs[k]))
  }

  /** `x,y` followed by the back-edges of node `j`, comma-separated. */
  function NumbersText(n: WireNode, j: int): string {
    Join(Numerals([n.pos.x, n.pos.y] + BackEdges(n.edges, j)), ',')
  }

  /** ` p:<component>/<port>` for a component-port reference, nothing otherwise. */
  function RefSuffix(ref: ElRef): string {
    match ref
    case CompNodeRef(id, port) => " p:" + id + "/" + port
    case _ => ""
  }

  /** The descriptor of the node at position `j` of its wire. */
  function NodeText(n: WireNode, j: int): string {
    NumbersText(n, j) + RefSuffix(n.ref)
  }

  /** The node list from descriptor `j` on, each descriptor but the first
      preceded by `|`. */
  function NodesFrom(texts: seq<string>, j: nat): string
    requires j <= |texts|
    decreases |texts| - j
  {
    if j == |texts| then ""
    else (if j > 0 then "|" else "") + texts[j] + NodesFrom(texts, j + 1)
  }

  function CompLine(c: Comp): string {
    "C " + c.id + " " + c.defId + " p:" + IntToString(c.pos.x) + "," + IntToString(c.pos.y)
  }

  function WireLine(w: WireGraph): string {
    "W " + w.id + " ns:[" + NodesFrom(NodeTexts(w.nodes), 0) + "]"
  }

  /** The whole file; export never fails and reads nothing but its argument. */
  function ExportData(layout: Layout): string {
    Header + "\n" + (Terminated(Map(layout.comps, CompLine), '\n') + Terminated(Map(layout.wires, WireLine), '\n'))
  }

  /** The descriptors of all nodes of a wire, in order. */
  function NodeTexts(nodes: seq<WireNode>): (r: seq<string>)
    ensures |r| == |nodes|
  {
    seq(|nodes|, k requires 0 <= k < |nodes| => NodeText(nodes[k], k))
  }

  /** Past the first descriptor, every descriptor is introduced by a `|`. */
  lemma {:induction false} NodesFromTail(texts: seq<string>, j: nat)
    requires 0 < j < |texts|
    ensures NodesFrom(texts, j) == "|" + Join(texts[j..], '|')
    decreases |texts| - j
  {
    var ts := texts[j..];
    assert ts[0] == texts[j];
    if j + 1 < |texts| {
      assert ts[1..] == texts[j + 1..];
      assert Join(ts, '|') == texts[j] + ['|'] + Join(texts[j + 1..], '|');
      NodesFromTail(texts, j + 1);
    } else {
      assert |ts| == 1;
      assert NodesFrom(texts, j + 1) == "";
    }
  }

  /** The bracketed node list is the node descriptors joined by `|`. */
  lemma NodesFromIsJoin(texts: seq<string>)
    requires |texts| > 0
    ensures NodesFrom(texts, 0) == Join(texts, '|')
  {
    assert NodesFrom(texts, 0) == texts[0] + NodesFrom(texts, 1);
    if |texts| > 1 {
      NodesFromTail(texts, 1);
      assert Join(texts, '|') == texts[0] + ['|'] + Join(texts[1..], '|');
    } else {
      assert NodesFrom(texts, 1) == "";
    }
  }

  /** Descriptors holding no character `c` (other than `|`) give a node list without `c`. */
  lemma {:induction false} NodesFromHasNo(texts: seq<string>, j: nat, c: char)
    requires j <= |texts| && c != '|'
    requires forall k :: j <= k < |texts| ==> c !in texts[k]
    ensures c !in NodesFrom(texts, j)
    decreases |texts| - j
  {
    if j < |texts| {
      NodesFromHasNo(texts, j + 1, c);
    }
  }

  /** The identifiers of a component-port reference avoid `c`. */
  predicate RefAvoids(ref: ElRef, c: char) {
    ref.CompNodeRef? ==> c !in ref.id && c !in ref.compNodeId
  }

  /** Every identifier of the layout avoids `c`. */
  predicate LayoutAvoids(layout: Layout, c: char) {
    && (forall k :: 0 <= k < |layout.comps| ==> c !in layout.comps[k].id && c !in layout.comps[k].defId)
    && (forall k :: 0 <= k < |layout.wires| ==> WireAvoids(layout.wires[k], c))
  }

  predicate WireAvoids(w: WireGraph, c: char) {
    c !in w.id && forall m :: 0 <= m < |w.nodes| ==> RefAvoids(w.nodes[m].ref, c)
  }

  lemma NumbersTextHasNo(n: WireNode, j: int, c: char)
    requires !IsNumeralChar(c) && c != ','
    ensures c !in NumbersText(n, j)
  {
    var xs := [n.pos.x, n.pos.y] + BackEdges(n.edges, j);
    forall k | 0 <= k < |xs| ensures c !in Numerals(xs)[k] {
      NumeralHasNo(xs[k], c);
    }
    JoinHasNo(Numerals(xs), ',', c);
  }

  /** A character outside the node grammar's own alphabet appears in a node list
      only if some identifier holds it. */
  lemma NodesTextHasNo(w: WireGraph, c: char)
    requires !IsNumeralChar(c) && c !in ",| p:/"
    requires WireAvoids(w, c)
    ensures c !in NodesFrom(NodeTexts(w.nodes), 0)
  {
    forall k | 0 <= k < |w.nodes| ensures c !in NodeTexts(w.nodes)[k] {
      NumbersTextHasNo(w.nodes[k], k, c);
    }
    NodesFromHasNo(NodeTexts(w.nodes), 0, c);
  }

  lemma WireLineHasNo(w: WireGraph, c: char)
    requires !IsNumeralChar(c) && c !in ",| p:/W[]ns"
    requires WireAvoids(w, c)
    ensures c !in WireLine(w)
  {
    NodesTextHasNo(w, c);
  }

  lemma CompLineHasNo(cm: Comp, c: char)
    requires !IsNumeralChar(c) && c !in ", p:C"
    requires c !in cm.id && c !in cm.defId
    ensures c !in CompLine(cm)
  {
    NumeralHasNo(cm.pos.x, c);
    NumeralHasNo(cm.pos.y, c);
  }

  lemma HeaderSplit(x: string)
    ensures Split(Header + "\n" + x, '\n') == [Header] + Split(x, '\n')
  {
    assert '\n' !in Header;
    SplitAt(Header, x, '\n');
  }

  lemma LinesHaveNoNewline(layout: Layout)
    requires LayoutAvoids(layout, '\n')
    ensures forall k :: 0 <= k < |layout.comps| ==> '\n' !in Map(layout.comps, CompLine)[k]
    ensures forall k :: 0 <= k < |layout.wires| ==> '\n' !in Map(layout.wires, WireLine)[k]
  {
    forall k | 0 <= k < |layout.comps| ensures '\n' !in Map(layout.comps, CompLine)[k] {
      CompLineHasNo(layout.comps[k], '\n');
    }
    forall k | 0 <= k < |layout.wires| ensures '\n' !in Map(layout.wires, WireLine)[k] {
      WireLineHasNo(layout.wires[k], '\n');
    }
  }

  /** The output has one header line, one line per component and one line per
      wire, in stored order, each ended by a newline (hence the final empty piece). */
  lemma ExportLines(layout: Layout)
    requires LayoutAvoids(layout, '\n')
    ensures Split(ExportData(layout), '\n')
         == [Header] + Map(layout.comps, CompLine) + Map(layout.wires, WireLine) + [""]
  {
    var cls := Map(layout.comps, CompLine);
    var wls := Map(layout.wires, WireLine);
    var tw := Terminated(wls, '\n');
    assert Split(tw, '\n') == wls + [""] by {
      LinesHaveNoNewline(layout);
      SplitTerminated(wls, '\n', "");
      assert tw + "" == tw;
    }
    assert Split(Terminated(cls, '\n') + tw, '\n') == cls + (wls + [""]) by {
      LinesHaveNoNewline(layout);
      SplitTerminated(cls, '\n', tw);
    }
    HeaderSplit(Terminated(cls, '\n') + tw);
    Regroup(Header, cls, wls, "");
  }
}
