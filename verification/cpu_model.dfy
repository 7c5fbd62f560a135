/**
 * The parts of the CPU layout model that the wire-schema codec reads and
 * writes. Positions are integral 2D points; the third coordinate of the
 * original vector type plays no part in the text format.
 */
module CpuModel {

  datatype Vec2 = Vec2(x: int, y: int)

  /** What a wire node is attached to. `NoRef` is an absent reference;
      `OtherRef` stands for every reference kind other than a component port,
      none of which the text format can express. */
  datatype ElRef =
    | NoRef
    | CompNodeRef(id: string, compNodeId: string)
    | OtherRef(id: string)

  /** A placed component. `ports` are filled in by placement logic outside
      the codec; only their identifiers are kept here. */
  datatype Comp = Comp(id: string, name: string, defId: string, pos: Vec2, size: Vec2, ports: seq<string>)

  /** A node of a wire graph; `edges` index earlier nodes of the same wire. */
  datatype WireNode = WireNode(id: int, pos: Vec2, edges: seq<int>, ref: ElRef)

  datatype WireGraph = WireGraph(id: string, nodes: seq<WireNode>)

  datatype Layout = Layout(comps: seq<Comp>, wires: seq<WireGraph>, nextWireId: int, nextCompId: int)
}
