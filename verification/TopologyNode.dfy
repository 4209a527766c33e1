/** A node of the topology graph; the links between nodes are references. */
module TopologyNode {
  import opened Bytes

  class Node {
    const addr: Byte
    var children: map<Byte, Node>
    var parent: Node?
    var portId: Byte
    var portName: string
    var depth: Byte

    constructor (addr: Byte, parent: Node?)
      ensures this.addr == addr && this.parent == parent && children == map[] && depth == 0
    {
      this.addr := addr;
      this.parent := parent;
      children := map[];
      depth := 0;
      portId, portName := 0, "";
    }
  }
}
