/**
 The value records of the gossip protocol: a node's identity, a versioned
 heartbeat and the envelope the transport carries.
 */
module GossipTypes {

  /** A cluster member: a stable id, the address the transport contacts it at,
      and its capability tags. */
  datatype Node = Node(id: string, uri: string, capabilities: seq<string>)

  /** A liveness announcement. `version` is assigned by the owning node;
      `receivedAt` is the receiving agent's clock reading in nanoseconds and is
      never part of the wire form. */
  datatype Heartbeat = Heartbeat(node: Node, version: int, receivedAt: int)

  /** The transport unit: the sending agent's id, the destination address and
      the heartbeat it carries. */
  datatype Message = Message(sender: string, destination: string, heartbeat: Heartbeat)
}
