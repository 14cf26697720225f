/**
 Client code that drives one agent through the protocol's everyday events and
 states what the contracts of `GossipAgent.Agent` let a caller conclude.
 */
module GossipScenarios {
  import opened GossipTypes
  import opened Membership
  import opened Dissemination
  import opened GossipAgent

  /** Agent "a" alone: a tick, then node "b" announces version 1, repeats it,
      announces version 2, and falls silent until its entry outlives the
      time-to-live. */
  method PeerLifecycle() returns (version: int, added: seq<Node>, removed: seq<Node>, sent: seq<Message>)
    ensures version == 3
    ensures added == [Node("b", "udp://b", [])]
    ensures removed == [Node("b", "udp://b", [])]
    ensures sent == []
  {
    var a := new Agent("a", "udp://a", []);
    LonelyTick(a);
    LearnPeer(a);
    IgnoreRepeat(a);
    AcceptNewer(a);
    ForgetSilentPeer(a);
    version, added, removed, sent := a.version, a.nodeAdded, a.nodeRemoved, a.outbox;
  }

  /** A tick with no peers: the version goes from 1 to 2 and nothing is sent. */
  method LonelyTick(a: Agent)
    requires a.Valid() && a.self.id == "a"
    requires a.table == map[] && a.version == 1 && a.outbox == [] && a.nodeRemoved == []
    modifies a
    ensures a.Valid()
    ensures a.table == map[] && a.version == 2 && a.outbox == [] && a.nodeRemoved == []
    ensures a.nodeAdded == old(a.nodeAdded)
  {
    assert Evict(map[], 0) == map[];
    ghost var evicted, targets := a.Tick(0);
    assert targets == [];
  }

  /** The first heartbeat of "b": stored, reported as added, and not echoed back to "b". */
  method LearnPeer(a: Agent)
    requires a.Valid() && a.self.id == "a"
    requires a.table == map[] && a.nodeAdded == [] && a.outbox == []
    modifies a
    ensures a.Valid()
    ensures a.table == map["b" := Heartbeat(Node("b", "udp://b", []), 1, 1)]
    ensures a.nodeAdded == [Node("b", "udp://b", [])] && a.outbox == []
    ensures a.version == old(a.version) && a.nodeRemoved == old(a.nodeRemoved)
  {
    var b := Node("b", "udp://b", []);
    ghost var targets := a.Receive(Message("b", "udp://a", Heartbeat(b, 1, 0)), 1);
    assert targets[0].id in a.table;
    assert targets == [b];
  }

  /** The same version again: ignored, and the stored arrival time is not refreshed. */
  method IgnoreRepeat(a: Agent)
    requires a.Valid() && a.self.id == "a"
    requires a.table == map["b" := Heartbeat(Node("b", "udp://b", []), 1, 1)]
    modifies a
    ensures a.Valid()
    ensures a.table == old(a.table) && a.nodeAdded == old(a.nodeAdded) && a.outbox == old(a.outbox)
    ensures a.version == old(a.version) && a.nodeRemoved == old(a.nodeRemoved)
  {
    var b := Node("b", "udp://b", []);
    ghost var targets := a.Receive(Message("b", "udp://a", Heartbeat(b, 1, 0)), 2);
  }

  /** A newer version: stored, not reported as added, and again not echoed to "b". */
  method AcceptNewer(a: Agent)
    requires a.Valid() && a.self.id == "a"
    requires a.table == map["b" := Heartbeat(Node("b", "udp://b", []), 1, 1)]
    modifies a
    ensures a.Valid()
    ensures a.table == map["b" := Heartbeat(Node("b", "udp://b", []), 2, 3)]
    ensures a.nodeAdded == old(a.nodeAdded) && a.outbox == old(a.outbox)
    ensures a.version == old(a.version) && a.nodeRemoved == old(a.nodeRemoved)
  {
    var b := Node("b", "udp://b", []);
    ghost var targets := a.Receive(Message("b", "udp://a", Heartbeat(b, 2, 0)), 3);
    assert targets[0].id in a.table;
    assert targets == [b];
  }

  /** One nanosecond past the time-to-live: "b" is evicted and reported as removed. */
  method ForgetSilentPeer(a: Agent)
    requires a.Valid() && a.self.id == "a"
    requires a.table == map["b" := Heartbeat(Node("b", "udp://b", []), 2, 3)] && a.nodeRemoved == []
    modifies a
    ensures a.Valid()
    ensures a.table == map[] && a.nodeRemoved == [Node("b", "udp://b", [])]
    ensures a.version == old(a.version) + 1
    ensures a.nodeAdded == old(a.nodeAdded) && a.outbox == old(a.outbox)
  {
    var later := 3 + NodeTimeToLive + 1;
    assert ExpiredIds(a.table, later) == {"b"};
    assert Evict(a.table, later) == map[];
    ghost var evicted, targets := a.Tick(later);
    assert "b" in evicted;
    assert evicted[0] == "b";
    assert |evicted| == 1;
    assert evicted == ["b"];
    assert targets == [];
  }

  /** Joining through two seeds, one of them the agent's own address: only the
      other seed is contacted, with the agent's current heartbeat. */
  method JoinSkipsOwnAddress() returns (sent: seq<Message>)
    ensures sent == [Message("a", "udp://c", Heartbeat(Node("a", "udp://a", []), 1, ZeroTime))]
  {
    var a := new Agent("a", "udp://a", []);
    a.Join(["udp://a", "udp://c"]);
    sent := a.outbox;
  }
}
