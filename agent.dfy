/**
 The gossip agent: the protocol engine that owns the membership table and the
 version counter. The transport's outgoing channel and the node-added and
 node-removed channels are sequences the agent appends to; the clock is the
 `now` argument of the two event handlers.
 */
module GossipAgent {
  import opened GossipTypes
  import opened Membership
  import opened Dissemination

  /** The `receivedAt` of a heartbeat the agent builds itself (Go's zero time). */
  const ZeroTime: int := 0

  class Agent {
    /** The agent's own identity. */
    const self: Node
    /** `heartbeatPerNode`. */
    var table: Table
    /** The version of the agent's own heartbeat. */
    var version: int
    /** Every envelope handed to the transport's send channel, oldest first. */
    var outbox: seq<Message>
    /** Every node-added notification, oldest first. */
    var nodeAdded: seq<Node>
    /** Every node-removed notification, oldest first. */
    var nodeRemoved: seq<Node>

    ghost predicate Valid()
      reads this
    {
      WellFormed(table, self.id)
    }

    /** `NewAgent`: an empty table and version 1. */
    constructor (id: string, uri: string, capabilities: seq<string>)
      ensures Valid()
      ensures self == Node(id, uri, capabilities)
      ensures table == map[] && version == 1
      ensures outbox == [] && nodeAdded == [] && nodeRemoved == []
    {
      self := Node(id, uri, capabilities);
      table := map[];
      version := 1;
      outbox := [];
      nodeAdded := [];
      nodeRemoved := [];
    }

    /** The node is unknown: no stored heartbeat belongs to it. */
    function IsNewNode(node: Node): (r: bool)
      reads this
      ensures Valid() ==> (r <==> forall id :: id in table ==> table[id].node.id != node.id)
    {
      node.id !in table
    }

    /** Offers one heartbeat to the table and reports whether it was stored. */
    method ProcessHeartbeat(heartbeat: Heartbeat) returns (updated: bool)
      requires Valid()
      modifies this`table
      ensures Valid()
      ensures updated == Accepts(old(table), self.id, heartbeat)
      ensures table == Update(old(table), self.id, heartbeat)
    {
      if heartbeat.node.id == self.id {
        return false;
      }
      if heartbeat.node.id !in table || table[heartbeat.node.id].version < heartbeat.version {
        table := table[heartbeat.node.id := heartbeat];
        return true;
      }
      return false;
    }

    /** The eviction sweep: removes every entry expired as of `now`, notifying each
        removed node once; `evicted` is the order the sweep visited them in. */
    method CleanupDeadNodes(now: int) returns (ghost evicted: seq<string>)
      requires Valid()
      modifies this`table, this`nodeRemoved
      ensures Valid()
      ensures table == Evict(old(table), now)
      ensures NoDuplicates(evicted)
      ensures forall id :: id in evicted <==> id in ExpiredIds(old(table), now)
      ensures forall i :: 0 <= i < |evicted| ==> evicted[i] in old(table)
      ensures nodeRemoved == old(nodeRemoved) + NodesAt(old(table), evicted)
      ensures |nodeRemoved| == |old(nodeRemoved)| + |old(table)| - |table|
    {
      ghost var t0 := table;
      var pending := table.Keys;
      evicted := [];
      while pending != {}
        invariant Sweeping(t0, now, pending, table, evicted)
        invariant nodeRemoved == old(nodeRemoved) + NodesAt(t0, evicted)
        decreases pending
      {
        var id :| id in pending;
        SweepStep(t0, now, pending, table, evicted, id);
        var heartbeat := table[id];
        var rest := pending - {id};
        if Expired(heartbeat, now) {
          assert Sweeping(t0, now, rest, table - {id}, evicted + [id]);
          RemovedStep(old(nodeRemoved), nodeRemoved, t0, evicted, id);
          table := table - {id};
          nodeRemoved := nodeRemoved + [heartbeat.node];
          evicted := evicted + [id];
        } else {
          assert Sweeping(t0, now, rest, table, evicted);
        }
        pending := rest;
      }
      SweepComplete(t0, now, table, evicted);
      EvictWellFormed(t0, self.id, now);
    }

    /** Lists the table's nodes, one per entry, in an unspecified order. */
    method GetActiveNodes() returns (nodes: seq<Node>)
      requires Valid()
      ensures ListsTable(table, nodes)
    {
      nodes := [];
      var pending := table.Keys;
      while pending != {}
        invariant pending <= table.Keys
        invariant |nodes| + |pending| == |table|
        invariant DistinctIds(nodes)
        invariant forall i :: 0 <= i < |nodes| ==>
                    nodes[i].id in table && nodes[i].id !in pending && table[nodes[i].id].node == nodes[i]
        invariant forall id :: id in table ==> id in pending || exists i :: 0 <= i < |nodes| && nodes[i].id == id
        decreases pending
      {
        var id :| id in pending;
        ghost var before := nodes;
        nodes := nodes + [table[id].node];
        assert forall i :: 0 <= i < |before| ==> nodes[i] == before[i];
        assert nodes[|before|].id == id;
        pending := pending - {id};
      }
    }

    /** Hands one envelope to the transport unless `destination` is the
        heartbeat's origin address; reports whether it did. */
    method SendHeartbeatTo(destination: string, heartbeat: Heartbeat) returns (sent: bool)
      modifies this`outbox
      ensures sent <==> destination != heartbeat.node.uri
      ensures outbox == old(outbox) + if sent then [Message(self.id, destination, heartbeat)] else []
    {
      if heartbeat.node.uri == destination {
        return false;
      }
      outbox := outbox + [Message(self.id, destination, heartbeat)];
      return true;
    }

    /** One fanout round of `heartbeat` over the current table; `targets` are the
        nodes it sent to (every node in a small table, `ContactRate` chosen ones
        otherwise). */
    method SendHeartbeat(heartbeat: Heartbeat) returns (ghost targets: seq<Node>)
      requires Valid()
      requires FanoutTerminates(table, heartbeat.node.uri)
      modifies this`outbox
      ensures Fanout(table, heartbeat.node.uri, targets)
      ensures outbox == old(outbox) + Envelopes(self.id, Without(UrisOf(targets), heartbeat.node.uri), heartbeat)
    {
      var nodes := GetActiveNodes();
      if |nodes| - 1 <= ContactRate {
        SendToAll(nodes, heartbeat);
        targets := nodes;
      } else {
        ListedEligible(table, nodes, heartbeat.node.uri);
        targets := SendToSample(nodes, heartbeat);
      }
    }

    /** The small-table branch of `SendHeartbeat`: every listed node once, in order. */
    method SendToAll(nodes: seq<Node>, heartbeat: Heartbeat)
      modifies this`outbox
      ensures outbox == old(outbox) + Envelopes(self.id, Without(UrisOf(nodes), heartbeat.node.uri), heartbeat)
    {
      for n := 0 to |nodes|
        invariant outbox == old(outbox) + Envelopes(self.id, Without(UrisOf(nodes)[..n], heartbeat.node.uri), heartbeat)
      {
        UrisOfAt(nodes, n);
        LogStep(old(outbox), outbox, self.id, UrisOf(nodes), n, heartbeat.node.uri, heartbeat);
        var _ := SendHeartbeatTo(nodes[n].uri, heartbeat);
      }
      assert UrisOf(nodes)[..|nodes|] == UrisOf(nodes);
    }

    /** The large-table branch of `SendHeartbeat`: random picks from `nodes` until
        `ContactRate` distinct nodes have been delivered to. */
    method SendToSample(nodes: seq<Node>, heartbeat: Heartbeat) returns (ghost targets: seq<Node>)
      requires |EligibleListed(nodes, heartbeat.node.uri)| >= ContactRate
      modifies this`outbox
      ensures |targets| == ContactRate && DistinctIds(targets)
      ensures forall i :: 0 <= i < |targets| ==> targets[i] in nodes && targets[i].uri != heartbeat.node.uri
      ensures outbox == old(outbox) + Envelopes(self.id, Without(UrisOf(targets), heartbeat.node.uri), heartbeat)
    {
      var origin := heartbeat.node.uri;
      var delivered: set<string> := {};
      targets := [];
      while |delivered| < ContactRate
        invariant Sampled(nodes, origin, delivered, targets)
        invariant |targets| <= ContactRate
        invariant outbox == old(outbox) + Envelopes(self.id, UrisOf(targets), heartbeat)
        decreases ContactRate - |delivered|
      {
        // rand.Intn: only the picks that deliver change anything, so the
        // choice ranges over undelivered nodes away from the origin address.
        PickExists(nodes, delivered, origin);
        var index :| 0 <= index < |nodes| && nodes[index].id !in delivered && nodes[index].uri != origin;
        var node := nodes[index];
        if node.id !in delivered {
          SampleLogStep(old(outbox), outbox, self.id, targets, node, heartbeat);
          var sent := SendHeartbeatTo(node.uri, heartbeat);
          if sent {
            SampledStep(nodes, origin, delivered, targets, index);
            delivered := delivered + {node.id};
            targets := targets + [node];
          }
        }
      }
      forall i | 0 <= i < |targets|
        ensures UrisOf(targets)[i] != origin
      {
        UrisOfAt(targets, i);
      }
      WithoutNoOrigin(UrisOf(targets), origin);
    }

    /** `Join`: sends the agent's current heartbeat straight to every seed address
        other than its own, in seed order. */
    method Join(seeds: seq<string>)
      modifies this`outbox
      ensures table == old(table) && version == old(version)
      ensures outbox == old(outbox) + Envelopes(self.id, Without(seeds, self.uri), Heartbeat(self, version, ZeroTime))
    {
      var heartbeat := Heartbeat(self, version, ZeroTime);
      for i := 0 to |seeds|
        invariant outbox == old(outbox) + Envelopes(self.id, Without(seeds[..i], self.uri), heartbeat)
      {
        LogStep(old(outbox), outbox, self.id, seeds, i, self.uri, heartbeat);
        if seeds[i] != self.uri {
          outbox := outbox + [Message(self.id, seeds[i], heartbeat)];
        }
      }
      assert seeds[..|seeds|] == seeds;
    }

    /** The tick branch of the run loop: bump the version, sweep, then gossip the
        agent's own heartbeat. */
    method Tick(now: int) returns (ghost evicted: seq<string>, ghost targets: seq<Node>)
      requires Valid()
      requires FanoutTerminates(Evict(table, now), self.uri)
      modifies this`version, this`table, this`nodeRemoved, this`outbox
      ensures Valid()
      ensures version == old(version) + 1
      ensures table == Evict(old(table), now)
      ensures NoDuplicates(evicted)
      ensures forall id :: id in evicted <==> id in ExpiredIds(old(table), now)
      ensures forall i :: 0 <= i < |evicted| ==> evicted[i] in old(table)
      ensures nodeRemoved == old(nodeRemoved) + NodesAt(old(table), evicted)
      ensures |nodeRemoved| == |old(nodeRemoved)| + |old(table)| - |table|
      ensures Fanout(table, self.uri, targets)
      ensures outbox == old(outbox) + Envelopes(self.id, Without(UrisOf(targets), self.uri), Heartbeat(self, version, ZeroTime))
    {
      version := version + 1;
      evicted := CleanupDeadNodes(now);
      targets := SendHeartbeat(Heartbeat(self, version, ZeroTime));
    }

    /** The receive branch of the run loop: stamp the heartbeat with `now`, apply
        it, re-gossip it if it was stored, and report the node as added if its id
        was not in the table (an echo of the agent's own heartbeat included). */
    method Receive(message: Message, now: int) returns (ghost targets: seq<Node>)
      requires Valid()
      requires var heartbeat := message.heartbeat.(receivedAt := now);
        Accepts(table, self.id, heartbeat) ==> FanoutTerminates(Update(table, self.id, heartbeat), heartbeat.node.uri)
      modifies this`table, this`outbox, this`nodeAdded
      ensures Valid()
      ensures var heartbeat := message.heartbeat.(receivedAt := now);
        && table == Update(old(table), self.id, heartbeat)
        && nodeAdded == old(nodeAdded) + (if heartbeat.node.id in old(table) then [] else [heartbeat.node])
        && (Accepts(old(table), self.id, heartbeat) ==>
              && Fanout(table, heartbeat.node.uri, targets)
              && outbox == old(outbox) + Envelopes(self.id, Without(UrisOf(targets), heartbeat.node.uri), heartbeat))
        && (!Accepts(old(table), self.id, heartbeat) ==> outbox == old(outbox))
      ensures message.heartbeat.node.id == self.id ==>
        table == old(table) && outbox == old(outbox) && nodeAdded == old(nodeAdded) + [message.heartbeat.node]
    {
      var heartbeat := message.heartbeat.(receivedAt := now);
      var added := IsNewNode(heartbeat.node);
      var updated := ProcessHeartbeat(heartbeat);
      targets := [];
      if updated {
        targets := SendHeartbeat(heartbeat);
      }
      if added {
        nodeAdded := nodeAdded + [heartbeat.node];
      }
    }
  }
}
