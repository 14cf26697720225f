# Gossip membership agent, modelled in Dafny

This project models the protocol engine of a small gossip-based membership service (`gossip/agent.go`). Each agent does three things:

- It keeps a table from node id to the latest heartbeat it has accepted for that node. A newer version replaces an older one, and the agent never stores itself.
- On every tick it bumps its own version, evicts entries older than five seconds, and gossips its own heartbeat.
- It re-gossips every heartbeat that changed its table.

When the table is small, a round reaches every known node whose address is not the heartbeat's origin address. Otherwise it reaches `contactRate` (3) distinct random nodes other than the heartbeat's origin. `Join` contacts seed addresses directly.

## Layout

- `types.dfy` (`GossipTypes`): the value records `Node`, `Heartbeat` and `Message` (the network envelope).
- `membership.dfy` (`Membership`): the table and its two rules:
  - the last-writer-wins `Update`, with its lemmas about single and repeated application;
  - the time-to-live `Evict`, with the sweep's step predicate.
- `dissemination.dfy` (`Dissemination`): what a send puts on the wire:
  - `Envelopes`;
  - `Without`, the rule that never sends a heartbeat back to its origin address;
  - `UrisOf`;
  - the `Fanout` predicate for one gossip round, and the lemmas about recipients.
- `agent.dfy` (`GossipAgent`): `class Agent`, which holds:
  - the table and the version counter;
  - `outbox`, the sequence of envelopes handed to the transport's send channel;
  - `nodeAdded` and `nodeRemoved`, the two notification channels as appended sequences.

  Each Go method other than `Run` and `Close` has a Dafny member of the same name. The two branches of `sendHeartbeat` are split out as `SendToAll` (small table) and `SendToSample` (large table), and the two branches of `Run` are the methods `Tick` and `Receive`.
- `scenarios.dfy` (`GossipScenarios`): client code that runs one agent through a concrete lifecycle and a join. The exact outputs follow from the contracts alone.

Time is an integer number of nanoseconds passed in as `now`. A heartbeat the agent builds itself carries `receivedAt == ZeroTime` (0), which stands for Go's zero `time.Time`. `rand.Intn` becomes a `:|` choice.

## Model

| member | source | states |
|---|---|---|
| GossipAgent.Agent.constructor | gossip/agent.go:24-37 | An agent starts as its own node with an empty table, version 1, and nothing sent or notified. |
| GossipAgent.Agent.ProcessHeartbeat | gossip/agent.go:97-109 | Returns true exactly when the id is not the agent's own and is either unknown or stored with a strictly lower version. The new table is `Update` of the old one, and the invariant (no self key, each entry under its own id) is kept. |
| Membership.Update | gossip/agent.go:97-109 | A rejected heartbeat leaves the table identical. An accepted one adds or overwrites exactly its own id. Every other entry is unchanged, no stored version decreases, the agent's own id never becomes a key, and well-formedness is preserved. |
| Membership.UpdateIdempotent | gossip/agent.go:103-108 | Once a heartbeat has been offered, any heartbeat for the same id with a version no higher is rejected and changes nothing. This includes the same announcement arriving again with a later `receivedAt`. |
| Membership.NewNodeIsAccepted | gossip/agent.go:98-106 | A heartbeat for an id that is neither the agent's own nor in the table is always accepted and stored, so in the receive branch `added` implies `updated` for any other node. |
| Membership.ApplyAllWellFormed | gossip/agent.go:98-104 | After any sequence of heartbeats the table is still well formed; in particular the agent's own id is never a key. |
| Membership.ApplyAllMonotone | gossip/agent.go:103 | Over any sequence of heartbeats a known id stays in the table and its stored version never decreases. |
| Membership.LatestVersionWins | gossip/agent.go:102-106 | After a sequence of heartbeats, an id other than the agent's own is present iff it was present before or some heartbeat mentions it. Its stored version is at least that of the initial entry and of every offered heartbeat for it. The stored entry is the initial entry or one of those heartbeats. |
| GossipAgent.Agent.IsNewNode | gossip/agent.go:111-114 | For a well-formed table: true iff no stored entry belongs to the node's id. |
| GossipAgent.Agent.CleanupDeadNodes | gossip/agent.go:86-95 | After the sweep the table is `Evict(old table, now)`. The sweep visits each expired id exactly once, and only expired table ids. It appends the node of each evicted entry to `nodeRemoved`, one per removed entry, in visiting order, so `nodeRemoved` grows by exactly the number of entries the table lost. |
| Membership.Evict | gossip/agent.go:87-93 | No surviving entry is older than `now - TTL`. Every entry that is not expired survives unchanged. The keys are exactly the old keys minus the expired ids, so no key is added. |
| Membership.EvictWellFormed | gossip/agent.go:86-95 | Eviction keeps the table well formed. |
| Membership.EvictPartition | gossip/agent.go:89-93 | The expired ids are table ids, and the survivors and the expired ids split the table's size. |
| Membership.DistinctCount | gossip/agent.go:89-93 | A list of distinct ids is as long as the set of ids it lists. |
| Membership.SweepCount | gossip/agent.go:89-93 | A sweep that lists each expired id once lists exactly as many ids as the table loses entries. |
| Membership.SweepStep | gossip/agent.go:89-94 | Visiting one pending id deletes and lists it if expired, and keeps it otherwise, preserving the sweep's progress predicate. |
| Membership.SweepComplete | gossip/agent.go:89-94 | A finished sweep has produced exactly `Evict`. It has listed exactly the expired ids and only table ids, one per entry the table lost. |
| Membership.NodesAt | gossip/agent.go:92 | The nodes pushed for a list of removed ids: one per id, the i-th being the node stored under the i-th id. |
| Membership.RemovedStep | gossip/agent.go:92 | One more removed id extends the `nodeRemoved` log by exactly that entry's node. |
| GossipAgent.Agent.GetActiveNodes | gossip/agent.go:116-123 | Returns one node per table entry: the same number as the table, distinct ids, and each node is the node of its entry, with every entry listed. It changes nothing. |
| GossipAgent.Agent.SendHeartbeatTo | gossip/agent.go:148-156 | Returns false and sends nothing iff the destination is the heartbeat's origin address. Otherwise it appends exactly one envelope from the agent's id to the destination carrying the heartbeat. |
| GossipAgent.Agent.SendHeartbeat | gossip/agent.go:125-146 | The round's targets satisfy `Fanout`: every table node once when the table has at most `contactRate`+1 entries (none when it is empty), otherwise exactly `contactRate` distinct table nodes away from the origin. The outbox grows by one envelope per target whose address is not the origin. |
| GossipAgent.Agent.SendToAll | gossip/agent.go:128-131 | The small round attempts every listed node in order, and sends to each one whose address is not the origin. |
| GossipAgent.Agent.SendToSample | gossip/agent.go:132-145 | The large round ends with exactly `contactRate` delivered nodes, all distinct and none at the origin address, and the outbox holds exactly one envelope per delivered node in delivery order. |
| Dissemination.FanoutRecipients | gossip/agent.go:125-156 | Every envelope of a round comes from the agent, carries the heartbeat, is addressed to some table node and never to the origin. A large round sends exactly `contactRate` envelopes, the k-th to the address of the k-th target; the targets have distinct ids, though two may share an address. |
| Dissemination.ListedEligible | gossip/agent.go:126-134 | A listing of the table offers at least as many eligible ids as the table has, so the large round's precondition carries over to the list it samples from. |
| Dissemination.PickExists | gossip/agent.go:134-138 | While fewer than `contactRate` nodes are delivered, an undelivered node away from the origin remains to be picked. |
| Dissemination.SampledStep | gossip/agent.go:138-142 | Delivering to one more undelivered node keeps the delivered set and the target list in step. |
| GossipAgent.Agent.Join | gossip/agent.go:75-84 | Sends the agent's current heartbeat to every seed other than its own address, in seed order, with the agent's id as sender. The table and version are unchanged. |
| GossipAgent.Agent.Tick | gossip/agent.go:50-53 | Version goes up by exactly one, the table is swept as with `CleanupDeadNodes` (the removal count included), and the agent's own new-version heartbeat is gossiped over the swept table as with `SendHeartbeat`. |
| GossipAgent.Agent.Receive | gossip/agent.go:55-68 | Stamps the heartbeat with `now` and applies `Update`. It reports the node as added iff its id was not in the table beforehand. It re-gossips only if the heartbeat was accepted, and otherwise sends nothing. An echo of the agent's own id changes neither table nor outbox, yet is reported as added. |
| Dissemination.Envelopes | gossip/agent.go:154 | One envelope per destination. |
| Dissemination.EnvelopesAt | gossip/agent.go:154 | The k-th envelope is from the sender to the k-th destination with the given heartbeat. |
| Dissemination.Without | gossip/agent.go:150-152 | The filtered list is never longer than its input. |
| Dissemination.WithoutMembers | gossip/agent.go:150-152 | The addresses reached are exactly the given addresses other than the origin. |
| Dissemination.WithoutNoOrigin | gossip/agent.go:150-152 | When the origin is not among the addresses, every address is reached. |
| Dissemination.WithoutAppend | gossip/agent.go:79-83 | Filtering distributes over concatenation, so order and repetitions of seeds are preserved. |
| Dissemination.WithoutSnoc | gossip/agent.go:80-82 | Filtering one more address appends it unless it is the origin. |
| Dissemination.SendStep | gossip/agent.go:129-131 | Attempting one more address extends the envelopes by one unless that address is the origin. |
| Dissemination.LogStep | gossip/agent.go:79-83 | The same step stated on the outbox log. |
| Dissemination.SampleStep | gossip/agent.go:139-141 | Delivering to one more node adds its envelope at the end. |
| Dissemination.SampleLogStep | gossip/agent.go:139-141 | The same step stated on the outbox log. |
| Dissemination.UrisOf | gossip/agent.go:130 | One address per node. |
| Dissemination.UrisOfSnoc | gossip/agent.go:130 | Listing one more node adds its address at the end. |
| Dissemination.EnvelopesSnoc | gossip/agent.go:154 | Addressing one more destination adds its envelope at the end. |
| Dissemination.SubsetCardinality | gossip/agent.go:134 | A subset of ids is no larger than its superset, which bounds the delivered set by the eligible ones. |
| Dissemination.UndeliveredExists | gossip/agent.go:134-138 | While fewer ids are delivered than are eligible, some eligible id is still undelivered. |
| Dissemination.UrisOfAt | gossip/agent.go:130 | The k-th address is the k-th node's address. |
| GossipScenarios.PeerLifecycle | gossip/agent.go:50-68 | An agent alone ticks to version 2. It learns "b" (one added notification), ignores a repeat, and accepts version 2 without a second notification. After five seconds of silence plus one nanosecond it evicts "b" (one removed notification). It ends at version 3 and never sends. The table is empty at both ticks, and "b" is the origin of everything it relays. |
| GossipScenarios.LonelyTick | gossip/agent.go:50-53 | A tick with an empty table raises the version from 1 to 2 and sends and removes nothing. |
| GossipScenarios.LearnPeer | gossip/agent.go:55-68 | The first heartbeat of "b" is stored with the receive time and reported as added. It is not relayed back to "b", the only node. |
| GossipScenarios.IgnoreRepeat | gossip/agent.go:55-68 | The same version again, with a later receive time, changes neither the table (the old arrival time stays) nor any log. |
| GossipScenarios.AcceptNewer | gossip/agent.go:55-68 | A newer version of "b" replaces the entry, is not reported as added again, and is not relayed back to "b". |
| GossipScenarios.ForgetSilentPeer | gossip/agent.go:50-53 | One nanosecond past the time-to-live, a tick evicts "b" and reports it removed exactly once. |
| GossipScenarios.JoinSkipsOwnAddress | gossip/agent.go:75-84 | Joining through its own address and one other sends exactly one envelope, to the other seed, with version 1. |

## Left out

- The UDP transport (`gossip/udpnetworkclient.go`) is not part of this model: it is sockets, JSON encoding and a goroutine. `gossip/networkclient.go` contributes only the envelope record.
- `main.go` is not part of this model: flag parsing, logging and the notification printing loop.
- `Run`'s `select`, its ticker and channel blocking, and `Close`: these are concurrency and channel lifecycle. Only the body of each branch is modelled (`Tick`, `Receive`). Sends into the channels become appends to sequences, so blocking and the interleaving across the three channels are not captured.
- `time.Now()` is the `now` parameter, an integer clock in nanoseconds. `heartbeatInterval` only drives the ticker and does not appear.
- `rand.Intn`: the model does not capture how picks are distributed. The modelled pick ranges only over undelivered nodes away from the origin address. Go's other picks skip or are refused by `sendHeartbeatTo`, and change nothing.
- GossipAgent.Agent.SendHeartbeat: it requires `FanoutTerminates`. In a large table with fewer than `contactRate` nodes away from the origin address, the Go loop never ends, and the model does not describe that non-terminating run. `Tick` and `Receive` carry the same requirement for the table they gossip over.
- GossipAgent.Agent.Tick: `version` is an unbounded integer, so Go's 64-bit `int` overflow is not modelled.
- Heartbeats are values. Go stores the received `*Heartbeat` pointer itself, but nothing mutates a stored heartbeat afterwards, so aliasing is not observable and is not modelled. A message with a nil heartbeat pointer is not modelled.
- Go's declaration of `Node` is not among the modelled source files. The model's `Node` datatype takes its three fields (id, address, capability tags) from the composite literal at `gossip/agent.go:28-32`.
- The model follows the code where one might expect otherwise:
  - an envelope's sender is the agent's id, not its address;
  - a large round reaches exactly `contactRate` nodes;
  - an echo of the agent's own heartbeat is reported on `NodeAdded`, because `isNewNode` consults only the table.
