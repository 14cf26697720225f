/**
 What the agent hands to the transport: envelopes addressed to a list of
 destinations, the rule that never sends a heartbeat back to its origin
 address, and the shape of one fanout round.
 */
module Dissemination {
  import opened GossipTypes
  import opened Membership

  /** `contactRate`: how many distinct peers a large fanout round reaches. */
  const ContactRate: int := 3

  /** One envelope from `sender` to each destination, in order. */
  function Envelopes(sender: string, destinations: seq<string>, hb: Heartbeat): (r: seq<Message>)
    ensures |r| == |destinations|
    decreases |destinations|
  {
    if destinations == [] then []
    else
      Envelopes(sender, destinations[..|destinations| - 1], hb)
        + [Message(sender, destinations[|destinations| - 1], hb)]
  }

  /** The `k`-th envelope goes from `sender` to the `k`-th destination. */
  lemma {:induction false} EnvelopesAt(sender: string, destinations: seq<string>, hb: Heartbeat, k: nat)
    requires k < |destinations|
    ensures Envelopes(sender, destinations, hb)[k] == Message(sender, destinations[k], hb)
    decreases |destinations|
  {
    if k < |destinations| - 1 {
      EnvelopesAt(sender, destinations[..|destinations| - 1], hb, k);
    }
  }

  /** The addresses that a send reaches: every address, in order, except the
      heartbeat's origin address, which a send skips. */
  function Without(addresses: seq<string>, origin: string): (r: seq<string>)
    ensures |r| <= |addresses|
    decreases |addresses|
  {
    if addresses == [] then []
    else
      var front, last := addresses[..|addresses| - 1], addresses[|addresses| - 1];
      assert addresses == front + [last];
      Without(front, origin) + (if last == origin then [] else [last])
  }

  /** Filtering one more address appends it unless it is the origin. */
  lemma WithoutSnoc(addresses: seq<string>, address: string, origin: string)
    ensures Without(addresses + [address], origin)
         == Without(addresses, origin) + if address == origin then [] else [address]
  {
    assert (addresses + [address])[..|addresses|] == addresses;
  }

  /** Sending to one more address: the envelopes grow by one unless the address
      is the origin. */
  lemma SendStep(sender: string, addresses: seq<string>, i: nat, origin: string, hb: Heartbeat)
    requires i < |addresses|
    ensures Envelopes(sender, Without(addresses[..i + 1], origin), hb)
         == Envelopes(sender, Without(addresses[..i], origin), hb)
            + if addresses[i] == origin then [] else [Message(sender, addresses[i], hb)]
  {
    assert addresses[..i + 1] == addresses[..i] + [addresses[i]];
    WithoutSnoc(addresses[..i], addresses[i], origin);
    if addresses[i] != origin {
      EnvelopesSnoc(sender, Without(addresses[..i], origin), addresses[i], hb);
    } else {
      assert Without(addresses[..i + 1], origin) == Without(addresses[..i], origin);
    }
  }

  /** The same step, stated on a log of sent envelopes that starts with `earlier`. */
  lemma LogStep(earlier: seq<Message>, log: seq<Message>, sender: string, addresses: seq<string>, i: nat, origin: string, hb: Heartbeat)
    requires i < |addresses|
    requires log == earlier + Envelopes(sender, Without(addresses[..i], origin), hb)
    ensures (if addresses[i] == origin then log else log + [Message(sender, addresses[i], hb)])
         == earlier + Envelopes(sender, Without(addresses[..i + 1], origin), hb)
  {
    SendStep(sender, addresses, i, origin, hb);
    var sent := Envelopes(sender, Without(addresses[..i], origin), hb);
    if addresses[i] != origin {
      var m := Message(sender, addresses[i], hb);
      assert earlier + (sent + [m]) == (earlier + sent) + [m];
    }
  }

  /** Delivering to one more sampled node adds its envelope at the end. */
  lemma SampleStep(sender: string, targets: seq<Node>, node: Node, hb: Heartbeat)
    ensures Envelopes(sender, UrisOf(targets + [node]), hb)
         == Envelopes(sender, UrisOf(targets), hb) + [Message(sender, node.uri, hb)]
  {
    UrisOfSnoc(targets, node);
    EnvelopesSnoc(sender, UrisOf(targets), node.uri, hb);
  }

  /** The same step, stated on a log of sent envelopes that starts with `earlier`. */
  lemma SampleLogStep(earlier: seq<Message>, log: seq<Message>, sender: string, targets: seq<Node>, node: Node, hb: Heartbeat)
    requires log == earlier + Envelopes(sender, UrisOf(targets), hb)
    ensures log + [Message(sender, node.uri, hb)] == earlier + Envelopes(sender, UrisOf(targets + [node]), hb)
  {
    SampleStep(sender, targets, node, hb);
    var sent := Envelopes(sender, UrisOf(targets), hb);
    var m := Message(sender, node.uri, hb);
    assert earlier + (sent + [m]) == (earlier + sent) + [m];
  }

  /** Filtering respects concatenation, so together with its value on single
      addresses this fixes `Without` completely: order and repetitions are kept. */
  lemma {:induction false} WithoutAppend(a: seq<string>, b: seq<string>, origin: string)
    ensures Without(a + b, origin) == Without(a, origin) + Without(b, origin)
    decreases |b|
  {
    if b == [] {
      assert a + b == a;
    } else {
      var front, last := b[..|b| - 1], b[|b| - 1];
      var tail := if last == origin then [] else [last];
      WithoutAppend(a, front, origin);
      var ab := a + b;
      assert ab[..|ab| - 1] == a + front;
      assert ab[|ab| - 1] == last;
      assert Without(ab, origin) == Without(a + front, origin) + tail;
      assert Without(b, origin) == Without(front, origin) + tail;
    }
  }

  /** A send reaches exactly the addresses other than the origin. */
  lemma {:induction false} WithoutMembers(addresses: seq<string>, origin: string)
    ensures forall a :: a in Without(addresses, origin) <==> a in addresses && a != origin
    decreases |addresses|
  {
    if addresses != [] {
      var front, last := addresses[..|addresses| - 1], addresses[|addresses| - 1];
      WithoutMembers(front, origin);
      assert addresses == front + [last];
    }
  }

  /** Addresses that never name the origin all receive the send. */
  lemma {:induction false} WithoutNoOrigin(addresses: seq<string>, origin: string)
    requires origin !in addresses
    ensures Without(addresses, origin) == addresses
    decreases |addresses|
  {
    if addresses != [] {
      var front, last := addresses[..|addresses| - 1], addresses[|addresses| - 1];
      assert addresses == front + [last];
      WithoutNoOrigin(front, origin);
    }
  }

  /** The contact addresses of `nodes`, in order. */
  function UrisOf(nodes: seq<Node>): (r: seq<string>)
    ensures |r| == |nodes|
    decreases |nodes|
  {
    if nodes == [] then [] else UrisOf(nodes[..|nodes| - 1]) + [nodes[|nodes| - 1].uri]
  }

  /** The `k`-th address is that of the `k`-th node. */
  lemma {:induction false} UrisOfAt(nodes: seq<Node>, k: nat)
    requires k < |nodes|
    ensures UrisOf(nodes)[k] == nodes[k].uri
    decreases |nodes|
  {
    if k < |nodes| - 1 {
      UrisOfAt(nodes[..|nodes| - 1], k);
    }
  }

  /** Listing one more node adds its address at the end. */
  lemma UrisOfSnoc(nodes: seq<Node>, node: Node)
    ensures UrisOf(nodes + [node]) == UrisOf(nodes) + [node.uri]
  {
    assert (nodes + [node])[..|nodes|] == nodes;
  }

  /** Addressing one more destination adds its envelope at the end. */
  lemma EnvelopesSnoc(sender: string, destinations: seq<string>, destination: string, hb: Heartbeat)
    ensures Envelopes(sender, destinations + [destination], hb)
         == Envelopes(sender, destinations, hb) + [Message(sender, destination, hb)]
  {
    assert (destinations + [destination])[..|destinations|] == destinations;
  }

  /** No node id occurs twice. */
  ghost predicate DistinctIds(nodes: seq<Node>)
  {
    forall i, j :: 0 <= i < j < |nodes| ==> nodes[i].id != nodes[j].id
  }

  /** `nodes` lists the table: one node per entry, each the node of its entry. */
  ghost predicate ListsTable(t: Table, nodes: seq<Node>)
  {
    && |nodes| == |t|
    && DistinctIds(nodes)
    && (forall i :: 0 <= i < |nodes| ==> nodes[i].id in t && t[nodes[i].id].node == nodes[i])
    && (forall id :: id in t ==> exists i :: 0 <= i < |nodes| && nodes[i].id == id)
  }

  /** The ids a heartbeat from `origin` can be delivered to. */
  ghost function EligibleIds(t: Table, origin: string): set<string>
  {
    set id | id in t && t[id].node.uri != origin
  }

  /** A large round retries until it has delivered to `ContactRate` distinct nodes;
      it ends only when that many table nodes have an address other than the origin. */
  ghost predicate FanoutTerminates(t: Table, origin: string)
  {
    |t| - 1 > ContactRate ==> |EligibleIds(t, origin)| >= ContactRate
  }

  /** `targets` are the nodes one fanout round of a heartbeat from `origin` sends
      to: in a small table (at most `ContactRate` + 1 entries) every table node
      once, in the table's listing order; otherwise exactly `ContactRate` distinct
      table nodes, none at the origin address. */
  ghost predicate Fanout(t: Table, origin: string, targets: seq<Node>)
  {
    if |t| - 1 <= ContactRate then ListsTable(t, targets)
    else
      && |targets| == ContactRate
      && DistinctIds(targets)
      && forall i :: 0 <= i < |targets| ==>
           targets[i].id in t && t[targets[i].id].node == targets[i] && targets[i].uri != origin
  }

  /** The envelopes of a fanout round go to table nodes only, never to the origin
      address; a large round sends exactly `ContactRate` of them, the k-th to the
      address of the k-th target (targets that `Fanout` makes distinct by id;
      two of them may still share an address). */
  lemma FanoutRecipients(t: Table, sender: string, hb: Heartbeat, targets: seq<Node>)
    requires Fanout(t, hb.node.uri, targets)
    ensures var sent := Envelopes(sender, Without(UrisOf(targets), hb.node.uri), hb);
      && (forall m :: m in sent ==>
            && m.sender == sender && m.heartbeat == hb && m.destination != hb.node.uri
            && exists id :: id in t && t[id].node.uri == m.destination)
      && (|t| - 1 > ContactRate ==> |sent| == ContactRate)
      && (|t| - 1 > ContactRate ==> forall k :: 0 <= k < |sent| ==> sent[k].destination == targets[k].uri)
  {
    var origin := hb.node.uri;
    var uris := UrisOf(targets);
    var destinations := Without(uris, origin);
    var sent := Envelopes(sender, destinations, hb);
    WithoutMembers(uris, origin);
    forall m | m in sent
      ensures m.sender == sender && m.heartbeat == hb && m.destination != origin
      ensures exists id :: id in t && t[id].node.uri == m.destination
    {
      var k :| 0 <= k < |sent| && sent[k] == m;
      EnvelopesAt(sender, destinations, hb, k);
      assert destinations[k] in destinations;
      var i :| 0 <= i < |uris| && uris[i] == destinations[k];
      UrisOfAt(targets, i);
      assert targets[i].id in t && t[targets[i].id].node == targets[i];
    }
    if |t| - 1 > ContactRate {
      forall i | 0 <= i < |uris|
        ensures uris[i] != origin
      {
        UrisOfAt(targets, i);
      }
      WithoutNoOrigin(uris, origin);
      forall k | 0 <= k < |sent|
        ensures sent[k].destination == targets[k].uri
      {
        EnvelopesAt(sender, destinations, hb, k);
        UrisOfAt(targets, k);
      }
    }
  }

  /** The ids of the listed nodes a heartbeat from `origin` can be delivered to. */
  ghost function EligibleListed(nodes: seq<Node>, origin: string): set<string>
  {
    set i | 0 <= i < |nodes| && nodes[i].uri != origin :: nodes[i].id
  }

  /** A listing of the table offers every id the table offers. */
  lemma ListedEligible(t: Table, nodes: seq<Node>, origin: string)
    requires ListsTable(t, nodes)
    ensures |EligibleIds(t, origin)| <= |EligibleListed(nodes, origin)|
  {
    forall id | id in EligibleIds(t, origin)
      ensures id in EligibleListed(nodes, origin)
    {
      var i :| 0 <= i < |nodes| && nodes[i].id == id;
      assert nodes[i].uri == t[id].node.uri;
    }
    SubsetCardinality(EligibleIds(t, origin), EligibleListed(nodes, origin));
  }

  /** While fewer ids are delivered to than the listing offers, some listed node
      away from the origin address is still undelivered. */
  lemma PickExists(nodes: seq<Node>, delivered: set<string>, origin: string)
    requires delivered <= EligibleListed(nodes, origin) && |delivered| < |EligibleListed(nodes, origin)|
    ensures exists index :: 0 <= index < |nodes| && nodes[index].id !in delivered && nodes[index].uri != origin
  {
    UndeliveredExists(delivered, EligibleListed(nodes, origin));
    var id :| id in EligibleListed(nodes, origin) && id !in delivered;
    var index :| 0 <= index < |nodes| && nodes[index].uri != origin && nodes[index].id == id;
  }

  /** The state of a large round: `targets` are the nodes delivered to so far, in
      order, `delivered` their ids, all distinct, listed and away from the origin. */
  ghost predicate Sampled(nodes: seq<Node>, origin: string, delivered: set<string>, targets: seq<Node>)
  {
    && |delivered| == |targets|
    && delivered <= EligibleListed(nodes, origin)
    && DistinctIds(targets)
    && (forall i :: 0 <= i < |targets| ==> targets[i] in nodes && targets[i].uri != origin)
    && (forall i :: 0 <= i < |targets| ==> targets[i].id in delivered)
  }

  /** Delivering to one more undelivered eligible node keeps the round's state. */
  lemma SampledStep(nodes: seq<Node>, origin: string, delivered: set<string>, targets: seq<Node>, index: nat)
    requires Sampled(nodes, origin, delivered, targets)
    requires index < |nodes| && nodes[index].id !in delivered && nodes[index].uri != origin
    ensures Sampled(nodes, origin, delivered + {nodes[index].id}, targets + [nodes[index]])
  {
    var node := nodes[index];
    var targets' := targets + [node];
    assert forall i :: 0 <= i < |targets| ==> targets'[i] == targets[i];
    assert targets'[|targets|] == node;
    assert node.id in EligibleListed(nodes, origin);
  }

  /** A subset is no larger than its superset. */
  lemma {:induction false} SubsetCardinality(a: set<string>, b: set<string>)
    requires a <= b
    ensures |a| <= |b|
    decreases a
  {
    if a != {} {
      var x :| x in a;
      SubsetCardinality(a - {x}, b - {x});
    }
  }

  /** When there is a node left to reach, some undelivered eligible id exists. */
  lemma UndeliveredExists(delivered: set<string>, eligible: set<string>)
    requires delivered <= eligible && |delivered| < |eligible|
    ensures exists id :: id in eligible && id !in delivered
  {
    var rest := eligible - delivered;
    assert eligible == delivered + rest;
    assert delivered * rest == {};
    assert rest != {};
    var id :| id in rest;
  }
}
