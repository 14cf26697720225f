/**
 The membership table and the two rules that change it: the last-writer-wins
 update applied to every heartbeat, and the time-to-live eviction sweep.
 */
module Membership {
  import opened GossipTypes

  /** Node id to the most recently accepted heartbeat for that id. */
  type Table = map<string, Heartbeat>

  /** How long an entry lives without being refreshed: five seconds, in nanoseconds. */
  const NodeTimeToLive: int := 5_000_000_000

  /** The table's invariant: each entry is filed under its own node's id and the
      agent's own id is never a key. */
  ghost predicate WellFormed(t: Table, selfId: string)
  {
    && selfId !in t
    && forall id :: id in t ==> t[id].node.id == id
  }

  /** The acceptance rule: never the agent's own id; otherwise an unknown id or a
      strictly newer version. */
  predicate Accepts(t: Table, selfId: string, hb: Heartbeat)
  {
    && hb.node.id != selfId
    && (hb.node.id !in t || t[hb.node.id].version < hb.version)
  }

  /** The table after offering it one heartbeat. */
  function Update(t: Table, selfId: string, hb: Heartbeat): (r: Table)
    ensures !Accepts(t, selfId, hb) ==> r == t
    ensures Accepts(t, selfId, hb) ==> r.Keys == t.Keys + {hb.node.id} && r[hb.node.id] == hb
    ensures forall id :: id in t && id != hb.node.id ==> id in r && r[id] == t[id]
    ensures forall id :: id in t ==> id in r && t[id].version <= r[id].version
    ensures selfId in r <==> selfId in t
    ensures WellFormed(t, selfId) ==> WellFormed(r, selfId)
  {
    if Accepts(t, selfId, hb) then t[hb.node.id := hb] else t
  }

  /** A repeat is ignored: once `hb` has been offered, any heartbeat for the same
      id whose version is not higher (the same announcement re-stamped with a
      later arrival time included) is rejected and changes nothing. */
  lemma UpdateIdempotent(t: Table, selfId: string, hb: Heartbeat, repeat: Heartbeat)
    requires repeat.node.id == hb.node.id && repeat.version <= hb.version
    ensures !Accepts(Update(t, selfId, hb), selfId, repeat)
    ensures Update(Update(t, selfId, hb), selfId, repeat) == Update(t, selfId, hb)
  {
  }

  /** An id that is not the agent's own and is not yet in the table is always accepted. */
  lemma NewNodeIsAccepted(t: Table, selfId: string, hb: Heartbeat)
    requires hb.node.id != selfId && hb.node.id !in t
    ensures Accepts(t, selfId, hb)
    ensures hb.node.id in Update(t, selfId, hb)
  {
  }

  /** The table after offering it a sequence of heartbeats, first to last. */
  function ApplyAll(t: Table, selfId: string, hbs: seq<Heartbeat>): Table
    decreases |hbs|
  {
    if hbs == [] then t else ApplyAll(Update(t, selfId, hbs[0]), selfId, hbs[1..])
  }

  /** Some heartbeat of `hbs` belongs to node `id`. */
  ghost predicate Mentions(hbs: seq<Heartbeat>, id: string)
  {
    exists i :: 0 <= i < |hbs| && hbs[i].node.id == id
  }

  /** No sequence of heartbeats makes the table ill-formed; in particular the
      agent's own id never becomes a key. */
  lemma {:induction false} ApplyAllWellFormed(t: Table, selfId: string, hbs: seq<Heartbeat>)
    requires WellFormed(t, selfId)
    ensures WellFormed(ApplyAll(t, selfId, hbs), selfId)
    decreases |hbs|
  {
    if hbs != [] {
      ApplyAllWellFormed(Update(t, selfId, hbs[0]), selfId, hbs[1..]);
    }
  }

  /** Over any sequence of heartbeats the stored version of a known id never decreases. */
  lemma {:induction false} ApplyAllMonotone(t: Table, selfId: string, hbs: seq<Heartbeat>, id: string)
    requires id in t
    ensures id in ApplyAll(t, selfId, hbs)
    ensures t[id].version <= ApplyAll(t, selfId, hbs)[id].version
    decreases |hbs|
  {
    if hbs != [] {
      ApplyAllMonotone(Update(t, selfId, hbs[0]), selfId, hbs[1..], id);
    }
  }

  /** Last writer wins: after a sequence of heartbeats, an id other than the agent's
      own is present iff it was present or was mentioned, and its entry is the one of
      highest version among the initial entry and every heartbeat offered for it. */
  lemma {:induction false} LatestVersionWins(t: Table, selfId: string, hbs: seq<Heartbeat>, id: string)
    requires id != selfId
    ensures var r := ApplyAll(t, selfId, hbs);
      && (id in r <==> id in t || Mentions(hbs, id))
      && (id in r ==>
            && (id in t ==> t[id].version <= r[id].version)
            && (forall i :: 0 <= i < |hbs| && hbs[i].node.id == id ==> hbs[i].version <= r[id].version)
            && ((id in t && r[id] == t[id]) || exists i :: 0 <= i < |hbs| && hbs[i].node.id == id && r[id] == hbs[i]))
    decreases |hbs|
  {
    if hbs != [] {
      var h, rest := hbs[0], hbs[1..];
      var t' := Update(t, selfId, h);
      LatestVersionWins(t', selfId, rest, id);
      var r := ApplyAll(t, selfId, hbs);
      assert r == ApplyAll(t', selfId, rest);
      assert forall i :: 0 <= i < |rest| ==> rest[i] == hbs[i + 1];
      if Mentions(rest, id) {
        var i :| 0 <= i < |rest| && rest[i].node.id == id;
        assert hbs[i + 1].node.id == id;
      }
      if h.node.id == id {
        assert hbs[0].node.id == id;
      }
      if id in r {
        if id in t' && r[id] == t'[id] {
          if id in t && t'[id] == t[id] {
          } else {
            assert t'[id] == h && hbs[0] == h;
          }
        } else {
          var i :| 0 <= i < |rest| && rest[i].node.id == id && r[id] == rest[i];
          assert hbs[i + 1] == rest[i];
        }
        forall i | 0 <= i < |hbs| && hbs[i].node.id == id
          ensures hbs[i].version <= r[id].version
        {
          if i == 0 {
            assert id in t' && h.version <= t'[id].version;
          } else {
            assert hbs[i] == rest[i - 1];
          }
        }
      }
    }
  }

  /** An entry older than the time-to-live horizon as of `now`. */
  predicate Expired(hb: Heartbeat, now: int)
  {
    hb.receivedAt < now - NodeTimeToLive
  }

  /** The ids whose entries are expired as of `now`. */
  ghost function ExpiredIds(t: Table, now: int): set<string>
  {
    set id | id in t && Expired(t[id], now)
  }

  /** The table after the eviction sweep at time `now`. */
  function Evict(t: Table, now: int): (r: Table)
    ensures forall id :: id in r ==> !Expired(r[id], now)
    ensures forall id :: id in t && !Expired(t[id], now) ==> id in r && r[id] == t[id]
    ensures r.Keys == t.Keys - ExpiredIds(t, now)
  {
    map id | id in t && !Expired(t[id], now) :: t[id]
  }

  /** No id occurs twice. */
  ghost predicate NoDuplicates(ids: seq<string>)
  {
    forall i, j :: 0 <= i < j < |ids| ==> ids[i] != ids[j]
  }

  /** The nodes of the entries `ids` of `t`, in the order of `ids`. */
  function NodesAt(t: Table, ids: seq<string>): (r: seq<Node>)
    requires forall i :: 0 <= i < |ids| ==> ids[i] in t
    ensures |r| == |ids|
    ensures forall i :: 0 <= i < |ids| ==> r[i] == t[ids[i]].node
    decreases |ids|
  {
    if ids == [] then [] else NodesAt(t, ids[..|ids| - 1]) + [t[ids[|ids| - 1]].node]
  }

  /** The entries of `t0` a sweep keeps once it has visited all but `pending`. */
  ghost function Unswept(t0: Table, now: int, pending: set<string>): Table
  {
    map id | id in t0 && (id in pending || !Expired(t0[id], now)) :: t0[id]
  }

  /** Part way through the sweep of `t0`: the ids still `pending` are untouched,
      the visited expired ones are gone and listed once each in `evicted`, and
      the visited live ones are kept unchanged. */
  ghost predicate Sweeping(t0: Table, now: int, pending: set<string>, t: Table, evicted: seq<string>)
  {
    && pending <= t0.Keys
    && t == Unswept(t0, now, pending)
    && NoDuplicates(evicted)
    && (forall id :: id in evicted <==> id in t0 && id !in pending && Expired(t0[id], now))
  }

  /** Visiting one pending id: an expired entry is deleted and listed, a live one kept. */
  lemma SweepStep(t0: Table, now: int, pending: set<string>, t: Table, evicted: seq<string>, id: string)
    requires Sweeping(t0, now, pending, t, evicted) && id in pending
    ensures id in t && t[id] == t0[id]
    ensures forall i :: 0 <= i < |evicted| ==> evicted[i] in t0
    ensures Expired(t[id], now) ==> Sweeping(t0, now, pending - {id}, t - {id}, evicted + [id])
    ensures !Expired(t[id], now) ==> Sweeping(t0, now, pending - {id}, t, evicted)
  {
    var evicted' := evicted + [id];
    assert forall i :: 0 <= i < |evicted| ==> evicted'[i] == evicted[i];
  }

  /** Listing one more evicted id extends the removal log by that entry's node. */
  lemma RemovedStep(earlier: seq<Node>, log: seq<Node>, t: Table, evicted: seq<string>, id: string)
    requires forall i :: 0 <= i < |evicted| ==> evicted[i] in t
    requires id in t
    requires log == earlier + NodesAt(t, evicted)
    ensures log + [t[id].node] == earlier + NodesAt(t, evicted + [id])
  {
    assert (evicted + [id])[..|evicted|] == evicted;
  }

  /** A finished sweep has produced exactly `Evict`, has listed only table ids,
      and has listed one id per entry the table lost. */
  lemma SweepComplete(t0: Table, now: int, t: Table, evicted: seq<string>)
    requires Sweeping(t0, now, {}, t, evicted)
    ensures t == Evict(t0, now)
    ensures forall id :: id in evicted <==> id in ExpiredIds(t0, now)
    ensures forall i :: 0 <= i < |evicted| ==> evicted[i] in t0
    ensures |evicted| == |t0| - |t|
  {
    assert forall i :: 0 <= i < |evicted| ==> evicted[i] in evicted;
    SweepCount(t0, now, evicted);
  }

  /** A list of distinct ids has as many elements as the set of ids it lists. */
  lemma {:induction false} DistinctCount(ids: seq<string>, s: set<string>)
    requires NoDuplicates(ids)
    requires forall id :: id in ids <==> id in s
    ensures |ids| == |s|
    decreases |ids|
  {
    if ids != [] {
      var front, last := ids[..|ids| - 1], ids[|ids| - 1];
      assert ids == front + [last];
      assert last !in front by {
        forall i | 0 <= i < |front|
          ensures front[i] != last
        {
          assert ids[i] != ids[|ids| - 1];
        }
      }
      DistinctCount(front, s - {last});
    }
  }

  /** A sweep that lists each expired id once emits exactly as many removal
      notifications as the table loses entries. */
  lemma SweepCount(t: Table, now: int, evicted: seq<string>)
    requires NoDuplicates(evicted)
    requires forall id :: id in evicted <==> id in ExpiredIds(t, now)
    ensures |evicted| == |t| - |Evict(t, now)|
  {
    DistinctCount(evicted, ExpiredIds(t, now));
    EvictPartition(t, now);
  }

  /** The sweep keeps the table well formed. */
  lemma EvictWellFormed(t: Table, selfId: string, now: int)
    requires WellFormed(t, selfId)
    ensures WellFormed(Evict(t, now), selfId)
  {
  }

  /** Every entry is either kept or counted as removed: the survivors and the
      removed ids partition the table. */
  lemma EvictPartition(t: Table, now: int)
    ensures ExpiredIds(t, now) <= t.Keys
    ensures |Evict(t, now)| + |ExpiredIds(t, now)| == |t|
  {
    var r := Evict(t, now);
    var gone := ExpiredIds(t, now);
    assert t.Keys == r.Keys + gone;
    assert r.Keys !! gone;
  }
}
