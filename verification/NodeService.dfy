/**
 The node's cache service and the rebalancer that shares its store, its membership table and its
 tombstones (grpc/service.rs, rebalance/mod.rs), each handler run to completion. How handlers
 interleave is the subject of module JoinProtocol.
 */
module NodeService {
  import opened Common
  import opened HashRing
  import opened CacheStore
  import opened Rebalance
  import Membership

  class Tombstones {
    var keys: set<string>

    constructor ()
      ensures keys == {}
    {
      keys := {};
    }
  }

  datatype DeleteReply = Unavailable | Deleted(existed: bool)

  class CacheService {
    const store: Store
    const table: Membership.MembershipTable
    const tombstones: Tombstones

    constructor (store: Store, table: Membership.MembershipTable, tombstones: Tombstones)
      ensures this.store == store && this.table == table && this.tombstones == tombstones
    {
      this.store := store;
      this.table := table;
      this.tombstones := tombstones;
    }

    /** A joining node refuses writes. */
    method Set(key: string, value: Bytes, ttlMs: Option<nat>, now: nat) returns (ok: bool)
      requires table.Valid()
      modifies store
      ensures ok <==> table.members[table.localId].status != Membership.Joining
      ensures !ok ==> store.data == old(store.data)
      ensures ok ==>
        store.data == old(store.data)[key := CacheEntry(value, if ttlMs.None? then None
                                                               else Some(now + ttlMs.value * 1_000_000))]
    {
      if table.IsSelfJoining() {
        return false;
      }
      store.SetKey(key, value, if ttlMs.None? then None else Some(ttlMs.value * MILLISECOND), now);
      return true;
    }

    /** A joining node refuses deletes too, but remembers them as tombstones. */
    method Delete(key: string, now: nat) returns (r: DeleteReply)
      requires table.Valid()
      modifies store, tombstones
      ensures store.data == old(store.data) - {key}
      ensures var joining := table.members[table.localId].status == Membership.Joining;
              && tombstones.keys == (if joining then old(tombstones.keys) + {key} else old(tombstones.keys))
              && r == if joining then Unavailable else Deleted(key in old(store.data))
    {
      if table.IsSelfJoining() {
        tombstones.keys := tombstones.keys + {key};
        var _ := store.DeleteKey(key, now);
        return Unavailable;
      }
      var existed := store.DeleteKey(key, now);
      r := Deleted(existed);
    }

    /** The stream of a transfer is a snapshot of the store taken when the request arrives. */
    method TransferKeys(now: nat) returns (chunks: seq<Chunk>)
      ensures ListsSnapshot(chunks, store.data, now)
    {
      chunks := store.EntriesForTransfer(now);
    }
  }

  /** What the node receives from each peer before the stream ends or fails. */
  type Streams = NodeId -> seq<Arrival>

  function AllArrivals(self: NodeId, peers: seq<NodeInfo>, streams: Streams): seq<Arrival> {
    if peers == [] then []
    else
      var last := peers[|peers| - 1];
      AllArrivals(self, peers[..|peers| - 1], streams) + if last.id == self then [] else streams(last.id)
  }

  lemma OnePeerMore(self: NodeId, peers: seq<NodeInfo>, i: nat, streams: Streams)
    requires i < |peers|
    ensures var before := AllArrivals(self, peers[..i], streams);
            AllArrivals(self, peers[..i + 1], streams) ==
            if peers[i].id == self then before else before + streams(peers[i].id)
  {
    assert peers[..i + 1][..i] == peers[..i];
    assert AllArrivals(self, peers[..i], streams) + [] == AllArrivals(self, peers[..i], streams);
  }

  lemma {:induction false} PullConcat(h: Hashing, slots: seq<Slot>, self: NodeId, data: Data, a: seq<Arrival>,
                                      b: seq<Arrival>)
    ensures Pull(h, slots, self, Pull(h, slots, self, data, a), b) == Pull(h, slots, self, data, a + b)
  {
    if b == [] {
      assert a + b == a;
    } else {
      var init := b[..|b| - 1];
      PullConcat(h, slots, self, data, a, init);
      assert (a + b)[..|a + b| - 1] == a + init;
    }
  }

  // ----- A complete rebalance, end to end -----------------------------------

  /** What every peer holds, and when it takes its snapshot. */
  type Holdings = NodeId -> Source

  /** The stream brings a whole snapshot of the source. */
  ghost predicate BringsAll(stream: seq<Arrival>, s: Source) {
    ListsSnapshot(seq(|stream|, i requires 0 <= i < |stream| => stream[i].chunk), s.data, s.sent)
  }

  function Sources(peers: seq<NodeInfo>, holdings: Holdings): seq<Source> {
    if peers == [] then [] else Sources(peers[..|peers| - 1], holdings) + [holdings(peers[|peers| - 1].id)]
  }

  lemma StreamDelivers(stream: seq<Arrival>, s: Source)
    requires BringsAll(stream, s)
    ensures Delivers(s, stream)
    ensures forall i :: 0 <= i < |stream| ==> FromSource(stream[i], s)
  {
    var chunks := seq(|stream|, i requires 0 <= i < |stream| => stream[i].chunk);
    forall k | k in Live(s.data, s.sent)
      ensures exists i :: 0 <= i < |stream| && stream[i].chunk == ChunkOf(k, s.data[k], s.sent)
    {
      assert Streamed(chunks, k);
      var i :| 0 <= i < |chunks| && chunks[i].key == k;
      assert stream[i].chunk == chunks[i];
    }
    forall i | 0 <= i < |stream| ensures FromSource(stream[i], s) {
      assert chunks[i] == stream[i].chunk;
    }
  }

  lemma DeliversMore(s: Source, a: seq<Arrival>, b: seq<Arrival>)
    ensures Delivers(s, a) || Delivers(s, b) ==> Delivers(s, a + b)
  {
    forall k | k in Live(s.data, s.sent) && (Delivers(s, a) || Delivers(s, b))
      ensures exists i :: 0 <= i < |a + b| && (a + b)[i].chunk == ChunkOf(k, s.data[k], s.sent)
    {
      if Delivers(s, a) {
        var i :| 0 <= i < |a| && a[i].chunk == ChunkOf(k, s.data[k], s.sent);
        assert (a + b)[i] == a[i];
      } else {
        var i :| 0 <= i < |b| && b[i].chunk == ChunkOf(k, s.data[k], s.sent);
        assert (a + b)[|a| + i] == b[i];
      }
    }
  }

  lemma FromMoreSources(a: Arrival, sources: seq<Source>, s: Source)
    ensures FromSome(a, sources) || FromSource(a, s) ==> FromSome(a, sources + [s])
  {
    if FromSome(a, sources) {
      var j :| 0 <= j < |sources| && FromSource(a, sources[j]);
      assert (sources + [s])[j] == sources[j];
    } else {
      assert (sources + [s])[|sources|] == s;
    }
  }

  /** When every peer's stream is complete, everything the peers hold arrives and nothing else. */
  lemma {:induction false} CompleteStreamsDeliver(self: NodeId, peers: seq<NodeInfo>, streams: Streams,
                                                  holdings: Holdings)
    requires NotAmong(self, peers)
    requires forall i :: 0 <= i < |peers| ==> BringsAll(streams(peers[i].id), holdings(peers[i].id))
    ensures |Sources(peers, holdings)| == |peers|
    ensures forall j :: 0 <= j < |peers| ==> Delivers(Sources(peers, holdings)[j], AllArrivals(self, peers, streams))
    ensures ComesFrom(AllArrivals(self, peers, streams), Sources(peers, holdings))
  {
    if peers == [] {
    } else {
      var init, last := peers[..|peers| - 1], peers[|peers| - 1];
      CompleteStreamsDeliver(self, init, streams, holdings);
      var before, stream := AllArrivals(self, init, streams), streams(last.id);
      var sources, s := Sources(init, holdings), holdings(last.id);
      StreamDelivers(stream, s);
      forall j | 0 <= j < |peers| ensures Delivers((sources + [s])[j], before + stream) {
        DeliversMore((sources + [s])[j], before, stream);
      }
      forall i | 0 <= i < |before + stream| ensures FromSome((before + stream)[i], sources + [s]) {
        FromMoreSources((before + stream)[i], sources, s);
      }
    }
  }

  /**
   What `WaitAndRebalance` leaves in an empty store when every stream is complete: a key is there
   iff it moves to the node, some peer held it live for at least 1 ms more, and it has no
   tombstone; its value and remaining time are those of a peer.
   */
  lemma JoinStoresExactlyWhatMoves(h: Hashing, vnodes: nat, self: NodeInfo, peers: seq<NodeInfo>, streams: Streams,
                                   holdings: Holdings, tombstones: set<string>, key: string)
    requires NotAmong(self.id, peers)
    requires forall i :: 0 <= i < |peers| ==> BringsAll(streams(peers[i].id), holdings(peers[i].id))
    ensures var slots := JoinerRing(h, vnodes, self, peers).slots;
            var arrivals := AllArrivals(self.id, peers, streams);
            var r := Pull(h, slots, self.id, map[], arrivals) - tombstones;
            && (key in r <==> && key !in tombstones
                              && Owner(slots, h.key(key)) != Owner(RingOf(h, vnodes, peers).slots, h.key(key))
                              && exists j :: 0 <= j < |Sources(peers, holdings)|
                                   && HeldLongEnough(Sources(peers, holdings)[j], key))
            && (key in r ==> ReceivedFrom(Sources(peers, holdings), arrivals, key, r[key]))
  {
    CompleteStreamsDeliver(self.id, peers, streams, holdings);
    RebalancePullsExactlyWhatMoves(h, vnodes, self, peers, Sources(peers, holdings),
      AllArrivals(self.id, peers, streams), key);
  }

  class Rebalancer {
    const store: Store
    const table: Membership.MembershipTable
    const tombstones: Tombstones
    const hashing: Hashing
    const vnodes: nat

    constructor (store: Store, table: Membership.MembershipTable, tombstones: Tombstones, hashing: Hashing, vnodes: nat)
      ensures this.store == store && this.table == table && this.tombstones == tombstones
      ensures this.hashing == hashing && this.vnodes == vnodes
    {
      this.store := store;
      this.table := table;
      this.tombstones := tombstones;
      this.hashing := hashing;
      this.vnodes := vnodes;
    }

    method BuildRing(self: NodeInfo, peers: seq<NodeInfo>) returns (ring: HashRing)
      ensures fresh(ring) && ring.Valid() && ring.hashing == hashing
      ensures ring.State() == JoinerRing(hashing, vnodes, self, peers)
    {
      ring := new HashRing(hashing, vnodes);
      ring.Add(self);
      ghost var start := ring.State();
      var i := 0;
      while i < |peers|
        invariant i <= |peers| && fresh(ring) && ring.Valid() && ring.hashing == hashing && ring.vnodeCount == vnodes
        invariant ring.State() == AddNodes(hashing, vnodes, start, peers[..i])
      {
        assert peers[..i + 1][..i] == peers[..i];
        ring.Add(peers[i]);
        i := i + 1;
      }
      assert peers[..i] == peers;
    }

    /** Keeps what the ring assigns to this node. */
    method PullKeysFrom(ring: HashRing, stream: seq<Arrival>)
      requires ring.Valid() && ring.hashing == hashing
      modifies store
      ensures store.data == Pull(hashing, ring.slots, table.localId, old(store.data), stream)
    {
      var i := 0;
      while i < |stream|
        invariant i <= |stream|
        invariant store.data == Pull(hashing, ring.slots, table.localId, old(store.data), stream[..i])
      {
        assert stream[..i + 1][..i] == stream[..i];
        var owner := ring.GetNode(stream[i].chunk.key);
        ClockwiseFacts(ring.slots, hashing.key(stream[i].chunk.key));
        if owner.Some? && owner.value.id == table.localId {
          store.SetFromTransfer(stream[i].chunk, stream[i].at);
        }
        i := i + 1;
      }
      assert stream[..i] == stream;
    }

    /** Pulls from every peer; a failed stream keeps what it brought and does not stop the others. */
    method PullFromAll(peers: seq<NodeInfo>, ring: HashRing, streams: Streams)
      requires ring.Valid() && ring.hashing == hashing
      modifies store
      ensures store.data ==
        Pull(hashing, ring.slots, table.localId, old(store.data), AllArrivals(table.localId, peers, streams))
    {
      var i := 0;
      while i < |peers|
        invariant i <= |peers|
        invariant store.data ==
          Pull(hashing, ring.slots, table.localId, old(store.data), AllArrivals(table.localId, peers[..i], streams))
      {
        ghost var before := AllArrivals(table.localId, peers[..i], streams);
        OnePeerMore(table.localId, peers, i, streams);
        if peers[i].id != table.localId {
          PullConcat(hashing, ring.slots, table.localId, old(store.data), before, streams(peers[i].id));
          PullKeysFrom(ring, streams(peers[i].id));
        }
        i := i + 1;
      }
      assert peers[..i] == peers;
    }

    /** Removes every key deleted during the transfer. */
    method ApplyTombstones(now: nat)
      modifies store
      ensures store.data == old(store.data) - tombstones.keys
    {
      var todo := tombstones.keys;
      while todo != {}
        invariant todo <= tombstones.keys
        invariant store.data == old(store.data) - (tombstones.keys - todo)
      {
        var key :| key in todo;
        var _ := store.DeleteKey(key, now);
        todo := todo - {key};
      }
    }

    /**
     One attempt at the whole join: nothing happens until a routable peer is visible. The table is
     then read again; `meanwhile` is what other tasks have made of it by that time, so that the
     second reading may find other peers, or none.
     */
    method WaitAndRebalance(localAddr: string, meanwhile: Membership.Members, streams: Streams, now: nat)
      returns (done: bool, peers: seq<NodeInfo>)
      requires table.Valid() && table.localId in meanwhile
      modifies store, table
      ensures table.Valid()
      ensures !done ==> store.data == old(store.data) && table.members == old(table.members)
      ensures done <==> exists id ::
        id in old(table.members) && id != table.localId && old(table.members)[id].status == Membership.Alive
      ensures done ==>
        && (forall id :: id in InfoIds(peers) <==>
              id in meanwhile && id != table.localId && meanwhile[id].status == Membership.Alive)
        && NotAmong(table.localId, peers)
        && store.data ==
             Pull(hashing, JoinerRing(hashing, vnodes, NodeInfo(table.localId, localAddr), peers).slots, table.localId,
                              old(store.data), AllArrivals(table.localId, peers, streams)) - tombstones.keys
        && table.members == meanwhile[table.localId := meanwhile[table.localId].(
                              status := Membership.Alive, incarnation := meanwhile[table.localId].incarnation + 1)]
    {
      peers := table.RoutablePeers();
      if peers == [] {
        return false, peers;
      }
      assert peers[0].id in InfoIds(peers);
      // Between the two readings other tasks merge gossip and mark silent peers.
      table.members := meanwhile;
      peers := table.RoutablePeers();
      forall i | 0 <= i < |peers| ensures peers[i].id != table.localId {
        assert peers[i].id in InfoIds(peers);
      }
      var ring := BuildRing(NodeInfo(table.localId, localAddr), peers);
      PullFromAll(peers, ring, streams);
      ApplyTombstones(now);
      table.MarkSelfAlive();
      done := true;
    }
  }
}
