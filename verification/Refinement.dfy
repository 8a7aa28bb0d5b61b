/**
 The state machines of Cluster and JoinProtocol do what the code does: every operation on a real
 membership table, and every handler of the joining node, is one of their actions and has the same effect.
 */
module Refinement {
  import opened Common
  import opened Membership
  import opened Gossip
  import Cluster
  import CacheStore
  import JoinProtocol

  /** Node `n` of the cluster has the table `members`. */
  ghost predicate Has(c: Cluster.State, n: NodeId, members: Members) {
    n in c.nodes && n in members && c.nodes[n].view == ViewOf(members)
  }

  // ----- Gossip --------------------------------------------------------------

  /** A new table is a started node. */
  lemma StartIsAction(c: Cluster.State, n: NodeId, seeds: seq<NodeInfo>, now: nat)
    requires n !in c.used && n !in InfoIds(seeds) && InfoIds(seeds) !! c.used
    ensures Cluster.Enabled(c, Cluster.Start(n, InfoIds(seeds)))
    ensures var c' := Cluster.Next(c, Cluster.Start(n, InfoIds(seeds)));
            Has(c', n, InitialMembers(n, seeds, now)) && (c'.nodes[n].rebalancing <==> seeds != [])
  {
    InitialTable(n, seeds, now);
    assert n in ViewOf(InitialMembers(n, seeds, now));
    assert seeds != [] ==> seeds[0].id in InfoIds(seeds);
  }

  /** Listing the table for a peer is a send. */
  lemma ListingIsAction(c: Cluster.State, n: NodeId, members: Members)
    requires Has(c, n, members)
    ensures Cluster.Enabled(c, Cluster.Send(n))
    ensures var c' := Cluster.Next(c, Cluster.Send(n));
            Has(c', n, members) && ViewOf(members) in c'.net
  {}

  lemma TouchedView(members: Members, id: NodeId, now: nat)
    ensures ViewOf(Touched(members, id, now)) == ViewOf(members)
  {}

  /** Serving a request is an answer: the table merges it and the reply is sent. */
  lemma ExchangeIsAction(c: Cluster.State, n: NodeId, members: Members, request: seq<Report>, heard: View,
                         sender: Option<NodeId>, now: nat)
    requires Has(c, n, members) && Lists(request, heard) && heard in c.net
    ensures Cluster.Enabled(c, Cluster.Answer(n, heard))
    ensures var c', after := Cluster.Next(c, Cluster.Answer(n, heard)), Received(n, members, request, sender, now);
            Has(c', n, after) && ViewOf(after) in c'.net
  {
    var merged := AbsorbAll(n, members, request, now);
    MergeListing(n, members, request, heard, now);
    assert n in ViewOf(merged);
    if sender.Some? {
      TouchedView(merged, sender.value, now);
    }
  }

  /** Accepting a reply is a receive. */
  lemma ReplyIsAction(c: Cluster.State, n: NodeId, members: Members, reply: seq<Report>, heard: View, peer: NodeId,
                      now: nat)
    requires Has(c, n, members) && Lists(reply, heard) && heard in c.net
    ensures Cluster.Enabled(c, Cluster.Receive(n, heard))
    ensures Has(Cluster.Next(c, Cluster.Receive(n, heard)), n, AbsorbAll(n, Touched(members, peer, now), reply, now))
  {
    TouchedView(members, peer, now);
    MergeListing(n, Touched(members, peer, now), reply, heard, now);
    assert n in ViewOf(AbsorbAll(n, Touched(members, peer, now), reply, now));
  }

  /** A detector pass is a time-out. */
  lemma PassIsAction(c: Cluster.State, n: NodeId, members: Members, now: nat)
    requires Has(c, n, members)
    ensures var after := TimeOutAll(n, members, now);
            && Cluster.Enabled(c, Cluster.TimeOut(n, ViewOf(after)))
            && Has(Cluster.Next(c, Cluster.TimeOut(n, ViewOf(after))), n, after)
  {
    var after := TimeOutAll(n, members, now);
    assert ViewOf(after).Keys == ViewOf(members).Keys;
    forall id | id in ViewOf(members) ensures MayTimeOut(ViewOf(members)[id], ViewOf(after)[id]) {}
  }

  /** `mark_self_alive` of a rebalancing node finishes its join. */
  lemma FinishIsAction(c: Cluster.State, n: NodeId, members: Members)
    requires Has(c, n, members) && c.nodes[n].rebalancing
    ensures Cluster.Enabled(c, Cluster.FinishJoin(n))
    ensures var after := members[n := members[n].(status := Alive, incarnation := members[n].incarnation + 1)];
            Has(Cluster.Next(c, Cluster.FinishJoin(n)), n, after)
  {
    var after := members[n := members[n].(status := Alive, incarnation := members[n].incarnation + 1)];
    assert ViewOf(after) == FinishedView(n, ViewOf(members));
  }

  // ----- The joining node ----------------------------------------------------

  /** A write is refused while the node's own record is Joining, and stored otherwise. */
  lemma SetIsEvent(s: JoinProtocol.System, me: NodeId, members: Members, key: string, value: Bytes, ttl: Option<nat>,
                   now: nat)
    requires Has(s.cluster, me, members)
    ensures JoinProtocol.Enabled(s, me, JoinProtocol.SetArrives(key, value, ttl, now))
    ensures var s' := JoinProtocol.Next(s, me, JoinProtocol.SetArrives(key, value, ttl, now));
            var entry := CacheStore.CacheEntry(value, if ttl.None? then None else Some(now + ttl.value));
            s'.local == if members[me].status == Joining then s.local
                        else s.local.(data := s.local.data[key := entry])
  {}

  /** A delete that is let through removes the key. */
  lemma DeleteIsEvent(s: JoinProtocol.System, me: NodeId, members: Members, req: nat, key: string)
    requires Has(s.cluster, me, members) && members[me].status != Joining && req !in s.local.pending
    ensures JoinProtocol.Enabled(s, me, JoinProtocol.DeleteArrives(req, key))
    ensures JoinProtocol.Next(s, me, JoinProtocol.DeleteArrives(req, key)).local ==
            s.local.(data := s.local.data - {key})
  {}

  ghost predicate Steps(s: JoinProtocol.System, me: NodeId, e: JoinProtocol.Event, s': JoinProtocol.System) {
    JoinProtocol.Enabled(s, me, e) && s' == JoinProtocol.Next(s, me, e)
  }

  /** A delete that meets the gate records its tombstone, removes the key and returns. */
  lemma GatedDeleteIsEvents(s: JoinProtocol.System, me: NodeId, members: Members, req: nat, key: string)
    returns (s1: JoinProtocol.System, s2: JoinProtocol.System, s3: JoinProtocol.System, s4: JoinProtocol.System)
    requires Has(s.cluster, me, members) && members[me].status == Joining && req !in s.local.pending
    ensures Steps(s, me, JoinProtocol.DeleteArrives(req, key), s1)
    ensures Steps(s1, me, JoinProtocol.RecordTombstone(req), s2)
    ensures Steps(s2, me, JoinProtocol.RemoveKey(req), s3)
    ensures Steps(s3, me, JoinProtocol.DeleteReturns(req), s4)
    ensures s4.local == s.local.(data := s.local.data - {key}, tombstones := s.local.tombstones + {key},
                                 returned := s.local.returned + {key})
  {
    s1 := JoinProtocol.Next(s, me, JoinProtocol.DeleteArrives(req, key));
    s2 := JoinProtocol.Next(s1, me, JoinProtocol.RecordTombstone(req));
    s3 := JoinProtocol.Next(s2, me, JoinProtocol.RemoveKey(req));
    s4 := JoinProtocol.Next(s3, me, JoinProtocol.DeleteReturns(req));
    assert s3.local.pending - {req} == s.local.pending;
  }

  /** A chunk that the ring assigns to the node is stored as `set_from_transfer` does. */
  lemma ChunkIsEvent(s: JoinProtocol.System, me: NodeId, members: Members, chunk: CacheStore.Chunk, at: nat)
    requires Has(s.cluster, me, members) && s.local.phase.Transferring?
    ensures JoinProtocol.Enabled(s, me, JoinProtocol.ChunkArrives(chunk, at))
    ensures JoinProtocol.Next(s, me, JoinProtocol.ChunkArrives(chunk, at)).local ==
            s.local.(data := CacheStore.StoreChunk(s.local.data, chunk, at))
  {}

  /** Sweeping the store is a discard of the expired keys. */
  lemma SweepIsEvent(s: JoinProtocol.System, me: NodeId, members: Members, now: nat)
    requires Has(s.cluster, me, members)
    ensures var expired := set k | k in s.local.data && !CacheStore.IsLive(s.local.data[k], now);
            && JoinProtocol.Enabled(s, me, JoinProtocol.Discard(expired))
            && JoinProtocol.Next(s, me, JoinProtocol.Discard(expired)).local ==
               s.local.(data := CacheStore.Apply(s.local.data, CacheStore.Sweep, now).0)
  {
    var expired := set k | k in s.local.data && !CacheStore.IsLive(s.local.data[k], now);
    assert s.local.data - expired == CacheStore.Live(s.local.data, now);
  }

  /** The purge visits the listed keys one after the other. */
  ghost predicate Purges(s: JoinProtocol.System, me: NodeId, keys: seq<string>, s': JoinProtocol.System)
    decreases |keys|
  {
    if keys == [] then s == s'
    else
      && JoinProtocol.Enabled(s, me, JoinProtocol.PurgeKey(keys[0]))
      && Purges(JoinProtocol.Next(s, me, JoinProtocol.PurgeKey(keys[0])), me, keys[1..], s')
  }

  /** Applying the tombstones is a start of the purge and one visit to each: it removes exactly their keys. */
  lemma PurgeIsEvents(s: JoinProtocol.System, me: NodeId, members: Members)
    returns (s1: JoinProtocol.System, keys: seq<string>, s2: JoinProtocol.System)
    requires Has(s.cluster, me, members) && s.local.phase.Transferring?
    ensures Steps(s, me, JoinProtocol.StartPurge, s1) && Purges(s1, me, keys, s2)
    ensures s2 == s.(local := s.local.(data := s.local.data - s.local.tombstones, phase := JoinProtocol.Purging({})))
  {
    s1 := JoinProtocol.Next(s, me, JoinProtocol.StartPurge);
    keys, s2 := PurgeRest(s1, me, members, s.local.tombstones);
  }

  lemma {:induction false} PurgeRest(s: JoinProtocol.System, me: NodeId, members: Members, todo: set<string>)
    returns (keys: seq<string>, s': JoinProtocol.System)
    requires Has(s.cluster, me, members) && s.local.phase == JoinProtocol.Purging(todo) && todo <= s.local.tombstones
    ensures Purges(s, me, keys, s')
    ensures s' == s.(local := s.local.(data := s.local.data - todo, phase := JoinProtocol.Purging({})))
    decreases todo
  {
    if todo == {} {
      keys, s' := [], s;
      assert s.local.data - todo == s.local.data;
    } else {
      var key :| key in todo;
      var next := JoinProtocol.Next(s, me, JoinProtocol.PurgeKey(key));
      var rest;
      rest, s' := PurgeRest(next, me, members, todo - {key});
      keys := [key] + rest;
      assert keys[1..] == rest;
      assert s.local.data - {key} - (todo - {key}) == s.local.data - todo;
    }
  }
}
