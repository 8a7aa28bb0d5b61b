/**
 A joining node inside a running cluster: gossip, key transfer, gated writes, deletes that take
 effect in two steps, expiry and the final purge, interleaved in every way.

 The gate of the handlers is the node's own gossip record, so what a client may rely on during a
 join depends on the gossip protocol: had a refutation made the node Alive early, a write could
 slip in and a delete could leave no tombstone.
 */
module JoinProtocol {
  import opened Common
  import opened CacheStore
  import Membership
  import Cluster

  /** How far a delete that met the Joining gate has come. */
  datatype Stage = Gated | Recorded | Removed

  datatype Request = Request(key: string, stage: Stage)

  /** `todo` are the tombstones the purge loop still has to visit. */
  datatype Phase = Transferring | Purging(todo: set<string>) | Joined

  /** The joining node. `returned` collects the keys of deletes that returned while it was joining. */
  datatype Local = Local(data: Data, tombstones: set<string>, pending: map<nat, Request>, returned: set<string>,
                         phase: Phase)

  datatype System = System(cluster: Cluster.State, local: Local)

  datatype Event =
    | Gossip(action: Cluster.Action)
    | ChunkArrives(chunk: Chunk, at: nat)
    | SetArrives(key: string, value: Bytes, ttl: Option<nat>, now: nat)
    | DeleteArrives(req: nat, key: string)
    | RecordTombstone(req: nat)
    | RemoveKey(req: nat)
    | DeleteReturns(req: nat)
    | Discard(keys: set<string>)
    | StartPurge
    | PurgeKey(key: string)
    | Finish

  ghost predicate Present(s: System, me: NodeId) {
    me in s.cluster.nodes && me in s.cluster.nodes[me].view
  }

  /** The gate: `is_self_joining`. */
  predicate IsJoining(s: System, me: NodeId)
    requires Present(s, me)
  {
    s.cluster.nodes[me].view[me].status == Membership.Joining
  }

  ghost predicate AtStage(l: Local, req: nat, stage: Stage) {
    req in l.pending && l.pending[req].stage == stage
  }

  ghost predicate Enabled(s: System, me: NodeId, e: Event) {
    Present(s, me) &&
    match e
    case Gossip(a) => Cluster.Enabled(s.cluster, a) && a != Cluster.FinishJoin(me)
    case ChunkArrives(_, _) => s.local.phase.Transferring?
    case SetArrives(_, _, _, _) => true
    case DeleteArrives(req, _) => req !in s.local.pending
    case RecordTombstone(req) => AtStage(s.local, req, Gated)
    case RemoveKey(req) => AtStage(s.local, req, Recorded)
    case DeleteReturns(req) => AtStage(s.local, req, Removed)
    case Discard(_) => true
    case StartPurge => s.local.phase.Transferring?
    case PurgeKey(key) => s.local.phase.Purging? && key in s.local.tombstones
    case Finish => s.local.phase == Purging({}) && Cluster.Enabled(s.cluster, Cluster.FinishJoin(me))
  }

  function Advance(l: Local, req: nat): Local
    requires req in l.pending && l.pending[req].stage != Removed
  {
    l.(pending := l.pending[req :=
      l.pending[req].(stage := if l.pending[req].stage == Gated then Recorded else Removed)])
  }

  ghost function Next(s: System, me: NodeId, e: Event): System
    requires Enabled(s, me, e)
  {
    var l := s.local;
    match e
    case Gossip(a) => s.(cluster := Cluster.Next(s.cluster, a))
    case ChunkArrives(c, at) => s.(local := l.(data := StoreChunk(l.data, c, at)))
    case SetArrives(key, value, ttl, now) =>
      if IsJoining(s, me) then s else s.(local := l.(data := Apply(l.data, Set(key, value, ttl), now).0))
    case DeleteArrives(req, key) =>
      if IsJoining(s, me) then s.(local := l.(pending := l.pending[req := Request(key, Gated)]))
      else s.(local := l.(data := l.data - {key}))
    case RecordTombstone(req) => s.(local := Advance(l, req).(tombstones := l.tombstones + {l.pending[req].key}))
    case RemoveKey(req) => s.(local := Advance(l, req).(data := l.data - {l.pending[req].key}))
    case DeleteReturns(req) =>
      s.(local := l.(pending := l.pending - {req},
                     returned := if IsJoining(s, me) then l.returned + {l.pending[req].key} else l.returned))
    case Discard(keys) => s.(local := l.(data := l.data - keys))
    case StartPurge => s.(local := l.(phase := Purging(l.tombstones)))
    case PurgeKey(key) => s.(local := l.(data := l.data - {key}, phase := Purging(l.phase.todo - {key})))
    case Finish => System(Cluster.Next(s.cluster, Cluster.FinishJoin(me)), l.(phase := Joined))
  }

  /** The join starts in any reachable cluster in which the node has started with seeds. */
  ghost predicate Init(s: System, me: NodeId) {
    && Cluster.Reachable(s.cluster) && me in s.cluster.nodes && s.cluster.nodes[me].rebalancing
    && s.local == Local(map[], {}, map[], {}, Transferring)
  }

  ghost predicate IsRun(states: seq<System>, me: NodeId, events: seq<Event>) {
    && |states| == |events| + 1
    && Init(states[0], me)
    && forall i {:trigger events[i]} :: 0 <= i < |events| ==>
         Enabled(states[i], me, events[i]) && states[i + 1] == Next(states[i], me, events[i])
  }

  // ----- The invariant -------------------------------------------------------

  /** The gossip side: the gate is closed exactly until the join finishes. */
  ghost predicate GateInv(s: System, me: NodeId) {
    && Cluster.Inv(s.cluster) && me in s.cluster.nodes
    && (s.cluster.nodes[me].rebalancing <==> !s.local.phase.Joined?)
  }

  /** A key that must not come back: absent, or the purge will still visit it. */
  ghost predicate Doomed(l: Local, key: string) {
    && key in l.tombstones
    && match l.phase
       case Transferring => true
       case Purging(todo) => key in todo || key !in l.data
       case Joined => true
  }

  ghost predicate TombInv(l: Local) {
    && (forall req :: req in l.pending && l.pending[req].stage != Gated ==> l.pending[req].key in l.tombstones)
    && (forall req :: req in l.pending && l.pending[req].stage == Removed ==> Doomed(l, l.pending[req].key))
    && (forall key :: key in l.returned ==> Doomed(l, key))
  }

  lemma GateFollowsFlag(s: System, me: NodeId)
    requires GateInv(s, me)
    ensures Present(s, me)
    ensures IsJoining(s, me) <==> !s.local.phase.Joined?
  {
    Cluster.OwnIsSaid(s.cluster, me);
  }

  lemma StepKeepsGate(s: System, me: NodeId, e: Event)
    requires GateInv(s, me) && Enabled(s, me, e)
    ensures GateInv(Next(s, me, e), me)
    ensures Next(s, me, e).local.phase.Joined? <==> s.local.phase.Joined? || e.Finish?
  {
    match e
    case Gossip(a) =>
      Cluster.StepKeepsInv(s.cluster, a);
      Cluster.FlagStep(s.cluster, a, me);
    case Finish =>
      Cluster.StepKeepsInv(s.cluster, Cluster.FinishJoin(me));
      Cluster.FlagStep(s.cluster, Cluster.FinishJoin(me), me);
    case _ =>
  }

  lemma StepKeepsTombs(s: System, me: NodeId, e: Event)
    requires GateInv(s, me) && TombInv(s.local) && Enabled(s, me, e)
    ensures TombInv(Next(s, me, e).local)
  {
    GateFollowsFlag(s, me);
    var l, l' := s.local, Next(s, me, e).local;
    forall key | Doomed(l, key) ensures Doomed(l', key) {
      DoomStays(s, me, e, key);
    }
    forall req | req in l'.pending && l'.pending[req].stage == Removed ensures Doomed(l', l'.pending[req].key) {
      if req in l.pending && l.pending[req] == l'.pending[req] {
        assert Doomed(l, l.pending[req].key);
      } else {
        assert e == RemoveKey(req);
      }
    }
    forall key | key in l'.returned ensures Doomed(l', key) {
      if key !in l.returned {
        assert e.DeleteReturns? && key == l.pending[e.req].key;
      }
    }
  }

  lemma DoomStays(s: System, me: NodeId, e: Event, key: string)
    requires GateInv(s, me) && Enabled(s, me, e) && Doomed(s.local, key)
    ensures Doomed(Next(s, me, e).local, key)
  {
    GateFollowsFlag(s, me);
  }

  lemma {:induction false} RunInvariant(states: seq<System>, me: NodeId, events: seq<Event>, i: nat)
    requires IsRun(states, me, events) && i < |states|
    ensures GateInv(states[i], me) && TombInv(states[i].local)
    ensures states[i].local.phase.Joined? <==> exists k :: 0 <= k < i && events[k].Finish?
  {
    if i == 0 {
      Cluster.ReachableInv(states[0].cluster);
    } else {
      RunInvariant(states, me, events, i - 1);
      StepKeepsGate(states[i - 1], me, events[i - 1]);
      StepKeepsTombs(states[i - 1], me, events[i - 1]);
      assert states[i] == Next(states[i - 1], me, events[i - 1]);
    }
  }

  // ----- What follows --------------------------------------------------------

  /** While the node has not finished joining, no gated write changes its store, whatever gossip says. */
  lemma WritesAreRefusedWhileJoining(states: seq<System>, me: NodeId, events: seq<Event>, i: nat)
    requires IsRun(states, me, events) && i < |events| && events[i].SetArrives?
    ensures states[i + 1] != states[i] ==> exists k :: 0 <= k < i && events[k].Finish?
  {
    RunInvariant(states, me, events, i);
    GateFollowsFlag(states[i], me);
    assert states[i + 1] == Next(states[i], me, events[i]);
  }

  lemma {:induction false} ReturnIsRemembered(states: seq<System>, me: NodeId, events: seq<Event>, j: nat, i: nat)
    requires IsRun(states, me, events) && j < i < |states|
    requires events[j].DeleteReturns? && events[j].req in states[j].local.pending
    requires !states[j].local.phase.Joined?
    ensures states[j].local.pending[events[j].req].key in states[i].local.returned
    decreases i
  {
    var s, e := states[i - 1], events[i - 1];
    assert Enabled(s, me, e) && states[i] == Next(s, me, e);
    if i == j + 1 {
      RunInvariant(states, me, events, j);
      ReturnStep(s, me, e);
    } else {
      ReturnIsRemembered(states, me, events, j, i - 1);
      ReturnedGrows(s, me, e);
    }
  }

  lemma ReturnStep(s: System, me: NodeId, e: Event)
    requires GateInv(s, me) && Enabled(s, me, e) && e.DeleteReturns? && !s.local.phase.Joined?
    ensures s.local.pending[e.req].key in Next(s, me, e).local.returned
  {
    GateFollowsFlag(s, me);
  }

  lemma ReturnedGrows(s: System, me: NodeId, e: Event)
    requires Enabled(s, me, e)
    ensures s.local.returned <= Next(s, me, e).local.returned
  {}

  /**
   No resurrection: in every run, when the node finishes joining, no key whose Delete had returned
   before is in its store.
   */
  lemma NoResurrection(states: seq<System>, me: NodeId, events: seq<Event>, j: nat, i: nat)
    requires IsRun(states, me, events) && j < i < |events|
    requires events[j].DeleteReturns? && events[i].Finish?
    ensures events[j].req in states[j].local.pending
    ensures states[j].local.pending[events[j].req].key !in states[i + 1].local.data
  {
    assert Enabled(states[j], me, events[j]) && Enabled(states[i], me, events[i]);
    RunInvariant(states, me, events, i);
    RunInvariant(states, me, events, j);
    StillJoining(states, me, events, j, i);
    ReturnIsRemembered(states, me, events, j, i);
    assert Doomed(states[i].local, states[j].local.pending[events[j].req].key);
    assert states[i + 1] == Next(states[i], me, events[i]);
  }

  lemma StillJoining(states: seq<System>, me: NodeId, events: seq<Event>, j: nat, i: nat)
    requires IsRun(states, me, events) && j <= i < |states| && !states[i].local.phase.Joined?
    ensures !states[j].local.phase.Joined?
  {
    RunInvariant(states, me, events, i);
    RunInvariant(states, me, events, j);
  }

  /**
   The purge is needed: from any start of a join there is a run in which a key is deleted, the
   delete returns, the transfer then brings the key back, and only the purge removes it.
   */
  lemma TransferCanBringBack(start: System, me: NodeId, key: string, value: Bytes)
    returns (states: seq<System>, events: seq<Event>)
    requires Init(start, me)
    ensures IsRun(states, me, events) && |events| == 8
    ensures events[3] == DeleteReturns(0) && events[7] == Finish
    ensures key !in states[4].local.data && key in states[5].local.data && key !in states[8].local.data
  {
    Cluster.ReachableInv(start.cluster);
    states, events := DeletedRun(start, me, key);
    LastSteps(start, me, key, value);
    var brought := ChunkArrives(Chunk(key, value, None), 0);
    states, events := PurgedRun(start.cluster, states, me, events, key, value, brought);
  }

  /** The chunk arrives, and the purge runs to the end. */
  lemma PurgedRun(c: Cluster.State, states: seq<System>, me: NodeId, events: seq<Event>, key: string, value: Bytes,
                  brought: Event)
    returns (states': seq<System>, events': seq<Event>)
    requires IsRun(states, me, events) && |events| == 4
    requires var l4 := Local(map[], {key}, map[], {key}, Transferring);
             var l5 := l4.(data := map[key := CacheEntry(value, None)]);
             var l6 := l5.(phase := Purging({key}));
             var l7 := l6.(data := map[], phase := Purging({}));
             && states[4] == System(c, l4)
             && Enabled(System(c, l4), me, brought) && Next(System(c, l4), me, brought) == System(c, l5)
             && Enabled(System(c, l5), me, StartPurge) && Next(System(c, l5), me, StartPurge) == System(c, l6)
             && Enabled(System(c, l6), me, PurgeKey(key)) && Next(System(c, l6), me, PurgeKey(key)) == System(c, l7)
             && Enabled(System(c, l7), me, Finish) && Next(System(c, l7), me, Finish).local.data == map[]
    ensures IsRun(states', me, events') && |events'| == 8 && events'[..4] == events && states'[4] == states[4]
    ensures events'[7] == Finish && key in states'[5].local.data && key !in states'[8].local.data
  {
    states', events' := Then(states, me, events, brought);
    states', events' := Then(states', me, events', StartPurge);
    states', events' := Then(states', me, events', PurgeKey(key));
    states', events' := Then(states', me, events', Finish);
  }

  /** A run in which a delete has just returned. */
  lemma DeletedRun(start: System, me: NodeId, key: string) returns (states: seq<System>, events: seq<Event>)
    requires Init(start, me) && GateInv(start, me)
    ensures IsRun(states, me, events) && |events| == 4 && events[3] == DeleteReturns(0)
    ensures states[4] == System(start.cluster, Local(map[], {key}, map[], {key}, Transferring))
  {
    FirstSteps(start, me, key);
    states, events := [start], [];
    states, events := Then(states, me, events, DeleteArrives(0, key));
    states, events := Then(states, me, events, RecordTombstone(0));
    states, events := Then(states, me, events, RemoveKey(0));
    states, events := Then(states, me, events, DeleteReturns(0));
  }

  /** A run can be continued by any enabled event. */
  lemma Then(states: seq<System>, me: NodeId, events: seq<Event>, e: Event)
    returns (states': seq<System>, events': seq<Event>)
    requires IsRun(states, me, events) && Enabled(states[|events|], me, e)
    ensures states' == states + [Next(states[|events|], me, e)] && events' == events + [e]
    ensures IsRun(states', me, events')
  {
    states', events' := states + [Next(states[|events|], me, e)], events + [e];
    forall i | 0 <= i < |events'|
      ensures Enabled(states'[i], me, events'[i]) && states'[i + 1] == Next(states'[i], me, events'[i])
    {
      if i < |events| {
        assert events'[i] == events[i];
      }
    }
  }

  lemma FirstSteps(start: System, me: NodeId, key: string)
    requires Init(start, me) && GateInv(start, me)
    ensures var c := start.cluster;
            var l1 := Local(map[], {}, map[0 := Request(key, Gated)], {}, Transferring);
            var l2 := l1.(tombstones := {key}, pending := map[0 := Request(key, Recorded)]);
            var l3 := l2.(pending := map[0 := Request(key, Removed)]);
            var l4 := l3.(pending := map[], returned := {key});
            && Enabled(start, me, DeleteArrives(0, key)) && Next(start, me, DeleteArrives(0, key)) == System(c, l1)
            && Enabled(System(c, l1), me, RecordTombstone(0))
                 && Next(System(c, l1), me, RecordTombstone(0)) == System(c, l2)
            && Enabled(System(c, l2), me, RemoveKey(0)) && Next(System(c, l2), me, RemoveKey(0)) == System(c, l3)
            && Enabled(System(c, l3), me, DeleteReturns(0))
                 && Next(System(c, l3), me, DeleteReturns(0)) == System(c, l4)
  {
    GateFollowsFlag(start, me);
  }

  lemma LastSteps(start: System, me: NodeId, key: string, value: Bytes)
    requires Init(start, me) && GateInv(start, me)
    ensures var c := start.cluster;
            var l4 := Local(map[], {key}, map[], {key}, Transferring);
            var l5 := l4.(data := map[key := CacheEntry(value, None)]);
            var l6 := l5.(phase := Purging({key}));
            var l7 := l6.(data := map[], phase := Purging({}));
            var chunk := ChunkArrives(Chunk(key, value, None), 0);
            && Enabled(System(c, l4), me, chunk) && Next(System(c, l4), me, chunk) == System(c, l5)
            && Enabled(System(c, l5), me, StartPurge) && Next(System(c, l5), me, StartPurge) == System(c, l6)
            && Enabled(System(c, l6), me, PurgeKey(key)) && Next(System(c, l6), me, PurgeKey(key)) == System(c, l7)
            && Enabled(System(c, l7), me, Finish) && Next(System(c, l7), me, Finish).local.data == map[]
  {
    GateFollowsFlag(start, me);
    var held: Data := map[key := CacheEntry(value, None)];
    assert held - {key} == map[] && {key} - {key} == {};
  }
}
