/**
 The node side of the gossip protocol (gossip/protocol.rs, gossip/server.rs): answering an
 exchange, processing the reply, and the failure detector.
 */
module Gossip {
  import opened Common
  import opened Membership

  const SUSPECT_TIMEOUT: nat := 3 * SECOND
  const DEAD_TIMEOUT: nat := 5 * SECOND

  /** What one pass of `check_timeouts` at `now` does to the entry of another node. */
  function TimeOutEntry(e: MemberEntry, now: nat): MemberEntry {
    match e.status
    case Alive => if now - e.lastSeen > SUSPECT_TIMEOUT then Suspected(e) else e
    case Joining => if now - e.lastSeen > SUSPECT_TIMEOUT then Suspected(e) else e
    case Suspect => if now - e.lastSeen > DEAD_TIMEOUT then Buried(e) else e
    case Dead => e
  }

  function TimeOutAll(self: NodeId, members: Members, now: nat): Members {
    map id | id in members :: if id == self then members[id] else TimeOutEntry(members[id], now)
  }

  /** A record the detector may turn `r` into, whatever it read before it took the lock. */
  predicate MayTimeOut(r: Record, r': Record) {
    && r'.incarnation == r.incarnation
    && (r' == r
        || (r.status == Alive && r'.status == Suspect)
        || (r.status in {Alive, Suspect} && r'.status == Dead))
  }

  /** Any part of a detector pass: each other member's record is left alone or timed out. */
  ghost predicate TimesOut(self: NodeId, v: View, v': View) {
    && v'.Keys == v.Keys
    && (self in v ==> v'[self] == v[self])
    && forall id :: id in v ==> MayTimeOut(v[id], v'[id])
  }

  /** One detector pass over the whole table, as a loop over a snapshot of it. */
  method CheckTimeouts(table: MembershipTable, now: nat)
    requires table.Valid()
    modifies table
    ensures table.Valid()
    ensures table.members == TimeOutAll(table.localId, old(table.members), now)
    ensures TimesOut(table.localId, ViewOf(old(table.members)), ViewOf(table.members))
    ensures forall id :: id in table.members ==>
      table.members[id] == old(table.members)[id].(status := table.members[id].status)
  {
    var snapshot := table.members;
    var todo := snapshot.Keys;
    while todo != {}
      invariant todo <= snapshot.Keys == table.members.Keys && table.Valid()
      invariant forall id :: id in todo ==> table.members[id] == snapshot[id]
      invariant forall id :: id in snapshot && id !in todo ==>
        table.members[id] == if id == table.localId then snapshot[id] else TimeOutEntry(snapshot[id], now)
    {
      var id :| id in todo;
      todo := todo - {id};
      if id == table.localId {
        continue;
      }
      var member := snapshot[id];
      var elapsed := now - member.lastSeen;
      match member.status {
        case Alive =>
          if elapsed > SUSPECT_TIMEOUT { var _ := table.MarkSuspect(id); }
        case Joining =>
          if elapsed > SUSPECT_TIMEOUT { var _ := table.MarkSuspect(id); }
        case Suspect =>
          if elapsed > DEAD_TIMEOUT { var _ := table.MarkDead(id); }
        case Dead =>
      }
    }
  }

  /** What the server makes of a request: the merge, and a sender it knows by then counts as seen now. */
  function Received(self: NodeId, members: Members, request: seq<Report>, sender: Option<NodeId>, now: nat): Members {
    var merged := AbsorbAll(self, members, request, now);
    if sender.Some? then Touched(merged, sender.value, now) else merged
  }

  /** The server side: merge the request, touch the sender, answer with the resulting table. */
  method GossipExchange(table: MembershipTable, request: seq<Report>, sender: Option<NodeId>, now: nat)
    returns (reply: seq<Report>)
    requires table.Valid()
    modifies table
    ensures table.Valid()
    ensures table.members == Received(table.localId, old(table.members), request, sender, now)
    ensures forall heard :: Lists(request, heard) ==>
      ViewOf(table.members) == MergeView(table.localId, ViewOf(old(table.members)), heard)
    ensures sender.Some? && sender.value in table.members ==> table.members[sender.value].lastSeen == now
    ensures Lists(reply, ViewOf(table.members))
    ensures |reply| == |table.members|
    ensures forall i :: 0 <= i < |reply| ==>
      reply[i].id in table.members && reply[i].addr == table.members[reply[i].id].addr
  {
    table.Merge(request, now);
    if sender.Some? {
      table.Touch(sender.value, now);
    }
    reply := table.AllMembers();
  }

  /** The client side: the peer answered, so it is touched, and its reply is merged. */
  method AcceptReply(table: MembershipTable, peer: NodeId, reply: seq<Report>, now: nat)
    requires table.Valid()
    modifies table
    ensures table.Valid()
    ensures table.members == AbsorbAll(table.localId, Touched(old(table.members), peer, now), reply, now)
    ensures peer != table.localId && peer in table.members ==> table.members[peer].lastSeen == now
    ensures forall heard :: Lists(reply, heard) ==>
      ViewOf(table.members) == MergeView(table.localId, ViewOf(old(table.members)), heard)
  {
    table.Touch(peer, now);
    PeerIsSeen(table.localId, table.members, reply, peer, now);
    table.Merge(reply, now);
  }

  /** A whole exchange between two tables: request, answer, and the merge of the reply. */
  method GossipRound(a: MembershipTable, b: MembershipTable, now: nat)
    requires a != b && a.Valid() && b.Valid()
    modifies a, b
    ensures a.Valid() && b.Valid()
    ensures ViewOf(b.members) == MergeView(b.localId, ViewOf(old(b.members)), ViewOf(old(a.members)))
    ensures ViewOf(a.members) == MergeView(a.localId, ViewOf(old(a.members)), ViewOf(b.members))
    ensures a.localId != b.localId ==>
      && a.localId in b.members && b.members[a.localId].lastSeen == now
      && b.localId in a.members && a.members[b.localId].lastSeen == now
  {
    var request := a.AllMembers();
    var reply := GossipExchange(b, request, Some(a.localId), now);
    AcceptReply(a, b.localId, reply, now);
    assert a.localId in ViewOf(old(a.members)) && b.localId in ViewOf(b.members);
    assert a.localId != b.localId ==> a.localId in ViewOf(b.members) && b.localId in ViewOf(a.members);
  }

  /** A peer just touched still counts as seen now after a merge, whatever the merge says about it. */
  lemma PeerIsSeen(self: NodeId, members: Members, reports: seq<Report>, peer: NodeId, now: nat)
    requires peer in members ==> members[peer].lastSeen == now
    ensures var merged := AbsorbAll(self, members, reports, now);
            peer != self && peer in merged ==> merged[peer].lastSeen == now
  {
    if peer != self {
      MergeKeepsOrTakesOver(self, members, reports, now, peer);
    }
  }

  /**
   A sender is safe: after its exchange at `t`, no detector pass up to t+3s changes its entry, and
   one recorded Suspect is not declared dead before t+5s.
   */
  lemma HeardFromIsSafe(self: NodeId, members: Members, request: seq<Report>, sender: NodeId, t: nat, now: nat)
    requires sender != self && sender in Received(self, members, request, Some(sender), t)
    ensures var after := Received(self, members, request, Some(sender), t);
            && after[sender].lastSeen == t
            && (now <= t + 3_000_000_000 ==> TimeOutAll(self, after, now)[sender] == after[sender])
            && (now <= t + 5_000_000_000 && after[sender].status == Suspect ==>
                  TimeOutAll(self, after, now)[sender] == after[sender])
  {}
}
