/**
 A cluster of any size as a state machine, and what holds in every run of it.

 Every started node has a view (its membership table without addresses and timestamps). Messages
 are never forgotten: any message ever sent may be delivered now, later, again, or never. A node
 that crashes simply stops acting. Ids are started at most once and seeds are listed under ids
 generated for the purpose, as the node binary does.
 */
module Cluster {
  import opened Common
  import opened Membership
  import opened Gossip

  /** `rebalancing` holds from a start with seeds until `mark_self_alive` runs. */
  datatype NodeState = NodeState(view: View, rebalancing: bool)

  /** `used` are all ids ever generated; `net` are all messages ever sent. */
  datatype State = State(nodes: map<NodeId, NodeState>, used: set<NodeId>, net: set<View>)

  datatype Action =
    | Start(id: NodeId, seeds: set<NodeId>)
    | Send(id: NodeId)
    | Answer(id: NodeId, msg: View)
    | Receive(id: NodeId, msg: View)
    | TimeOut(id: NodeId, after: View)
    | FinishJoin(id: NodeId)

  /** The empty message is the one a router sends. */
  ghost predicate Init(c: State) {
    c.nodes == map[] && c.used == {} && c.net == {map[]}
  }

  ghost predicate Enabled(c: State, a: Action) {
    match a
    case Start(id, seeds) => id !in c.used && id !in seeds && seeds !! c.used
    case Send(id) => id in c.nodes
    case Answer(id, msg) => id in c.nodes && msg in c.net
    case Receive(id, msg) => id in c.nodes && msg in c.net
    case TimeOut(id, after) => id in c.nodes && TimesOut(id, c.nodes[id].view, after)
    case FinishJoin(id) => id in c.nodes && c.nodes[id].rebalancing && id in c.nodes[id].view
  }

  /** The acting node's state after the action. */
  ghost function Acted(c: State, a: Action): NodeState
    requires Enabled(c, a)
  {
    match a
    case Start(id, seeds) => NodeState(InitialView(id, seeds), seeds != {})
    case Send(id) => c.nodes[id]
    case Answer(id, msg) => c.nodes[id].(view := MergeView(id, c.nodes[id].view, msg))
    case Receive(id, msg) => c.nodes[id].(view := MergeView(id, c.nodes[id].view, msg))
    case TimeOut(id, after) => c.nodes[id].(view := after)
    case FinishJoin(id) => NodeState(FinishedView(id, c.nodes[id].view), false)
  }

  ghost function Next(c: State, a: Action): State
    requires Enabled(c, a)
  {
    var node := Acted(c, a);
    State(c.nodes[a.id := node],
          if a.Start? then c.used + {a.id} + a.seeds else c.used,
          if a.Send? || a.Answer? then c.net + {node.view} else c.net)
  }

  ghost predicate IsRun(states: seq<State>, actions: seq<Action>) {
    && |states| == |actions| + 1
    && Init(states[0])
    && forall i {:trigger actions[i]} :: 0 <= i < |actions| ==>
         Enabled(states[i], actions[i]) && states[i + 1] == Next(states[i], actions[i])
  }

  ghost predicate Reachable(c: State) {
    exists states, actions :: IsRun(states, actions) && states[|actions|] == c
  }

  // ----- The invariant -------------------------------------------------------

  /** Some table or some message says `r` about `n`. */
  ghost predicate Said(c: State, n: NodeId, r: Record) {
    || (exists m :: m in c.nodes && n in c.nodes[m].view && c.nodes[m].view[n] == r)
    || (exists msg :: msg in c.net && n in msg && msg[n] == r)
  }

  ghost predicate KnowsItself(c: State) {
    && (forall n :: n in c.nodes ==> n in c.nodes[n].view && n in c.used)
    && (forall n, r :: Said(c, n, r) ==> n in c.used)
  }

  ghost function Own(c: State, n: NodeId): Record
    requires n in c.nodes && n in c.nodes[n].view
  {
    c.nodes[n].view[n]
  }

  /** A joining node is (Joining, 0) everywhere; afterwards it calls itself Alive. */
  ghost predicate JoiningIsUniform(c: State)
    requires KnowsItself(c)
  {
    forall n :: n in c.nodes ==>
      if c.nodes[n].rebalancing
      then forall r :: Said(c, n, r) ==> r == Record(Joining, 0)
      else Own(c, n).status == Alive
  }

  /** Nobody holds an incarnation of `n` above the one `n` itself holds. */
  ghost predicate OwnerIsNewest(c: State)
    requires KnowsItself(c)
  {
    forall n, r :: n in c.nodes && Said(c, n, r) ==> r.incarnation <= Own(c, n).incarnation
  }

  ghost predicate Inv(c: State) {
    KnowsItself(c) && JoiningIsUniform(c) && OwnerIsNewest(c)
  }

  lemma OwnIsSaid(c: State, n: NodeId)
    requires n in c.nodes && n in c.nodes[n].view
    ensures Said(c, n, Own(c, n))
  {}

  /** Where a record said after a step comes from. */
  ghost predicate Explained(c: State, a: Action, n: NodeId, r: Record)
    requires Enabled(c, a)
  {
    || Said(c, n, r)
    || (a.id == n && n in Acted(c, a).view && r == Acted(c, a).view[n])
    || (a.Start? && n in a.seeds && r == Record(Alive, 0))
    || (a.TimeOut? && a.id != n && exists r0 :: Said(c, n, r0) && r0 != r && MayTimeOut(r0, r))
  }

  lemma ActorExplained(c: State, a: Action, n: NodeId)
    requires Enabled(c, a) && n in Acted(c, a).view
    ensures Explained(c, a, n, Acted(c, a).view[n])
  {
    var r := Acted(c, a).view[n];
    if !a.Start? {
      assert n in c.nodes[a.id].view ==> Said(c, n, c.nodes[a.id].view[n]);
      if a.Answer? || a.Receive? {
        assert n in a.msg ==> Said(c, n, a.msg[n]);
      }
    }
  }

  lemma StepExplained(c: State, a: Action, n: NodeId, r: Record)
    requires Enabled(c, a) && Said(Next(c, a), n, r)
    ensures Explained(c, a, n, r)
  {
    var c' := Next(c, a);
    if n in Acted(c, a).view && r == Acted(c, a).view[n] {
      ActorExplained(c, a, n);
    } else if m :| m in c'.nodes && n in c'.nodes[m].view && c'.nodes[m].view[n] == r {
      assert m != a.id;
      assert n in c.nodes[m].view && c.nodes[m].view[n] == r;
    } else {
      var msg :| msg in c'.net && n in msg && msg[n] == r;
      assert msg in c.net;
    }
  }

  /** A node's own record: unchanged, refuted one step above its incarnation, or finished joining. */
  lemma OwnStep(c: State, a: Action, n: NodeId)
    requires Inv(c) && Enabled(c, a) && n in c.nodes
    ensures n in Next(c, a).nodes[n].view
    ensures var own, own' := Own(c, n), Own(Next(c, a), n);
            || own' == own
            || (a.id == n && own' == Record(Alive, own.incarnation + 1)
                && (a.FinishJoin? || (own.status == Alive && !c.nodes[n].rebalancing)))
  {
    OwnIsSaid(c, n);
    if a.id == n && (a.Answer? || a.Receive?) && n in a.msg {
      assert Said(c, n, a.msg[n]);
    }
  }

  lemma StepKeepsKnowledge(c: State, a: Action)
    requires Inv(c) && Enabled(c, a)
    ensures KnowsItself(Next(c, a))
  {
    var c' := Next(c, a);
    forall n | n in c'.nodes ensures n in c'.nodes[n].view && n in c'.used {
      if n in c.nodes { OwnStep(c, a, n); }
    }
    forall n, r | Said(c', n, r) ensures n in c'.used {
      StepExplained(c, a, n, r);
    }
  }

  lemma StepKeepsNodeInvariant(c: State, a: Action, n: NodeId, r: Record)
    requires Inv(c) && Enabled(c, a) && KnowsItself(Next(c, a))
    requires n in Next(c, a).nodes && Said(Next(c, a), n, r)
    ensures r.incarnation <= Own(Next(c, a), n).incarnation
    ensures Next(c, a).nodes[n].rebalancing ==> r == Record(Joining, 0)
    ensures !Next(c, a).nodes[n].rebalancing ==> Own(Next(c, a), n).status == Alive
  {
    StepExplained(c, a, n, r);
    if n in c.nodes {
      OwnIsSaid(c, n);
      OwnStep(c, a, n);
    } else {
      assert a.Start? && a.id == n;
      assert !Said(c, n, r);
    }
  }

  lemma StepKeepsInv(c: State, a: Action)
    requires Inv(c) && Enabled(c, a)
    ensures Inv(Next(c, a))
  {
    var c' := Next(c, a);
    StepKeepsKnowledge(c, a);
    forall n, r | n in c'.nodes && Said(c', n, r)
      ensures r.incarnation <= Own(c', n).incarnation
      ensures c'.nodes[n].rebalancing ==> r == Record(Joining, 0)
    {
      StepKeepsNodeInvariant(c, a, n, r);
    }
    forall n | n in c'.nodes && !c'.nodes[n].rebalancing ensures Own(c', n).status == Alive {
      OwnIsSaid(c', n);
      StepKeepsNodeInvariant(c, a, n, Own(c', n));
    }
  }

  /** Every state of every run satisfies the invariant. */
  lemma {:induction false} RunInvariant(states: seq<State>, actions: seq<Action>, i: nat)
    requires IsRun(states, actions) && i < |states|
    ensures Inv(states[i])
  {
    if i == 0 {
    } else {
      RunInvariant(states, actions, i - 1);
      StepKeepsInv(states[i - 1], actions[i - 1]);
    }
  }

  lemma ReachableInv(c: State)
    requires Reachable(c)
    ensures Inv(c)
  {
    var states, actions :| IsRun(states, actions) && states[|actions|] == c;
    RunInvariant(states, actions, |actions|);
  }

  // ----- What follows for whole runs ----------------------------------------

  /** Between the actions numbered `s` and `j` (exclusive) the node finished joining. */
  ghost predicate FinishedBetween(actions: seq<Action>, s: nat, j: nat, n: NodeId) {
    exists k :: s < k < j && k < |actions| && actions[k] == FinishJoin(n)
  }

  /** The rebalancing flag drops at the node's own FinishJoin and at no other action. */
  lemma FlagStep(c: State, a: Action, n: NodeId)
    requires Inv(c) && Enabled(c, a) && n in c.nodes
    ensures n in Next(c, a).nodes
    ensures Next(c, a).nodes[n].rebalancing == (c.nodes[n].rebalancing && a != FinishJoin(n))
    ensures n in Next(c, a).nodes[n].view
    ensures !Next(c, a).nodes[n].rebalancing && (c.nodes[n].rebalancing || Own(c, n).incarnation >= 1)
            ==> Own(Next(c, a), n).incarnation >= 1
  {
    OwnStep(c, a, n);
  }

  lemma {:induction false} RebalancingUntilFinish(states: seq<State>, actions: seq<Action>, s: nat, j: nat, n: NodeId)
    requires IsRun(states, actions) && s < |actions| && s < j < |states|
    requires actions[s].Start? && actions[s].id == n && actions[s].seeds != {}
    ensures n in states[j].nodes && n in states[j].nodes[n].view
    ensures states[j].nodes[n].rebalancing <==> !FinishedBetween(actions, s, j, n)
    ensures !states[j].nodes[n].rebalancing ==> Own(states[j], n).incarnation >= 1
    decreases j
  {
    if j == s + 1 {
      assert states[j] == Next(states[s], actions[s]);
    } else {
      RebalancingUntilFinish(states, actions, s, j - 1, n);
      RunInvariant(states, actions, j - 1);
      var c, a := states[j - 1], actions[j - 1];
      assert Enabled(c, a) && states[j] == Next(c, a);
      FlagStep(c, a, n);
      FinishedStep(actions, s, j - 1, n);
    }
  }

  lemma FinishedStep(actions: seq<Action>, s: nat, j: nat, n: NodeId)
    requires s < j < |actions|
    ensures FinishedBetween(actions, s, j + 1, n) <==> FinishedBetween(actions, s, j, n) || actions[j] == FinishJoin(n)
  {}

  /**
   Joining ends only by finishing the rebalance: until the node's own FinishJoin action, every
   record of it in any table or message is (Joining, 0). In particular no refutation makes it
   Alive early, and its own record stops being Joining exactly at that action.
   */
  lemma JoiningEndsOnlyByFinishing(states: seq<State>, actions: seq<Action>, s: nat, j: nat, n: NodeId)
    requires IsRun(states, actions) && s < |actions| && s < j < |states|
    requires actions[s].Start? && actions[s].id == n && actions[s].seeds != {}
    ensures n in states[j].nodes && n in states[j].nodes[n].view
    ensures if FinishedBetween(actions, s, j, n)
            then Own(states[j], n).status == Alive && Own(states[j], n).incarnation >= 1
            else forall r :: Said(states[j], n, r) ==> r == Record(Joining, 0)
    ensures Own(states[j], n).status == Joining <==> !FinishedBetween(actions, s, j, n)
  {
    RebalancingUntilFinish(states, actions, s, j, n);
    RunInvariant(states, actions, j);
    OwnIsSaid(states[j], n);
  }

  /**
   Incarnation ownership: in every state of every run nobody holds an incarnation of a started
   node above the node's own, and the node never calls itself Suspect or Dead.
   */
  lemma IncarnationOwnership(states: seq<State>, actions: seq<Action>, i: nat, n: NodeId)
    requires IsRun(states, actions) && i < |states| && n in states[i].nodes
    ensures n in states[i].nodes[n].view
    ensures forall r :: Said(states[i], n, r) ==> r.incarnation <= Own(states[i], n).incarnation
    ensures Own(states[i], n).status in {Joining, Alive}
  {
    RunInvariant(states, actions, i);
    OwnIsSaid(states[i], n);
  }

  /** Every other table holds a strictly older incarnation of `n`, if any. */
  ghost predicate OthersAreOlder(c: State, n: NodeId)
    requires n in c.nodes && n in c.nodes[n].view
  {
    forall m :: m in c.nodes && m != n && n in c.nodes[m].view ==>
      c.nodes[m].view[n].incarnation < Own(c, n).incarnation
  }

  /**
   Each time a node raises its incarnation, its new record is strictly newer than every record of
   it said anywhere before; afterwards everything said about it is older or is that new record.
   */
  lemma RefutationIsNewest(states: seq<State>, actions: seq<Action>, i: nat, n: NodeId)
    requires IsRun(states, actions) && i < |actions| && n in states[i].nodes && n in states[i + 1].nodes
    requires n in states[i].nodes[n].view && n in states[i + 1].nodes[n].view
    requires Own(states[i + 1], n).incarnation != Own(states[i], n).incarnation
    ensures actions[i].id == n
    ensures Own(states[i + 1], n) == Record(Alive, Own(states[i], n).incarnation + 1)
    ensures forall r :: Said(states[i], n, r) ==> r.incarnation < Own(states[i + 1], n).incarnation
    ensures forall r :: Said(states[i + 1], n, r) ==>
      r == Own(states[i + 1], n) || r.incarnation < Own(states[i + 1], n).incarnation
    ensures OthersAreOlder(states[i + 1], n)
  {
    RunInvariant(states, actions, i);
    var c, a := states[i], actions[i];
    OwnStep(c, a, n);
    forall r | Said(states[i + 1], n, r)
      ensures r == Own(states[i + 1], n) || r.incarnation < Own(states[i + 1], n).incarnation
    {
      StepExplained(c, a, n, r);
    }
    var c' := states[i + 1];
    forall m | m in c'.nodes && m != n && n in c'.nodes[m].view
      ensures c'.nodes[m].view[n].incarnation < Own(c', n).incarnation
    {
      assert Said(c, n, c.nodes[m].view[n]);
    }
  }

  lemma StepIsMonotone(c: State, a: Action, m: NodeId, p: NodeId)
    requires Inv(c) && Enabled(c, a) && m in c.nodes && p in c.nodes[m].view
    ensures p in Next(c, a).nodes[m].view
    ensures Leq(c.nodes[m].view[p], Next(c, a).nodes[m].view[p])
  {
    if a.id == m && p == m {
      OwnStep(c, a, m);
    }
  }

  /** Views never go back: what a node records about any id only grows in (incarnation, rank). */
  lemma {:induction false} ViewsAreMonotone(states: seq<State>, actions: seq<Action>, i: nat, j: nat, m: NodeId,
                                            p: NodeId)
    requires IsRun(states, actions) && i <= j < |states|
    requires m in states[i].nodes && p in states[i].nodes[m].view
    ensures m in states[j].nodes && p in states[j].nodes[m].view
    ensures Leq(states[i].nodes[m].view[p], states[j].nodes[m].view[p])
    decreases j
  {
    if i < j {
      ViewsAreMonotone(states, actions, i, j - 1, m, p);
      RunInvariant(states, actions, j - 1);
      var c, a := states[j - 1], actions[j - 1];
      assert Enabled(c, a) && states[j] == Next(c, a);
      StepIsMonotone(c, a, m, p);
      LeqTransitive(states[i].nodes[m].view[p], c.nodes[m].view[p], Next(c, a).nodes[m].view[p]);
    }
  }

  lemma LeqTransitive(a: Record, b: Record, c: Record)
    requires Leq(a, b) && Leq(b, c)
    ensures Leq(a, c)
  {}

  /** At some moment up to `j` the node itself held exactly (Alive, k). */
  ghost predicate ClaimedBy(states: seq<State>, j: nat, n: NodeId, k: nat)
    requires j < |states|
  {
    exists t :: 0 <= t <= j && n in states[t].nodes && n in states[t].nodes[n].view
      && Own(states[t], n) == Record(Alive, k)
  }

  /** Every positive incarnation of a started node that is said anywhere was first claimed by that node itself. */
  lemma {:induction false} IncarnationsComeFromTheirOwner(states: seq<State>, actions: seq<Action>, j: nat, n: NodeId,
                                                          r: Record)
    requires IsRun(states, actions) && j < |states| && n in states[j].nodes
    requires Said(states[j], n, r) && r.incarnation > 0
    ensures ClaimedBy(states, j, n, r.incarnation)
    decreases j
  {
    RunInvariant(states, actions, j);
    if j == 0 {
    } else {
      var c, a := states[j - 1], actions[j - 1];
      RunInvariant(states, actions, j - 1);
      assert states[j] == Next(c, a);
      StepOrigin(c, a, n, r);
      if Own(states[j], n) != Record(Alive, r.incarnation) {
        var r0 :| Said(c, n, r0) && r0.incarnation == r.incarnation;
        IncarnationsComeFromTheirOwner(states, actions, j - 1, n, r0);
      }
    }
  }

  /** A positive incarnation said after a step was said before it, or its owner has just claimed it. */
  lemma StepOrigin(c: State, a: Action, n: NodeId, r: Record)
    requires Inv(c) && Enabled(c, a) && Inv(Next(c, a)) && n in Next(c, a).nodes
    requires Said(Next(c, a), n, r) && r.incarnation > 0
    ensures || Own(Next(c, a), n) == Record(Alive, r.incarnation)
            || (n in c.nodes && exists r0 :: Said(c, n, r0) && r0.incarnation == r.incarnation)
  {
    StepExplained(c, a, n, r);
    OwnIsSaid(Next(c, a), n);
  }

  /**
   A peer recorded Dead at incarnation k is recorded otherwise later only at a greater incarnation,
   and if the peer was ever started, it claimed that incarnation itself.
   */
  lemma DeadLeavesOnlyByItsOwnClaim(states: seq<State>, actions: seq<Action>, i: nat, j: nat, m: NodeId, p: NodeId)
    requires IsRun(states, actions) && i <= j < |states|
    requires m in states[i].nodes && p in states[i].nodes[m].view && states[i].nodes[m].view[p].status == Dead
    ensures m in states[j].nodes && p in states[j].nodes[m].view
    ensures var later := states[j].nodes[m].view[p];
            later.status != Dead ==>
              && later.incarnation > states[i].nodes[m].view[p].incarnation
              && (p in states[j].nodes ==> ClaimedBy(states, j, p, later.incarnation))
  {
    ViewsAreMonotone(states, actions, i, j, m, p);
    var later := states[j].nodes[m].view[p];
    if later.status != Dead && p in states[j].nodes {
      IncarnationsComeFromTheirOwner(states, actions, j, p, later);
    }
  }
}
