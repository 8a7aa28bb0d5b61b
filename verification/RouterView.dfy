/**
 The router's view of the cluster: its ring and its health monitor, driven by gossip replies and
 heartbeats (router/src/gossip/mod.rs, router/src/health/mod.rs, router/src/main.rs). The state
 turns out to be a closed form of the history of events.
 */
module RouterView {
  import opened Common
  import opened HashRing
  import Health
  import Membership
  import Cluster
  import Coordinator

  /** `Member` is one usable line of a gossip reply; heartbeats come from the health checker. */
  datatype Event =
    | Member(id: NodeId, addr: string, status: Membership.Status)
    | HeartbeatOk(id: NodeId)
    | HeartbeatFailed(id: NodeId)

  datatype View = View(ring: Ring, health: Health.HealthMap)

  datatype Config = Config(hashing: Hashing, vnodes: nat, threshold: nat, nodes: seq<NodeInfo>)

  function Start(c: Config): View {
    View(RingOf(c.hashing, c.vnodes, c.nodes), map[])
  }

  function Step(c: Config, v: View, e: Event): View {
    match e
    case Member(id, addr, Alive) =>
      View(if ContainsNode(v.ring.nodes, id) then v.ring else AddNode(c.hashing, c.vnodes, v.ring, NodeInfo(id, addr)),
           v.health[id := Health.HealthEntry(Health.Alive, 0)])
    case Member(id, _, Joining) => v.(health := v.health[id := Health.HealthEntry(Health.Joining, 0)])
    case Member(id, _, Suspect) => v.(health := Health.Failed(c.threshold, v.health, id))
    case Member(id, _, Dead) =>
      View(if ContainsNode(v.ring.nodes, id) then RemoveNode(v.ring, id) else v.ring,
           Health.Failed(c.threshold, Health.Failed(c.threshold, Health.Failed(c.threshold, v.health, id), id), id))
    case HeartbeatOk(id) => v.(health := v.health[id := Health.HealthEntry(Health.Alive, 0)])
    case HeartbeatFailed(id) => v.(health := Health.Failed(c.threshold, v.health, id))
  }

  function Run(c: Config, history: seq<Event>): View {
    if history == [] then Start(c)
    else Step(c, Run(c, history[..|history| - 1]), history[|history| - 1])
  }

  // ----- The closed form -----------------------------------------------------

  /** The last report about `id` that was Alive or Dead. */
  function LastVerdict(history: seq<Event>, id: NodeId): Option<Membership.Status> {
    if history == [] then None
    else
      var e := history[|history| - 1];
      if e.Member? && e.id == id && e.status in {Membership.Alive, Membership.Dead} then Some(e.status)
      else LastVerdict(history[..|history| - 1], id)
  }

  /** How the node was last marked. */
  function LastMark(history: seq<Event>, id: NodeId): Option<Health.NodeHealth> {
    if history == [] then None
    else
      var e := history[|history| - 1];
      if e.id == id && (e.HeartbeatOk? || (e.Member? && e.status == Membership.Alive)) then Some(Health.Alive)
      else if e.id == id && e.Member? && e.status == Membership.Joining then Some(Health.Joining)
      else LastMark(history[..|history| - 1], id)
  }

  /** Failures recorded since the last mark; a Dead report counts three times. */
  function FailuresSinceMark(history: seq<Event>, id: NodeId): nat {
    if history == [] then 0
    else
      var e := history[|history| - 1];
      var before := history[..|history| - 1];
      if e.id != id then FailuresSinceMark(before, id)
      else if e.HeartbeatOk? || (e.Member? && e.status in {Membership.Alive, Membership.Joining}) then 0
      else if e.Member? && e.status == Membership.Dead then FailuresSinceMark(before, id) + 3
      else FailuresSinceMark(before, id) + 1
  }

  predicate InRing(c: Config, history: seq<Event>, id: NodeId) {
    match LastVerdict(history, id)
    case Some(s) => s == Membership.Alive
    case None => ContainsNode(c.nodes, id)
  }

  /** Health as a function of the last mark and the number of failures since. */
  function HealthOf(threshold: nat, mark: Option<Health.NodeHealth>, failures: nat): Option<Health.HealthEntry> {
    if failures == 0 then
      (match mark case None => None case Some(h) => Some(Health.HealthEntry(h, 0)))
    else if failures < Max(2, threshold) then Some(Health.HealthEntry(Health.Suspect, failures))
    else Some(Health.HealthEntry(Health.Dead, failures))
  }

  function Known(m: Health.HealthMap, id: NodeId): Option<Health.HealthEntry> {
    if id in m then Some(m[id]) else None
  }

  lemma {:induction false} ConfiguredRing(c: Config, nodes: seq<NodeInfo>)
    ensures WellFormed(RingOf(c.hashing, c.vnodes, nodes))
    ensures RingOf(c.hashing, c.vnodes, nodes).nodes == nodes
  {
    if nodes == [] {
    } else {
      var init, last := nodes[..|nodes| - 1], nodes[|nodes| - 1];
      ConfiguredRing(c, init);
      AddKeepsWellFormed(c.hashing, c.vnodes, RingOf(c.hashing, c.vnodes, init), last);
      assert init + [last] == nodes;
    }
  }

  lemma RingStep(c: Config, v: View, e: Event, id: NodeId)
    requires WellFormed(v.ring)
    ensures WellFormed(Step(c, v, e).ring)
    ensures ContainsNode(Step(c, v, e).ring.nodes, id) <==>
            if e.Member? && e.id == id && e.status in {Membership.Alive, Membership.Dead}
            then e.status == Membership.Alive
            else ContainsNode(v.ring.nodes, id)
  {
    if e.Member? && e.status == Membership.Alive {
      AddKeepsWellFormed(c.hashing, c.vnodes, v.ring, NodeInfo(e.id, e.addr));
    } else if e.Member? && e.status == Membership.Dead {
      RemoveKeepsWellFormed(v.ring, e.id);
    }
  }

  /** A node is in the ring iff its last Alive-or-Dead report was Alive, or it had none and was configured. */
  lemma {:induction false} RingIsFunctionOfHistory(c: Config, history: seq<Event>, id: NodeId)
    ensures WellFormed(Run(c, history).ring)
    ensures ContainsNode(Run(c, history).ring.nodes, id) <==> InRing(c, history, id)
  {
    if history == [] {
      ConfiguredRing(c, c.nodes);
    } else {
      RingIsFunctionOfHistory(c, history[..|history| - 1], id);
      RingStep(c, Run(c, history[..|history| - 1]), history[|history| - 1], id);
    }
  }

  /** The listing under which a node is in the ring: the configured one, or the Alive report that brought it in. */
  function ListedAs(c: Config, history: seq<Event>, id: NodeId): Option<NodeInfo> {
    if history == [] then FindInfo(c.nodes, id)
    else
      var e, before := history[|history| - 1], ListedAs(c, history[..|history| - 1], id);
      if !e.Member? || e.id != id then before
      else if e.status == Membership.Dead then None
      else if e.status == Membership.Alive && before.None? then Some(NodeInfo(id, e.addr))
      else before
  }

  /** The router contacts a node at the address of that listing; later reports do not change it. */
  lemma {:induction false} AddressIsFunctionOfHistory(c: Config, history: seq<Event>, id: NodeId)
    ensures FindInfo(Run(c, history).ring.nodes, id) == ListedAs(c, history, id)
  {
    if history == [] {
      ConfiguredRing(c, c.nodes);
    } else {
      var before, e := history[..|history| - 1], history[|history| - 1];
      AddressIsFunctionOfHistory(c, before, id);
      AddressStep(c, Run(c, before), e, id);
    }
  }

  lemma AddressStep(c: Config, v: View, e: Event, id: NodeId)
    ensures FindInfo(Step(c, v, e).ring.nodes, id) ==
            if !e.Member? || e.id != id then FindInfo(v.ring.nodes, id)
            else if e.status == Membership.Dead then None
            else if e.status == Membership.Alive && FindInfo(v.ring.nodes, id).None? then Some(NodeInfo(id, e.addr))
            else FindInfo(v.ring.nodes, id)
  {
    FindInfoFinds(v.ring.nodes, id);
    if e.Member? {
      FindInfoFinds(v.ring.nodes, e.id);
      FindInfoAppend(v.ring.nodes, NodeInfo(e.id, e.addr), id);
      FindInfoDrop(v.ring.nodes, e.id, id);
      if FindInfo(v.ring.nodes, id).Some? {
        ContainsIsMember(v.ring.nodes, id);
      }
    }
  }

  /** One more failure moves the closed form one failure on, for this node and no other. */
  lemma FailureStep(threshold: nat, m: Health.HealthMap, mark: Option<Health.NodeHealth>, failures: nat, id: NodeId)
    requires Known(m, id) == HealthOf(threshold, mark, failures)
    requires mark in {None, Some(Health.Alive), Some(Health.Joining)}
    ensures Known(Health.Failed(threshold, m, id), id) == HealthOf(threshold, mark, failures + 1)
  {}

  /** One event moves the closed form on. */
  lemma EventStep(c: Config, v: View, e: Event, mark: Option<Health.NodeHealth>, failures: nat)
    requires Known(v.health, e.id) == HealthOf(c.threshold, mark, failures)
    requires mark in {None, Some(Health.Alive), Some(Health.Joining)}
    ensures Known(Step(c, v, e).health, e.id) ==
            match e
            case Member(_, _, Alive) => HealthOf(c.threshold, Some(Health.Alive), 0)
            case Member(_, _, Joining) => HealthOf(c.threshold, Some(Health.Joining), 0)
            case Member(_, _, Suspect) => HealthOf(c.threshold, mark, failures + 1)
            case Member(_, _, Dead) => HealthOf(c.threshold, mark, failures + 3)
            case HeartbeatOk(_) => HealthOf(c.threshold, Some(Health.Alive), 0)
            case HeartbeatFailed(_) => HealthOf(c.threshold, mark, failures + 1)
  {
    if e.Member? && e.status == Membership.Dead {
      ThreeFailures(c.threshold, v.health, mark, failures, e.id);
    } else if e.HeartbeatFailed? || (e.Member? && e.status == Membership.Suspect) {
      FailureStep(c.threshold, v.health, mark, failures, e.id);
    }
  }

  /** Health is Suspect for 1 <= k < max(2, threshold) failures since the last mark and Dead from there on. */
  lemma {:induction false} HealthIsFunctionOfHistory(c: Config, history: seq<Event>, id: NodeId)
    ensures LastMark(history, id) in {None, Some(Health.Alive), Some(Health.Joining)}
    ensures Known(Run(c, history).health, id) ==
      HealthOf(c.threshold, LastMark(history, id), FailuresSinceMark(history, id))
  {
    if history == [] {
    } else {
      var before, e := history[..|history| - 1], history[|history| - 1];
      HealthIsFunctionOfHistory(c, before, id);
      if e.id == id {
        EventStep(c, Run(c, before), e, LastMark(before, id), FailuresSinceMark(before, id));
      } else {
        OthersKeepHealth(c, Run(c, before), e, id);
      }
    }
  }

  lemma OthersKeepHealth(c: Config, v: View, e: Event, id: NodeId)
    requires e.id != id
    ensures Known(Step(c, v, e).health, id) == Known(v.health, id)
  {}

  lemma ThreeFailures(threshold: nat, m: Health.HealthMap, mark: Option<Health.NodeHealth>, failures: nat, id: NodeId)
    requires Known(m, id) == HealthOf(threshold, mark, failures)
    requires mark in {None, Some(Health.Alive), Some(Health.Joining)}
    ensures Known(Health.Failed(threshold, Health.Failed(threshold, Health.Failed(threshold, m, id), id), id), id)
            == HealthOf(threshold, mark, failures + 3)
  {
    var m1 := Health.Failed(threshold, m, id);
    FailureStep(threshold, m, mark, failures, id);
    FailureStep(threshold, m1, mark, failures + 1, id);
    FailureStep(threshold, Health.Failed(threshold, m1, id), mark, failures + 2, id);
  }

  /** Last marked Joining, with no failure since. */
  predicate MarkedJoining(history: seq<Event>, id: NodeId) {
    LastMark(history, id) == Some(Health.Joining) && FailuresSinceMark(history, id) == 0
  }

  predicate Unusable(c: Config, history: seq<Event>, id: NodeId) {
    MarkedJoining(history, id) || FailuresSinceMark(history, id) >= Max(2, c.threshold)
  }

  /** The nodes the router does not use, read off the history. */
  lemma UnusableIff(c: Config, history: seq<Event>, id: NodeId)
    ensures id in Health.NotAlive(Run(c, history).health) <==> Unusable(c, history, id)
  {
    HealthIsFunctionOfHistory(c, history, id);
  }

  /**
   A Dead report always takes the node out of the ring, and makes it unusable iff the three failures
   it counts for reach the threshold; with the default threshold of 3 that is always so.
   */
  lemma DeadReportExcludes(c: Config, history: seq<Event>, id: NodeId, addr: string)
    ensures var v := Run(c, history + [Member(id, addr, Membership.Dead)]);
            && !ContainsNode(v.ring.nodes, id)
            && (id in Health.NotAlive(v.health) <==> FailuresSinceMark(history, id) + 3 >= Max(2, c.threshold))
            && (c.threshold <= 3 ==> id in Health.NotAlive(v.health))
  {
    var longer := history + [Member(id, addr, Membership.Dead)];
    assert longer[..|longer| - 1] == history;
    UnusableIff(c, longer, id);
    RingIsFunctionOfHistory(c, longer, id);
  }

  /** Any heartbeat, failed or not, makes a node that was marked Joining usable again. */
  lemma HeartbeatRevivesJoining(c: Config, history: seq<Event>, id: NodeId)
    requires MarkedJoining(history, id)
    ensures id in Health.NotAlive(Run(c, history).health)
    ensures id !in Health.NotAlive(Run(c, history + [HeartbeatFailed(id)]).health)
    ensures id !in Health.NotAlive(Run(c, history + [HeartbeatOk(id)]).health)
  {
    var failed, ok := history + [HeartbeatFailed(id)], history + [HeartbeatOk(id)];
    assert failed[..|failed| - 1] == history && ok[..|ok| - 1] == history;
    UnusableIff(c, history, id);
    UnusableIff(c, failed, id);
    UnusableIff(c, ok, id);
  }

  // ----- Composition with the gossip protocol --------------------------------

  /** Everything the router was told was said in a message some node of the cluster sent. */
  ghost predicate ToldBy(cluster: Cluster.State, history: seq<Event>) {
    forall i :: 0 <= i < |history| && history[i].Member? ==>
      exists msg: Membership.View :: msg in cluster.net && history[i].id in msg
        && msg[history[i].id].status == history[i].status
  }

  lemma {:induction false} NoVerdictWhileJoining(cluster: Cluster.State, history: seq<Event>, n: NodeId)
    requires Cluster.Inv(cluster) && n in cluster.nodes && cluster.nodes[n].rebalancing && ToldBy(cluster, history)
    ensures LastVerdict(history, n) == None
  {
    if history == [] {
    } else {
      var last := |history| - 1;
      assert ToldBy(cluster, history[..last]) by {
        assert forall i :: 0 <= i < last ==> history[..last][i] == history[i];
      }
      NoVerdictWhileJoining(cluster, history[..last], n);
      if history[last].Member? && history[last].id == n {
        var msg: Membership.View :| msg in cluster.net && n in msg && msg[n].status == history[last].status;
        assert Cluster.Said(cluster, n, msg[n]);
      }
    }
  }

  /**
   In every reachable cluster, a router that was told only what nodes sent never routes to an
   unconfigured node that is still joining: it is in no preference list for any key or size.
   */
  lemma JoiningNodeIsNotRouted(cluster: Cluster.State, c: Config, history: seq<Event>, n: NodeId, key: string,
                               count: nat)
    requires Cluster.Reachable(cluster) && n in cluster.nodes && cluster.nodes[n].rebalancing
    requires ToldBy(cluster, history) && !ContainsNode(c.nodes, n)
    ensures n !in Preference(Run(c, history).ring.slots, c.hashing.key(key), count)
    ensures n !in Coordinator.AliveList(Run(c, history).ring.slots, c.hashing.key(key),
      Health.NotAlive(Run(c, history).health), count)
  {
    Cluster.ReachableInv(cluster);
    NoVerdictWhileJoining(cluster, history, n);
    RingIsFunctionOfHistory(c, history, n);
    UnlistedIsNotPreferred(Run(c, history).ring, c.hashing.key(key), n, count, Health.NotAlive(Run(c, history).health));
  }

  lemma UnlistedIsNotPreferred(ring: Ring, h: Position, n: NodeId, count: nat, dead: set<NodeId>)
    requires WellFormed(ring) && !ContainsNode(ring.nodes, n)
    ensures n !in Preference(ring.slots, h, count)
    ensures n !in Coordinator.AliveList(ring.slots, h, dead, count)
  {
    ClockwiseIsListed(ring, h);
    var cands := Coordinator.Candidates(ring.slots, h, count);
    Coordinator.WithoutFacts(cands, dead);
    Coordinator.WithoutFacts(Take(cands, 1), dead);
    assert n !in cands && n !in Take(cands, 1);
    assert n !in Without(cands, dead) && n !in Without(Take(cands, 1), dead);
  }

  // ----- The router's gossip client ------------------------------------------

  /** A line of a gossip reply as received: its id and status may fail to parse. */
  datatype RawMember = RawMember(id: Option<NodeId>, addr: string, status: Option<Membership.Status>)

  /** The events in a reply: lines that do not parse are skipped. */
  function Usable(lines: seq<RawMember>): seq<Event> {
    if lines == [] then []
    else
      var l := lines[|lines| - 1];
      Usable(lines[..|lines| - 1])
      + if l.id.Some? && l.status.Some? then [Member(l.id.value, l.addr, l.status.value)] else []
  }

  /** Every line that parses is an event, whatever its status; the others are skipped. */
  lemma UsableLines(lines: seq<RawMember>, id: NodeId, addr: string, status: Membership.Status, bad: RawMember)
    requires bad.id.None? || bad.status.None?
    ensures Usable([]) == []
    ensures Usable(lines + [RawMember(Some(id), addr, Some(status))]) == Usable(lines) + [Member(id, addr, status)]
    ensures Usable(lines + [bad]) == Usable(lines)
  {
    var good := RawMember(Some(id), addr, Some(status));
    assert (lines + [good])[..|lines|] == lines && (lines + [bad])[..|lines|] == lines;
    assert Usable(lines) + [] == Usable(lines);
  }

  /** The line says Alive or Dead about the node. */
  predicate VerdictOn(l: RawMember, id: NodeId) {
    l.id == Some(id) && l.status in {Some(Membership.Alive), Some(Membership.Dead)}
  }

  /** Line `i` is the last verdict on the node. */
  ghost predicate LastVerdictLine(lines: seq<RawMember>, id: NodeId, i: int) {
    0 <= i < |lines| && VerdictOn(lines[i], id) && forall j :: i < j < |lines| ==> !VerdictOn(lines[j], id)
  }

  /**
   What a reply does to the ring: a node is in it iff the last verdict on it is Alive; without one
   nothing changes.
   */
  ghost predicate RingFollows(before: seq<NodeInfo>, lines: seq<RawMember>, after: seq<NodeInfo>) {
    && (forall id, i :: LastVerdictLine(lines, id, i) ==>
          (ContainsNode(after, id) <==> lines[i].status == Some(Membership.Alive)))
    && (forall id :: (forall i :: 0 <= i < |lines| ==> !VerdictOn(lines[i], id)) ==>
          (ContainsNode(after, id) <==> ContainsNode(before, id)))
  }

  lemma {:induction false} ReplyRing(c: Config, v: View, lines: seq<RawMember>)
    requires WellFormed(v.ring)
    ensures WellFormed(RunFrom(c, v, Usable(lines)).ring)
    ensures RingFollows(v.ring.nodes, lines, RunFrom(c, v, Usable(lines)).ring.nodes)
  {
    if lines == [] {
    } else {
      var last := |lines| - 1;
      var init, l := lines[..last], lines[last];
      ReplyRing(c, v, init);
      var u := RunFrom(c, v, Usable(init));
      if l.id.Some? && l.status.Some? {
        var e := Member(l.id.value, l.addr, l.status.value);
        RunFromStep(c, v, Usable(init), e);
        forall id ensures WellFormed(Step(c, u, e).ring)
          ensures ContainsNode(Step(c, u, e).ring.nodes, id) <==>
                  if VerdictOn(l, id) then l.status == Some(Membership.Alive) else ContainsNode(u.ring.nodes, id)
        {
          RingStep(c, u, e, id);
        }
        assert WellFormed(Step(c, u, e).ring) by { RingStep(c, u, e, e.id); }
        OneLineMore(v.ring.nodes, lines, u.ring.nodes, Step(c, u, e).ring.nodes);
      } else {
        assert Usable(init) + [] == Usable(init);
        OneLineMore(v.ring.nodes, lines, u.ring.nodes, u.ring.nodes);
      }
    }
  }

  lemma OneLineMore(before: seq<NodeInfo>, lines: seq<RawMember>, mid: seq<NodeInfo>, after: seq<NodeInfo>)
    requires lines != [] && RingFollows(before, lines[..|lines| - 1], mid)
    requires forall id :: ContainsNode(after, id) <==>
               var l := lines[|lines| - 1];
               if VerdictOn(l, id) then l.status == Some(Membership.Alive) else ContainsNode(mid, id)
    ensures RingFollows(before, lines, after)
  {
    var last := |lines| - 1;
    var init := lines[..last];
    assert forall i :: 0 <= i < last ==> init[i] == lines[i];
    forall id, i | LastVerdictLine(lines, id, i)
      ensures ContainsNode(after, id) <==> lines[i].status == Some(Membership.Alive)
    {
      if i < last {
        assert LastVerdictLine(init, id, i);
      }
    }
    forall id | forall i :: 0 <= i < |lines| ==> !VerdictOn(lines[i], id)
      ensures ContainsNode(after, id) <==> ContainsNode(before, id)
    {
      assert !VerdictOn(lines[last], id);
      assert forall i :: 0 <= i < last ==> !VerdictOn(init[i], id);
    }
  }

  function RunFrom(c: Config, v: View, events: seq<Event>): View {
    if events == [] then v
    else Step(c, RunFrom(c, v, events[..|events| - 1]), events[|events| - 1])
  }

  lemma RunFromStep(c: Config, v: View, events: seq<Event>, e: Event)
    ensures RunFrom(c, v, events + [e]) == Step(c, RunFrom(c, v, events), e)
  {
    assert (events + [e])[..|events|] == events;
  }

  lemma {:induction false} RunContinues(c: Config, history: seq<Event>, events: seq<Event>)
    ensures RunFrom(c, Run(c, history), events) == Run(c, history + events)
  {
    if events == [] {
      assert history + events == history;
    } else {
      var before := events[..|events| - 1];
      RunContinues(c, history, before);
      assert (history + events)[..|history + events| - 1] == history + before;
    }
  }

  class RouterGossipClient {
    const ring: HashRing
    const health: Health.HealthMonitor
    ghost const config: Config

    constructor (ring: HashRing, health: Health.HealthMonitor, ghost config: Config)
      ensures this.ring == ring && this.health == health && this.config == config
    {
      this.ring := ring;
      this.health := health;
      this.config := config;
    }

    ghost predicate Valid()
      reads ring, health
    {
      && ring.Valid()
      && ring.hashing == config.hashing && ring.vnodeCount == config.vnodes && health.threshold == config.threshold
    }

    ghost function State(): View
      reads ring, health
    {
      View(ring.State(), health.nodes)
    }

    /** Applies one reply: line by line, the events it contains. */
    method ProcessReply(lines: seq<RawMember>)
      requires Valid()
      modifies ring, health
      ensures Valid()
      ensures State() == RunFrom(config, old(State()), Usable(lines))
      ensures forall history :: old(State()) == Run(config, history) ==> State() == Run(config, history + Usable(lines))
      ensures RingFollows(old(ring.nodes), lines, ring.nodes)
    {
      var i := 0;
      while i < |lines|
        invariant i <= |lines| && Valid()
        invariant State() == RunFrom(config, old(State()), Usable(lines[..i]))
      {
        assert lines[..i + 1][..i] == lines[..i];
        var l := lines[i];
        i := i + 1;
        if l.id == None || l.status == None {
          assert Usable(lines[..i]) == Usable(lines[..i - 1]);
          continue;
        }
        RunFromStep(config, old(State()), Usable(lines[..i - 1]), Member(l.id.value, l.addr, l.status.value));
        ProcessMember(l.id.value, l.addr, l.status.value);
      }
      assert lines[..i] == lines;
      ReplyRing(config, old(State()), lines);
      forall history | old(State()) == Run(config, history) ensures State() == Run(config, history + Usable(lines)) {
        RunContinues(config, history, Usable(lines));
      }
    }

    method ProcessMember(id: NodeId, addr: string, status: Membership.Status)
      requires Valid()
      modifies ring, health
      ensures Valid()
      ensures State() == Step(config, old(State()), Member(id, addr, status))
    {
      match status {
        case Alive =>
          health.MarkAlive(id);
          var known := ContainsNode(ring.nodes, id);
          if !known {
            ring.Add(NodeInfo(id, addr));
          }
        case Joining =>
          health.MarkJoining(id);
        case Suspect =>
          health.RecordFailure(id);
        case Dead =>
          health.RecordFailure(id);
          health.RecordFailure(id);
          health.RecordFailure(id);
          if ContainsNode(ring.nodes, id) {
            ring.Remove(id);
          }
      }
    }
  }
}
