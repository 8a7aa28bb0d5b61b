/** The router's health monitor (router/src/health/mod.rs). */
module Health {
  import opened Common

  datatype NodeHealth = Alive | Suspect | Dead | Joining

  datatype HealthEntry = HealthEntry(health: NodeHealth, failures: nat)

  type HealthMap = map<NodeId, HealthEntry>

  /** One recorded failure: unknown nodes count as Alive first. */
  function FailedEntry(threshold: nat, e: HealthEntry): HealthEntry {
    var failures := e.failures + 1;
    match e.health
    case Alive => HealthEntry(Suspect, failures)
    case Joining => HealthEntry(Suspect, failures)
    case Suspect => HealthEntry(if failures >= threshold then Dead else Suspect, failures)
    case Dead => HealthEntry(Dead, failures)
  }

  function Failed(threshold: nat, nodes: HealthMap, id: NodeId): HealthMap {
    nodes[id := FailedEntry(threshold, if id in nodes then nodes[id] else HealthEntry(Alive, 0))]
  }

  /** The nodes the router must not use. Unknown nodes are assumed alive. */
  function NotAlive(nodes: HealthMap): set<NodeId> {
    set id | id in nodes && nodes[id].health in {Dead, Joining}
  }

  class HealthMonitor {
    const threshold: nat
    var nodes: HealthMap

    constructor (threshold: nat)
      ensures this.threshold == threshold && nodes == map[]
    {
      this.threshold := threshold;
      nodes := map[];
    }

    method MarkAlive(id: NodeId)
      modifies this
      ensures nodes == old(nodes)[id := HealthEntry(Alive, 0)]
    {
      nodes := nodes[id := HealthEntry(Alive, 0)];
    }

    method MarkJoining(id: NodeId)
      modifies this
      ensures nodes == old(nodes)[id := HealthEntry(Joining, 0)]
    {
      nodes := nodes[id := HealthEntry(Joining, 0)];
    }

    method RecordFailure(id: NodeId)
      modifies this
      ensures nodes == Failed(threshold, old(nodes), id)
    {
      var e := if id in nodes then nodes[id] else HealthEntry(Alive, 0);
      e := e.(failures := e.failures + 1);
      match e.health {
        case Alive => e := e.(health := Suspect);
        case Joining => e := e.(health := Suspect);
        case Suspect =>
          if e.failures >= threshold {
            e := e.(health := Dead);
          }
        case Dead =>
      }
      nodes := nodes[id := e];
    }

    method IsAlive(id: NodeId) returns (alive: bool)
      ensures alive <==> id !in NotAlive(nodes)
    {
      if id in nodes {
        alive := nodes[id].health != Dead && nodes[id].health != Joining;
      } else {
        alive := true;
      }
    }
  }
}
