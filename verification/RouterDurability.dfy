/**
 Durability seen from a running router: an acknowledged write stays readable through any series
 of gossip replies and heartbeats that only take nodes away.
 */
module RouterDurability {
  import opened Common
  import opened HashRing
  import opened Coordinator
  import opened RouterView
  import Health
  import Membership

  /**
   The event, coming after `history`, brings no node back: no good news about an unusable node or
   one outside the ring, and no failure of a node last marked Joining, which would make it usable.
   */
  predicate TakesAway(c: Config, history: seq<Event>, e: Event) {
    match e
    case Member(id, _, Alive) => InRing(c, history, id) && !Unusable(c, history, id)
    case HeartbeatOk(id) => !Unusable(c, history, id)
    case Member(id, _, Suspect) => !MarkedJoining(history, id)
    case HeartbeatFailed(id) => !MarkedJoining(history, id)
    case _ => true
  }

  predicate OnlyTakeAway(c: Config, history: seq<Event>, events: seq<Event>) {
    forall i :: 0 <= i < |events| ==> TakesAway(c, history + events[..i], events[i])
  }

  /** The nodes reported Dead. */
  function ReportedDead(events: seq<Event>): set<NodeId> {
    set i | 0 <= i < |events| && events[i].Member? && events[i].status == Membership.Dead :: events[i].id
  }

  lemma {:induction false} DropTwice(s: seq<Slot>, a: set<NodeId>, b: set<NodeId>)
    ensures DropSlots(DropSlots(s, a), b) == DropSlots(s, a + b)
  {
    if s == [] {
    } else {
      DropTwice(s[1..], a, b);
      if s[0].id !in a {
        assert DropSlots(s, a)[1..] == DropSlots(s[1..], a);
      }
    }
  }

  lemma RingOnlyShrinks(c: Config, history: seq<Event>, e: Event)
    requires TakesAway(c, history, e)
    ensures var v := Run(c, history);
            Step(c, v, e).ring.slots == DropSlots(v.ring.slots, ReportedDead([e]))
  {
    var v := Run(c, history);
    RingIsFunctionOfHistory(c, history, e.id);
    RingStep(c, v, e, e.id);
    if e.Member? && e.status == Membership.Dead {
      assert ReportedDead([e]) == {e.id} by { assert [e][0] == e; }
      if !ContainsNode(v.ring.nodes, e.id) {
        DropNothing(v.ring.slots, {e.id});
      }
    } else {
      assert ReportedDead([e]) == {};
      DropNothing(v.ring.slots, {});
    }
  }

  /** Only a Dead report of the node itself can end its being unusable, and it takes the node out of the ring. */
  lemma UnusableStaysUnusable(c: Config, history: seq<Event>, e: Event, id: NodeId)
    requires TakesAway(c, history, e) && Unusable(c, history, id)
    ensures Unusable(c, history + [e], id) || id in ReportedDead([e])
  {
    assert (history + [e])[..|history|] == history;
    if e.Member? && e.status == Membership.Dead && e.id == id {
      assert [e][0] == e;
    }
  }

  lemma DeadSplit(events: seq<Event>, last: nat)
    requires |events| == last + 1
    ensures ReportedDead(events) == ReportedDead(events[..last]) + ReportedDead([events[last]])
  {
    var init, one := events[..last], [events[last]];
    forall id ensures id in ReportedDead(events) <==> id in ReportedDead(init) + ReportedDead(one) {
      if id in ReportedDead(events) {
        var i :| 0 <= i < |events| && events[i].Member? && events[i].status == Membership.Dead && events[i].id == id;
        assert if i < last then init[i] == events[i] else one[0] == events[i];
      }
      if id in ReportedDead(init) {
        var i :| 0 <= i < |init| && init[i].Member? && init[i].status == Membership.Dead && init[i].id == id;
        assert events[i] == init[i];
      }
    }
  }

  /** From `v` to `v'` the ring lost exactly the nodes `gone`, and every other unusable node stayed unusable. */
  ghost predicate Shrunk(v: View, v': View, gone: set<NodeId>) {
    && v'.ring.slots == DropSlots(v.ring.slots, gone)
    && Health.NotAlive(v.health) <= Health.NotAlive(v'.health) + gone
  }

  lemma ShrunkByNothing(v: View)
    ensures Shrunk(v, v, {})
  {
    DropNothing(v.ring.slots, {});
  }

  lemma ShrunkTwice(u: View, v: View, w: View, a: set<NodeId>, b: set<NodeId>)
    requires Shrunk(u, v, a) && Shrunk(v, w, b)
    ensures Shrunk(u, w, a + b)
  {
    DropTwice(u.ring.slots, a, b);
  }

  lemma OneTakesAway(c: Config, history: seq<Event>, e: Event)
    requires TakesAway(c, history, e)
    ensures Shrunk(Run(c, history), Run(c, history + [e]), ReportedDead([e]))
  {
    assert (history + [e])[..|history|] == history;
    RingOnlyShrinks(c, history, e);
    forall id | id in Health.NotAlive(Run(c, history).health)
      ensures id in Health.NotAlive(Run(c, history + [e]).health) + ReportedDead([e])
    {
      UnusableIff(c, history, id);
      UnusableStaysUnusable(c, history, e, id);
      UnusableIff(c, history + [e], id);
    }
  }

  lemma SplitLast(history: seq<Event>, events: seq<Event>, last: nat)
    requires |events| == last + 1
    ensures history + events == history + events[..last] + [events[last]]
  {}

  lemma TakeAwayBefore(c: Config, history: seq<Event>, events: seq<Event>, last: nat)
    requires |events| == last + 1 && OnlyTakeAway(c, history, events)
    ensures OnlyTakeAway(c, history, events[..last]) && TakesAway(c, history + events[..last], events[last])
  {
    var init := events[..last];
    assert forall i :: 0 <= i < last ==> init[..i] == events[..i] && init[i] == events[i];
  }

  /**
   Such a series removes exactly the nodes reported Dead from the ring, and every other unusable node
   stays unusable.
   */
  lemma {:induction false} TakingAway(c: Config, history: seq<Event>, events: seq<Event>)
    requires OnlyTakeAway(c, history, events)
    ensures Shrunk(Run(c, history), Run(c, history + events), ReportedDead(events))
    decreases |events|
  {
    if events == [] {
      assert history + events == history;
      ShrunkByNothing(Run(c, history));
      assert ReportedDead(events) == {};
    } else {
      var last := |events| - 1;
      var init, e := events[..last], events[last];
      TakeAwayBefore(c, history, events, last);
      TakingAway(c, history, init);
      OneTakesAway(c, history + init, e);
      SplitLast(history, events, last);
      DeadSplit(events, last);
      ShrunkTwice(Run(c, history), Run(c, history + init), Run(c, history + events),
                  ReportedDead(init), ReportedDead([e]));
    }
  }

  /**
   A write was acknowledged by its whole list when the router had seen `history`. Then come events
   that only take nodes away, and stores may lose data but see no other write. As long as
   one written node is not reported Dead, is usable, holds the value and answers, a read returns it.
   */
  lemma AckedWriteSurvivesHistory(c: Config, history: seq<Event>, events: seq<Event>, factor: nat, retries: nat,
                                  data: Fleet, data': Fleet, key: string, item: Item,
                                  writes: WriteCalls, gets: ReadCalls, w: NodeId)
    requires factor >= 1 && OnlyTakeAway(c, history, events)
    requires var v := Run(c, history);
             var list := AliveList(v.ring.slots, c.hashing.key(key), Health.NotAlive(v.health), factor);
             && (forall n :: n in list ==> Acks(writes, n, 0, retries))
             && (forall n :: n in list ==>
                  LookUp(data', n, key) in {None, LookUp(WriteAll(data, list, key, item, writes, retries), n, key)})
             && w in list && LookUp(data', w, key).Some?
    requires w !in ReportedDead(events) && Answers(gets, w, retries)
    requires w !in Health.NotAlive(Run(c, history + events).health)
    ensures var v' := Run(c, history + events);
            var now := AliveList(v'.ring.slots, c.hashing.key(key), Health.NotAlive(v'.health), factor);
            ReadFrom(data', now, key, gets, retries) == Some(item)
  {
    var v := Run(c, history);
    RingIsFunctionOfHistory(c, history, w);
    TakingAway(c, history, events);
    AckedWriteSurvivesFailures(v.ring.slots, c.hashing.key(key), factor, retries, Health.NotAlive(v.health),
                               ReportedDead(events), Health.NotAlive(Run(c, history + events).health),
                               data, data', key, item, writes, gets, w);
  }
}
