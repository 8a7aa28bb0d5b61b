/** When the failure detector of one node gives up on a silent peer (gossip/protocol.rs). */
module Detector {
  import opened Common
  import opened Membership
  import opened Gossip

  // Instants are in nanoseconds: 3_000_000_000 is three seconds.

  /** What happens at the observing node: a detector pass, or anything else its table goes through. */
  datatype Event = Check(at: nat) | Other(after: Members)

  /**
   A stretch of the observer's life during which `p`, last seen at `t` and Alive at first, is
   neither touched nor changed by a merge. Detector passes happen in clock order.
   */
  ghost predicate Silent(self: NodeId, p: NodeId, tables: seq<Members>, events: seq<Event>, t: nat) {
    && p != self
    && |tables| == |events| + 1
    && p in tables[0] && tables[0][p].status == Alive && tables[0][p].lastSeen == t
    && (forall i {:trigger events[i]} :: 0 <= i < |events| ==>
          match events[i]
          case Check(at) => tables[i + 1] == TimeOutAll(self, tables[i], at)
          case Other(after) => tables[i + 1] == after && (p in tables[i] ==> p in after && after[p] == tables[i][p]))
    && (forall i, j :: 0 <= i < j < |events| && events[i].Check? && events[j].Check? ==> events[i].at <= events[j].at)
  }

  /** Among the first `i` events there was a pass after the instant `x`. */
  ghost predicate CheckedAfter(events: seq<Event>, i: nat, x: nat)
    requires i <= |events|
  {
    exists k :: 0 <= k < i && events[k].Check? && events[k].at > x
  }

  /** Among the first `i` events there was a pass after `x` and, later, a pass after `y`. */
  ghost predicate CheckedTwice(events: seq<Event>, i: nat, x: nat, y: nat)
    requires i <= |events|
  {
    exists k :: 0 <= k < i && events[k].Check? && events[k].at > y && CheckedAfter(events, k, x)
  }

  /**
   The exact status of a silent peer: Suspect from the first pass later than t+3s, and Dead from
   the first pass after that one which is later than t+5s. Nothing else about its entry changes.
   */
  lemma {:induction false} SilentStatus(self: NodeId, p: NodeId, tables: seq<Members>, events: seq<Event>, t: nat,
                                        i: nat)
    requires Silent(self, p, tables, events, t) && i <= |events|
    ensures p in tables[i]
    ensures tables[i][p] == tables[0][p].(status :=
              if CheckedTwice(events, i, t + 3_000_000_000, t + 5_000_000_000) then Dead
              else if CheckedAfter(events, i, t + 3_000_000_000) then Suspect
              else Alive)
  {
    if i == 0 {
    } else {
      SilentStatus(self, p, tables, events, t, i - 1);
      var x, y := t + SUSPECT_TIMEOUT, t + DEAD_TIMEOUT;
      var e := events[i - 1];
      OneMoreEvent(events, i - 1, x, y);
      assert e.Check? ==> tables[i] == TimeOutAll(self, tables[i - 1], e.at);
    }
  }

  lemma OneMoreEvent(events: seq<Event>, i: nat, x: nat, y: nat)
    requires i < |events|
    ensures var e := events[i];
            && (CheckedAfter(events, i + 1, x) <==> CheckedAfter(events, i, x) || (e.Check? && e.at > x))
            && (CheckedTwice(events, i + 1, x, y) <==>
                 CheckedTwice(events, i, x, y) || (e.Check? && e.at > y && CheckedAfter(events, i, x)))
            && (CheckedTwice(events, i, x, y) ==> CheckedAfter(events, i, x))
  {
    if CheckedTwice(events, i, x, y) {
      var k :| 0 <= k < i && events[k].Check? && events[k].at > y && CheckedAfter(events, k, x);
      var m :| 0 <= m < k && events[m].Check? && events[m].at > x;
    }
  }

  /** Suspicion comes only after t+3s; death only after t+5s and only of a peer that was Suspect before. */
  lemma NeverTooEarly(self: NodeId, p: NodeId, tables: seq<Members>, events: seq<Event>, t: nat, i: nat)
    requires Silent(self, p, tables, events, t) && i <= |events|
    ensures p in tables[i]
    ensures tables[i][p].status != Alive ==> CheckedAfter(events, i, t + 3_000_000_000)
    ensures tables[i][p].status == Dead ==>
              exists k :: 0 <= k < i && p in tables[k] && tables[k][p].status == Suspect
                          && events[k].Check? && events[k].at > t + 5_000_000_000
  {
    SilentStatus(self, p, tables, events, t, i);
    if tables[i][p].status == Dead {
      FirstDeath(self, p, tables, events, t, i);
    }
  }

  lemma {:induction false} FirstDeath(self: NodeId, p: NodeId, tables: seq<Members>, events: seq<Event>, t: nat, i: nat)
    requires Silent(self, p, tables, events, t) && i <= |events|
    requires p in tables[i] && tables[i][p].status == Dead
    ensures exists k :: 0 <= k < i && p in tables[k] && tables[k][p].status == Suspect
                        && events[k].Check? && events[k].at > t + 5_000_000_000
  {
    SilentStatus(self, p, tables, events, t, i);
    if i == 0 {
    } else {
      SilentStatus(self, p, tables, events, t, i - 1);
      if tables[i - 1][p].status == Dead {
        FirstDeath(self, p, tables, events, t, i - 1);
      } else {
        assert tables[i - 1][p].status == Suspect;
      }
    }
  }

  /** Up to the instant `end`, every window of length `period` that starts at `t` or later contains a pass. */
  ghost predicate Regular(events: seq<Event>, t: nat, period: nat, end: nat) {
    forall x: nat {:trigger CheckedWithin(events, x, period)} :: t <= x && x + period <= end ==>
      CheckedWithin(events, x, period)
  }

  ghost predicate CheckedWithin(events: seq<Event>, x: nat, period: nat) {
    exists k :: 0 <= k < |events| && events[k].Check? && x < events[k].at <= x + period
  }

  /**
   With passes at most `period` apart a silent peer is Dead by t + 5s + 2*period, and one period
   sooner if the period is at most 2s.
   */
  lemma DeadInTime(self: NodeId, p: NodeId, tables: seq<Members>, events: seq<Event>, t: nat, period: nat, end: nat)
    requires Silent(self, p, tables, events, t) && Regular(events, t, period, end)
    requires end >= t + 5_000_000_000 + 2 * period
             || (period <= 2_000_000_000 && end >= t + 5_000_000_000 + period)
    ensures p in tables[|events|] && tables[|events|][p].status == Dead
  {
    var first := if period <= DEAD_TIMEOUT - SUSPECT_TIMEOUT then t + SUSPECT_TIMEOUT else t + DEAD_TIMEOUT;
    assert CheckedWithin(events, first, period);
    var j :| 0 <= j < |events| && events[j].Check? && first < events[j].at <= first + period;
    var second := Max(events[j].at, t + DEAD_TIMEOUT);
    assert CheckedWithin(events, second, period);
    var k :| 0 <= k < |events| && events[k].Check? && second < events[k].at <= second + period;
    assert j < k;
    assert CheckedAfter(events, k, t + SUSPECT_TIMEOUT);
    SilentStatus(self, p, tables, events, t, |events|);
  }
}
