/**
 Whole-cluster convergence. One node, the hub, meets every other node again and again; each meeting
 is a gossip exchange started by either side. After four rounds of meetings, whatever was recorded
 before, all tables are equal and nobody is wrongly suspected. If the hub starts the exchanges of
 the second round, three rounds are enough.
 */
module HubConvergence {
  import opened Common
  import opened Membership
  import opened Cluster
  import opened Convergence

  datatype Meeting = Meeting(peer: NodeId, byHub: bool)

  // ----- One meeting, on views -----------------------------------------------

  /** The views of the hub and its peer after a meeting. */
  function HubAfter(hub: NodeId, x: NodeId, vh: View, vx: View, byHub: bool): View {
    if byHub then MergeView(hub, vh, MergeView(x, vx, vh)) else MergeView(hub, vh, vx)
  }

  function PeerAfter(hub: NodeId, x: NodeId, vh: View, vx: View, byHub: bool): View {
    if byHub then MergeView(x, vx, vh) else MergeView(x, vx, MergeView(hub, vh, vx))
  }

  /** The hub knows at least what `x` knows about everyone else. */
  ghost predicate Below(x: NodeId, vx: View, vh: View) {
    forall y :: y in vx && y != x ==> y in vh && Leq(vx[y], vh[y])
  }

  /** The hub holds nothing against `x` that `x` has not beaten. */
  predicate Cleared(x: NodeId, vx: View, vh: View) {
    x in vx && (x in vh && Challenges(vh[x]) ==> vh[x].incarnation < vx[x].incarnation)
  }

  /** The hub records of `x` exactly what `x` says of itself. */
  predicate Settled(x: NodeId, vx: View, vh: View) {
    x in vx && x in vh && vh[x] == vx[x]
  }

  predicate CanMeet(hub: NodeId, x: NodeId, vh: View, vx: View) {
    hub != x && Bounded(hub, vh, vx) && Bounded(x, vx, vh)
  }

  lemma HubGrows(hub: NodeId, x: NodeId, vh: View, vx: View, byHub: bool, y: NodeId)
    requires CanMeet(hub, x, vh, vx) && y in vh
    ensures var vh' := HubAfter(hub, x, vh, vx, byHub);
            y in vh' && Leq(vh[y], vh'[y])
  {
    if byHub {
      var vx' := MergeView(x, vx, vh);
      assert vx'[hub] == if hub in vx then Join(vx[hub], vh[hub]) else vh[hub];
    }
  }

  lemma MeetingCovers(hub: NodeId, x: NodeId, vh: View, vx: View, byHub: bool)
    requires CanMeet(hub, x, vh, vx)
    ensures Below(x, PeerAfter(hub, x, vh, vx, byHub), HubAfter(hub, x, vh, vx, byHub))
  {
    var vh', vx' := HubAfter(hub, x, vh, vx, byHub), PeerAfter(hub, x, vh, vx, byHub);
    forall y | y in vx' && y != x ensures y in vh' && Leq(vx'[y], vh'[y]) {
      if !byHub {
        ViewsAfterExchange(x, hub, vx, vh, y);
      } else if y == hub {
        assert vx'[hub] == if hub in vx then Join(vx[hub], vh[hub]) else vh[hub];
        assert vh'[hub] == Refute(vh[hub], vx'[hub]);
      } else {
        ViewsAfterExchange(hub, x, vh, vx, y);
      }
    }
  }

  lemma MeetingAnswers(hub: NodeId, x: NodeId, vh: View, vx: View, byHub: bool)
    requires CanMeet(hub, x, vh, vx)
    ensures Cleared(x, PeerAfter(hub, x, vh, vx, byHub), HubAfter(hub, x, vh, vx, byHub))
  {
    if byHub {
      NoChallengeAfterExchange(hub, x, vh, vx);
    } else {
      NoChallengeAfterExchange(x, hub, vx, vh);
    }
  }

  /** Meeting a node it covers changes the hub only about that node. */
  lemma OnlyPeerChanges(hub: NodeId, x: NodeId, vh: View, vx: View, byHub: bool, y: NodeId)
    requires CanMeet(hub, x, vh, vx) && Below(x, vx, vh) && y != x
    ensures Same(HubAfter(hub, x, vh, vx, byHub), vh, y)
    ensures Same(PeerAfter(hub, x, vh, vx, byHub), vh, y)
  {
    if byHub {
      var vx' := MergeView(x, vx, vh);
      assert Same(vx', vh, y);
      assert Same(MergeView(hub, vh, vx'), vh, y);
    } else {
      var vh' := MergeView(hub, vh, vx);
      assert Same(vh', vh, y);
      assert Same(MergeView(x, vx, vh'), vh, y);
    }
  }

  /** An exchange started by the hub, or one with nothing to refute, settles the peer. */
  lemma MeetingSettles(hub: NodeId, x: NodeId, vh: View, vx: View, byHub: bool)
    requires CanMeet(hub, x, vh, vx) && (byHub || Cleared(x, vx, vh))
    ensures Settled(x, PeerAfter(hub, x, vh, vx, byHub), HubAfter(hub, x, vh, vx, byHub))
  {
    if byHub {
      ViewsAfterExchange(hub, x, vh, vx, x);
    } else {
      ViewsAfterExchange(x, hub, vx, vh, x);
    }
  }

  /** Meeting a settled node changes nothing more at the hub and makes the two tables equal. */
  lemma MeetingEquates(hub: NodeId, x: NodeId, vh: View, vx: View, byHub: bool)
    requires CanMeet(hub, x, vh, vx) && Below(x, vx, vh) && Settled(x, vx, vh)
    ensures HubAfter(hub, x, vh, vx, byHub) == vh && PeerAfter(hub, x, vh, vx, byHub) == vh
  {
    var vh', vx' := HubAfter(hub, x, vh, vx, byHub), PeerAfter(hub, x, vh, vx, byHub);
    forall y ensures Same(vh', vh, y) && Same(vx', vh, y) {
      if y != x {
        OnlyPeerChanges(hub, x, vh, vx, byHub, y);
      } else {
        SettledStays(hub, x, vh, vx, byHub);
      }
    }
    SameEverywhere(vh', vh);
    SameEverywhere(vx', vh);
  }

  lemma SettledStays(hub: NodeId, x: NodeId, vh: View, vx: View, byHub: bool)
    requires CanMeet(hub, x, vh, vx) && Settled(x, vx, vh)
    ensures Same(HubAfter(hub, x, vh, vx, byHub), vh, x) && Same(PeerAfter(hub, x, vh, vx, byHub), vh, x)
  {
    if byHub {
      assert Same(MergeView(x, vx, vh), vh, x);
    } else {
      assert Same(MergeView(hub, vh, vx), vh, x);
    }
  }

  lemma SameEverywhere(v: View, w: View)
    requires forall y :: Same(v, w, y)
    ensures v == w
  {
    assert forall y :: y in v || y in w ==> Same(v, w, y);
  }

  // ----- One meeting, in the cluster -----------------------------------------

  function Table(c: State, n: NodeId): View
    requires n in c.nodes
  {
    c.nodes[n].view
  }

  ghost function Meet(c: State, hub: NodeId, m: Meeting): State
    requires hub in c.nodes && m.peer in c.nodes
  {
    if m.byHub then Exchange(c, hub, m.peer) else Exchange(c, m.peer, hub)
  }

  lemma MeetingKeepsInv(c: State, hub: NodeId, m: Meeting)
    requires Inv(c) && hub in c.nodes && m.peer in c.nodes
    ensures Inv(Meet(c, hub, m)) && Meet(c, hub, m).nodes.Keys == c.nodes.Keys
  {
    if m.byHub {
      ExchangeKeepsInv(c, hub, m.peer);
    } else {
      ExchangeKeepsInv(c, m.peer, hub);
    }
  }

  lemma OthersUntouched(c: State, a: NodeId, b: NodeId)
    requires a in c.nodes && b in c.nodes
    ensures Exchange(c, a, b).nodes.Keys == c.nodes.Keys
    ensures forall z :: z in c.nodes && z != a && z != b ==> Exchange(c, a, b).nodes[z] == c.nodes[z]
  {}

  lemma MeetingViews(c: State, hub: NodeId, m: Meeting)
    requires hub in c.nodes && m.peer in c.nodes && hub != m.peer
    ensures var c' := Meet(c, hub, m);
            && c'.nodes.Keys == c.nodes.Keys
            && Table(c', hub) == HubAfter(hub, m.peer, Table(c, hub), Table(c, m.peer), m.byHub)
            && Table(c', m.peer) == PeerAfter(hub, m.peer, Table(c, hub), Table(c, m.peer), m.byHub)
            && forall z :: z in c.nodes && z != hub && z != m.peer ==> Table(c', z) == Table(c, z)
  {
    if m.byHub {
      OthersUntouched(c, hub, m.peer);
      ExchangeViews(c, hub, m.peer);
    } else {
      OthersUntouched(c, m.peer, hub);
      ExchangeViews(c, m.peer, hub);
    }
  }

  /** How far `vz` has come towards the hub's table `vh`; each level includes the ones before. */
  ghost predicate Level(z: NodeId, vz: View, vh: View, k: nat) {
    && (k >= 1 ==> Below(z, vz, vh))
    && (k >= 2 ==> Cleared(z, vz, vh))
    && (k >= 3 ==> Settled(z, vz, vh))
    && (k >= 4 ==> vz == vh)
  }

  /** A meeting that takes a peer from level `j` to level `k`. */
  predicate Lifts(byHub: bool, j: nat, k: nat) {
    k == j + 1 <= 4 || (byHub && j == 1 && k == 3)
  }

  lemma PeerIsLifted(hub: NodeId, x: NodeId, vh: View, vx: View, byHub: bool, j: nat, k: nat)
    requires CanMeet(hub, x, vh, vx) && Level(x, vx, vh, j) && Lifts(byHub, j, k)
    ensures Level(x, PeerAfter(hub, x, vh, vx, byHub), HubAfter(hub, x, vh, vx, byHub), k)
  {
    MeetingCovers(hub, x, vh, vx, byHub);
    MeetingAnswers(hub, x, vh, vx, byHub);
    if k >= 3 {
      MeetingSettles(hub, x, vh, vx, byHub);
    }
    if k == 4 {
      MeetingEquates(hub, x, vh, vx, byHub);
    }
  }

  /** Meeting one node does not set back another. */
  lemma OthersKeepLevel(hub: NodeId, x: NodeId, vh: View, vx: View, byHub: bool, j: nat, k: nat, z: NodeId, vz: View)
    requires CanMeet(hub, x, vh, vx) && z != x && Level(x, vx, vh, j) && Level(z, vz, vh, k)
    requires k <= j || Lifts(byHub, j, k)
    ensures Level(z, vz, HubAfter(hub, x, vh, vx, byHub), k)
  {
    var vh' := HubAfter(hub, x, vh, vx, byHub);
    if k >= 1 {
      forall y | y in vz && y != z ensures y in vh' && Leq(vz[y], vh'[y]) {
        HubGrows(hub, x, vh, vx, byHub, y);
        LeqTransitive(vz[y], vh[y], vh'[y]);
      }
    }
    if k >= 2 {
      OnlyPeerChanges(hub, x, vh, vx, byHub, z);
    }
    if k >= 4 {
      MeetingEquates(hub, x, vh, vx, byHub);
    }
  }

  ghost predicate At(c: State, hub: NodeId, z: NodeId, k: nat)
    requires hub in c.nodes && z in c.nodes
  {
    Level(z, Table(c, z), Table(c, hub), k)
  }

  lemma MeetingLifts(c: State, hub: NodeId, m: Meeting, j: nat, k: nat, z: NodeId)
    requires Inv(c) && hub in c.nodes && m.peer in c.nodes && z in c.nodes && hub != m.peer && z != hub
    requires At(c, hub, m.peer, j)
    requires if z == m.peer then Lifts(m.byHub, j, k) else At(c, hub, z, k) && (k <= j || Lifts(m.byHub, j, k))
    ensures Meet(c, hub, m).nodes.Keys == c.nodes.Keys && At(Meet(c, hub, m), hub, z, k)
  {
    MeetingViews(c, hub, m);
    BoundedFromInv(c, hub, m.peer);
    BoundedFromInv(c, m.peer, hub);
    var vh, vx := Table(c, hub), Table(c, m.peer);
    if z == m.peer {
      PeerIsLifted(hub, z, vh, vx, m.byHub, j, k);
    } else {
      OthersKeepLevel(hub, m.peer, vh, vx, m.byHub, j, k, z, Table(c, z));
    }
  }

  ghost predicate AllAt(c: State, hub: NodeId, zs: set<NodeId>, k: nat) {
    hub in c.nodes && forall z :: z in zs ==> z in c.nodes && z != hub && At(c, hub, z, k)
  }

  ghost function Others(c: State, hub: NodeId): set<NodeId> {
    c.nodes.Keys - {hub}
  }

  /** The peer is lifted, and nobody is set back. */
  lemma MeetingStep(c: State, hub: NodeId, m: Meeting, met: set<NodeId>, j: nat, k: nat)
    requires Inv(c) && hub in c.nodes && m.peer in c.nodes && m.peer != hub && Lifts(m.byHub, j, k)
    requires AllAt(c, hub, Others(c, hub), j) && AllAt(c, hub, met, k)
    ensures var c' := Meet(c, hub, m);
            && Inv(c') && c'.nodes.Keys == c.nodes.Keys
            && AllAt(c', hub, Others(c', hub), j) && AllAt(c', hub, met + {m.peer}, k)
  {
    MeetingKeepsInv(c, hub, m);
    var c' := Meet(c, hub, m);
    forall z | z in met + {m.peer} ensures z in c'.nodes && At(c', hub, z, k) {
      MeetingLifts(c, hub, m, j, k, z);
    }
    forall z | z in Others(c, hub) ensures At(c', hub, z, j) {
      if z != m.peer {
        MeetingLifts(c, hub, m, j, j, z);
      }
    }
  }

  // ----- Rounds of meetings --------------------------------------------------

  ghost predicate Peers(c: State, hub: NodeId, ms: seq<Meeting>) {
    hub in c.nodes && forall i :: 0 <= i < |ms| ==> ms[i].peer in c.nodes && ms[i].peer != hub
  }

  ghost function Round(c: State, hub: NodeId, ms: seq<Meeting>): State
    requires Peers(c, hub, ms)
    decreases |ms|
  {
    if ms == [] then c else Round(Meet(c, hub, ms[0]), hub, ms[1..])
  }

  /** Everyone listed in the meetings. */
  function Listed(ms: seq<Meeting>): set<NodeId> {
    set i | 0 <= i < |ms| :: ms[i].peer
  }

  lemma ListedFirst(ms: seq<Meeting>)
    requires ms != []
    ensures Listed(ms) == {ms[0].peer} + Listed(ms[1..])
  {
    forall z | z in Listed(ms) ensures z in {ms[0].peer} + Listed(ms[1..]) {
      var i :| 0 <= i < |ms| && ms[i].peer == z;
      assert i > 0 ==> ms[1..][i - 1] == ms[i];
    }
    forall z | z in Listed(ms[1..]) ensures z in Listed(ms) {
      var i :| 0 <= i < |ms[1..]| && ms[1..][i].peer == z;
      assert ms[i + 1] == ms[1..][i];
    }
  }

  ghost predicate AllLift(ms: seq<Meeting>, j: nat, k: nat) {
    forall i :: 0 <= i < |ms| ==> Lifts(ms[i].byHub, j, k)
  }

  lemma RestLifts(c: State, c1: State, hub: NodeId, ms: seq<Meeting>, j: nat, k: nat)
    requires ms != [] && Peers(c, hub, ms) && AllLift(ms, j, k) && c1.nodes.Keys == c.nodes.Keys
    ensures Lifts(ms[0].byHub, j, k) && AllLift(ms[1..], j, k) && Peers(c1, hub, ms[1..])
  {
    assert forall i :: 0 <= i < |ms[1..]| ==> ms[1..][i] == ms[i + 1];
  }

  lemma ListedMore(met: set<NodeId>, ms: seq<Meeting>)
    requires ms != []
    ensures met + Listed(ms) == met + {ms[0].peer} + Listed(ms[1..])
  {
    ListedFirst(ms);
  }

  /** One round takes every node met from level `j`, which all have, to level `k`. */
  lemma {:induction false} RoundLifts(c: State, hub: NodeId, ms: seq<Meeting>, met: set<NodeId>, j: nat, k: nat)
    requires Inv(c) && Peers(c, hub, ms) && AllLift(ms, j, k)
    requires AllAt(c, hub, Others(c, hub), j) && AllAt(c, hub, met, k)
    ensures var c' := Round(c, hub, ms);
            Inv(c') && c'.nodes.Keys == c.nodes.Keys && AllAt(c', hub, met + Listed(ms), k)
    decreases |ms|
  {
    if ms == [] {
      assert met + Listed(ms) == met;
    } else {
      var c1 := Meet(c, hub, ms[0]);
      MeetingKeepsInv(c, hub, ms[0]);
      RestLifts(c, c1, hub, ms, j, k);
      MeetingStep(c, hub, ms[0], met, j, k);
      RoundLifts(c1, hub, ms[1..], met + {ms[0].peer}, j, k);
      ListedMore(met, ms);
    }
  }

  /** The hub meets every other started node. */
  ghost predicate MeetsAll(c: State, hub: NodeId, ms: seq<Meeting>) {
    Peers(c, hub, ms) && Others(c, hub) <= Listed(ms)
  }

  lemma FullRound(c: State, hub: NodeId, ms: seq<Meeting>, j: nat, k: nat)
    requires Inv(c) && MeetsAll(c, hub, ms) && AllLift(ms, j, k) && AllAt(c, hub, Others(c, hub), j)
    ensures var c' := Round(c, hub, ms);
            Inv(c') && c'.nodes.Keys == c.nodes.Keys && AllAt(c', hub, Others(c', hub), k)
  {
    RoundLifts(c, hub, ms, {}, j, k);
  }

  /** All tables are equal, and every started node stands in them as Alive, or as Joining if it is still joining. */
  ghost predicate Converged(c: State) {
    && (forall n, m :: n in c.nodes && m in c.nodes ==> Table(c, n) == Table(c, m))
    && (forall n, m :: n in c.nodes && m in c.nodes ==> m in Table(c, n) && Table(c, n)[m].status in {Joining, Alive})
  }

  lemma LevelFourConverged(c: State, hub: NodeId)
    requires Inv(c) && hub in c.nodes
    requires AllAt(c, hub, Others(c, hub), 4)
    ensures Converged(c)
  {
    assert forall n :: n in c.nodes && n != hub ==> n in Others(c, hub);
    forall m | m in c.nodes ensures m in Table(c, m) && Table(c, m)[m].status in {Joining, Alive} {
      OwnIsSaid(c, m);
    }
  }

  /** From any reachable state of a cluster of any size: four rounds, whoever starts each exchange. */
  lemma FourRoundsConverge(c: State, hub: NodeId, r1: seq<Meeting>, r2: seq<Meeting>, r3: seq<Meeting>,
                           r4: seq<Meeting>)
    requires Reachable(c) && MeetsAll(c, hub, r1) && MeetsAll(c, hub, r2) && MeetsAll(c, hub, r3)
      && MeetsAll(c, hub, r4)
    ensures Peers(Round(c, hub, r1), hub, r2) && Peers(Round(Round(c, hub, r1), hub, r2), hub, r3)
    ensures var c3 := Round(Round(Round(c, hub, r1), hub, r2), hub, r3);
            Peers(c3, hub, r4) && Round(c3, hub, r4).nodes.Keys == c.nodes.Keys && Converged(Round(c3, hub, r4))
  {
    ReachableInv(c);
    FullRound(c, hub, r1, 0, 1);
    var c1 := Round(c, hub, r1);
    FullRound(c1, hub, r2, 1, 2);
    var c2 := Round(c1, hub, r2);
    FullRound(c2, hub, r3, 2, 3);
    var c3 := Round(c2, hub, r3);
    FullRound(c3, hub, r4, 3, 4);
    LevelFourConverged(Round(c3, hub, r4), hub);
  }

  /** If the hub starts the exchanges of the second round, three rounds are enough. */
  lemma ThreeRoundsConverge(c: State, hub: NodeId, r1: seq<Meeting>, r2: seq<Meeting>, r3: seq<Meeting>)
    requires Reachable(c) && MeetsAll(c, hub, r1) && MeetsAll(c, hub, r2) && MeetsAll(c, hub, r3)
    requires forall i :: 0 <= i < |r2| ==> r2[i].byHub
    ensures Peers(Round(c, hub, r1), hub, r2)
    ensures var c2 := Round(Round(c, hub, r1), hub, r2);
            Peers(c2, hub, r3) && Round(c2, hub, r3).nodes.Keys == c.nodes.Keys && Converged(Round(c2, hub, r3))
  {
    ReachableInv(c);
    FullRound(c, hub, r1, 0, 1);
    var c1 := Round(c, hub, r1);
    FullRound(c1, hub, r2, 1, 3);
    var c2 := Round(c1, hub, r2);
    FullRound(c2, hub, r3, 3, 4);
    LevelFourConverged(Round(c2, hub, r3), hub);
  }

  // ----- Meetings the nodes would make ---------------------------------------

  /** Whoever starts the exchange records the other as Alive or Joining. */
  predicate Allowed(c: State, hub: NodeId, m: Meeting)
    requires hub in c.nodes && m.peer in c.nodes
  {
    if m.byHub then Contactable(Table(c, hub), m.peer) else Contactable(Table(c, m.peer), hub)
  }

  ghost predicate AllAllowed(c: State, hub: NodeId, ms: seq<Meeting>)
    requires Peers(c, hub, ms)
    decreases |ms|
  {
    ms == [] || (Allowed(c, hub, ms[0]) && AllAllowed(Meet(c, hub, ms[0]), hub, ms[1..]))
  }

  /** No started node suspects another. */
  ghost predicate Trusting(c: State) {
    forall n, m :: n in c.nodes && m in c.nodes && m in Table(c, n) ==> Contactable(Table(c, n), m)
  }

  /** Whoever starts the exchange has heard of the other. */
  predicate Knows(c: State, hub: NodeId, m: Meeting)
    requires hub in c.nodes && m.peer in c.nodes
  {
    if m.byHub then m.peer in Table(c, hub) else hub in Table(c, m.peer)
  }

  ghost predicate AllKnown(c: State, hub: NodeId, ms: seq<Meeting>) {
    Peers(c, hub, ms) && forall i :: 0 <= i < |ms| ==> Knows(c, hub, ms[i])
  }

  /** From `c` to `c'` no table has forgotten anybody. */
  ghost predicate Remembers(c: State, c': State) {
    c'.nodes.Keys == c.nodes.Keys && forall n :: n in c.nodes ==> Table(c, n).Keys <= Table(c', n).Keys
  }

  predicate Trusts(v: View, id: NodeId) {
    id in v ==> Contactable(v, id)
  }

  lemma MergeTrusts(n: NodeId, v: View, w: View, id: NodeId)
    requires Trusts(v, id) && Trusts(w, id)
    ensures Trusts(MergeView(n, v, w), id) && v.Keys <= MergeView(n, v, w).Keys
  {}

  lemma MeetingTrusts(hub: NodeId, x: NodeId, vh: View, vx: View, byHub: bool, id: NodeId)
    requires Trusts(vh, id) && Trusts(vx, id)
    ensures var vh', vx' := HubAfter(hub, x, vh, vx, byHub), PeerAfter(hub, x, vh, vx, byHub);
            Trusts(vh', id) && Trusts(vx', id) && vh.Keys <= vh'.Keys && vx.Keys <= vx'.Keys
  {
    if byHub {
      MergeTrusts(x, vx, vh, id);
      MergeTrusts(hub, vh, MergeView(x, vx, vh), id);
    } else {
      MergeTrusts(hub, vh, vx, id);
      MergeTrusts(x, vx, MergeView(hub, vh, vx), id);
    }
  }

  lemma MeetingKeepsTrust(c: State, hub: NodeId, m: Meeting)
    requires Trusting(c) && hub in c.nodes && m.peer in c.nodes && m.peer != hub
    ensures Trusting(Meet(c, hub, m)) && Remembers(c, Meet(c, hub, m))
  {
    var c' := Meet(c, hub, m);
    MeetingViews(c, hub, m);
    forall n, id | n in c'.nodes && id in c'.nodes && id in Table(c', n) ensures Contactable(Table(c', n), id) {
      MeetingTrusts(hub, m.peer, Table(c, hub), Table(c, m.peer), m.byHub, id);
    }
    MeetingTrusts(hub, m.peer, Table(c, hub), Table(c, m.peer), m.byHub, hub);
  }

  lemma StillKnown(c: State, c': State, hub: NodeId, ms: seq<Meeting>)
    requires AllKnown(c, hub, ms) && Remembers(c, c')
    ensures AllKnown(c', hub, ms)
  {
    forall i | 0 <= i < |ms| ensures Knows(c', hub, ms[i]) {
      assert Knows(c, hub, ms[i]);
    }
  }

  lemma KnownRest(c: State, hub: NodeId, ms: seq<Meeting>)
    requires AllKnown(c, hub, ms) && ms != []
    ensures AllKnown(c, hub, ms[1..])
  {
    assert forall i :: 0 <= i < |ms[1..]| ==> ms[1..][i] == ms[i + 1];
  }

  /** While nobody is suspected, every meeting of nodes that know each other is one they would make. */
  lemma {:induction false} RoundIsAllowed(c: State, hub: NodeId, ms: seq<Meeting>)
    requires Trusting(c) && AllKnown(c, hub, ms)
    ensures AllAllowed(c, hub, ms) && Trusting(Round(c, hub, ms)) && Remembers(c, Round(c, hub, ms))
    decreases |ms|
  {
    if ms == [] {
    } else {
      var c1 := Meet(c, hub, ms[0]);
      MeetingKeepsTrust(c, hub, ms[0]);
      KnownRest(c, hub, ms);
      StillKnown(c, c1, hub, ms[1..]);
      RoundIsAllowed(c1, hub, ms[1..]);
      assert Knows(c, hub, ms[0]);
    }
  }

  /**
   With the code's own choice of partners: in a reachable cluster in which no started node suspects
   another, four rounds of meetings of nodes that know each other are all allowed, and converge.
   */
  lemma TrustingClusterConverges(c: State, hub: NodeId, r1: seq<Meeting>, r2: seq<Meeting>, r3: seq<Meeting>,
                                 r4: seq<Meeting>)
    requires Reachable(c) && Trusting(c) && MeetsAll(c, hub, r1) && MeetsAll(c, hub, r2)
    requires MeetsAll(c, hub, r3) && MeetsAll(c, hub, r4)
    requires AllKnown(c, hub, r1) && AllKnown(c, hub, r2) && AllKnown(c, hub, r3) && AllKnown(c, hub, r4)
    ensures AllAllowed(c, hub, r1)
    ensures var c1 := Round(c, hub, r1); Peers(c1, hub, r2) && AllAllowed(c1, hub, r2)
    ensures var c2 := Round(Round(c, hub, r1), hub, r2); Peers(c2, hub, r3) && AllAllowed(c2, hub, r3)
    ensures var c3 := Round(Round(Round(c, hub, r1), hub, r2), hub, r3);
            Peers(c3, hub, r4) && AllAllowed(c3, hub, r4) && Converged(Round(c3, hub, r4))
  {
    FourRoundsConverge(c, hub, r1, r2, r3, r4);
    RoundIsAllowed(c, hub, r1);
    var c1 := Round(c, hub, r1);
    StillKnown(c, c1, hub, r2);
    RoundIsAllowed(c1, hub, r2);
    var c2 := Round(c1, hub, r2);
    RememberedTwice(c, c1, c2);
    StillKnown(c, c2, hub, r3);
    RoundIsAllowed(c2, hub, r3);
    var c3 := Round(c2, hub, r3);
    RememberedTwice(c, c2, c3);
    StillKnown(c, c3, hub, r4);
    RoundIsAllowed(c3, hub, r4);
  }

  lemma RememberedTwice(a: State, b: State, c: State)
    requires Remembers(a, b) && Remembers(b, c)
    ensures Remembers(a, c)
  {}
}
