/**
 What the choice of gossip partners means. A node only contacts members it records Alive or Joining
 (gossip/protocol.rs, `gossip_round`), at the address it has for them. So two groups of nodes can lose
 each other for good: exactly when no table on either side, nor any message under way on that side,
 offers a partner on the other side.

 The state is that of module Cluster together with the letters under way; every move is a cluster action.
 */
module Partition {
  import opened Common
  import opened Membership
  import opened Gossip
  import Cluster
  import Convergence

  /** A request or a reply under way; it may be delivered at any time, any number of times or never. */
  datatype Letter = Letter(src: NodeId, dst: NodeId, msg: View, isReply: bool)

  datatype State = State(cluster: Cluster.State, mail: set<Letter>)

  /**
   The node that answers at an id's address, if any. A seed's generated id leads to the node behind it;
   a node's own id leads to that node, or nowhere if it published an empty address.
   */
  type Homes = NodeId -> Option<NodeId>

  datatype Move =
    | Request(a: NodeId, id: NodeId)
    | Deliver(letter: Letter)
    | Detect(n: NodeId, after: View)
    | Finish(n: NodeId)

  function ActionOf(m: Move): Cluster.Action {
    match m
    case Request(a, _) => Cluster.Send(a)
    case Deliver(l) => if l.isReply then Cluster.Receive(l.dst, l.msg) else Cluster.Answer(l.dst, l.msg)
    case Detect(n, after) => Cluster.TimeOut(n, after)
    case Finish(n) => Cluster.FinishJoin(n)
  }

  predicate Reaches(home: Homes, c: Cluster.State, id: NodeId) {
    home(id).Some? && home(id).value in c.nodes
  }

  ghost predicate Permitted(home: Homes, s: State, m: Move) {
    && Cluster.Enabled(s.cluster, ActionOf(m))
    && (m.Request? ==>
          m.id != m.a && Reaches(home, s.cluster, m.id) && Contactable(s.cluster.nodes[m.a].view, m.id))
    && (m.Deliver? ==> m.letter in s.mail)
  }

  /** The letters a move sends. */
  ghost function Sends(home: Homes, s: State, m: Move): set<Letter>
    requires Permitted(home, s, m)
  {
    match m
    case Request(a, id) => {Letter(a, home(id).value, s.cluster.nodes[a].view, false)}
    case Deliver(l) =>
      if l.isReply then {} else {Letter(l.dst, l.src, MergeView(l.dst, s.cluster.nodes[l.dst].view, l.msg), true)}
    case _ => {}
  }

  ghost function Do(home: Homes, s: State, m: Move): State
    requires Permitted(home, s, m)
  {
    State(Cluster.Next(s.cluster, ActionOf(m)), s.mail + Sends(home, s, m))
  }

  /** The moves can be made one after the other. */
  ghost predicate Playable(home: Homes, s: State, moves: seq<Move>)
    decreases |moves|
  {
    moves == [] || (Permitted(home, s, moves[0]) && Playable(home, Do(home, s, moves[0]), moves[1..]))
  }

  ghost function Play(home: Homes, s: State, moves: seq<Move>): State
    requires Playable(home, s, moves)
    decreases |moves|
  {
    if moves == [] then s else Play(home, Do(home, s, moves[0]), moves[1..])
  }

  // ----- Two sides -----------------------------------------------------------

  /** `n` is on one side and `id` leads to the other. */
  predicate Across(home: Homes, side: set<NodeId>, n: NodeId, id: NodeId) {
    home(id).Some? && (n in side) != (home(id).value in side)
  }

  /** A table at `n`'s side that offers nobody of the other side. */
  ghost predicate Blind(home: Homes, c: Cluster.State, side: set<NodeId>, n: NodeId, v: View) {
    forall id :: Reaches(home, c, id) && Across(home, side, n, id) ==> !Contactable(v, id)
  }

  /** No table on either side offers a partner on the other side. */
  ghost predicate Cut(home: Homes, s: State, side: set<NodeId>) {
    forall n :: n in s.cluster.nodes ==> Blind(home, s.cluster, side, n, s.cluster.nodes[n].view)
  }

  /** No letter under way would make its receiver's table offer one. */
  ghost predicate Harmless(home: Homes, s: State, side: set<NodeId>) {
    forall l :: l in s.mail && l.dst in s.cluster.nodes ==>
      Blind(home, s.cluster, side, l.dst, MergeView(l.dst, s.cluster.nodes[l.dst].view, l.msg))
  }

  ghost predicate Severed(home: Homes, s: State, side: set<NodeId>) {
    Cut(home, s, side) && Harmless(home, s, side)
  }

  /** No letter is under way from one side to the other. */
  ghost predicate MailStays(s: State, side: set<NodeId>) {
    forall l :: l in s.mail ==> (l.src in side <==> l.dst in side)
  }

  /** A node's own id leads to that node or nowhere. */
  ghost predicate OwnAddresses(home: Homes, s: State) {
    forall n :: n in s.cluster.nodes ==> home(n) in {None, Some(n)}
  }

  /** Letters carry messages of the cluster. */
  ghost predicate MailIsSent(s: State) {
    forall l :: l in s.mail ==> l.msg in s.cluster.net
  }

  // ----- One move ------------------------------------------------------------

  /** Blindness depends only on which nodes there are. */
  lemma BlindElsewhere(home: Homes, c: Cluster.State, c': Cluster.State, side: set<NodeId>, n: NodeId, m: NodeId,
                       v: View)
    requires Blind(home, c, side, n, v) && c'.nodes.Keys == c.nodes.Keys && (n in side <==> m in side)
    ensures Blind(home, c', side, m, v)
  {
    forall id | Reaches(home, c', id) && Across(home, side, m, id) ensures !Contactable(v, id) {
      assert Reaches(home, c, id) && Across(home, side, n, id);
    }
  }

  lemma MergeStaysBlind(home: Homes, c: Cluster.State, side: set<NodeId>, n: NodeId, v: View, msg: View)
    requires home(n) in {None, Some(n)} && Blind(home, c, side, n, v) && Blind(home, c, side, n, msg)
    ensures Blind(home, c, side, n, MergeView(n, v, msg))
  {
    forall id | Reaches(home, c, id) && Across(home, side, n, id) ensures !Contactable(MergeView(n, v, msg), id) {
      assert !Contactable(v, id) && !Contactable(msg, id);
    }
  }

  /** What a node holds about others only grows. */
  ghost predicate Grows(n: NodeId, v: View, v': View) {
    forall id :: id in v && id != n ==> id in v' && Leq(v[id], v'[id])
  }

  /** A letter that is harmless to a table stays harmless to the grown table. */
  lemma StaysHarmless(home: Homes, c: Cluster.State, side: set<NodeId>, n: NodeId, v: View, v': View, msg: View)
    requires home(n) in {None, Some(n)} && Grows(n, v, v')
    requires Blind(home, c, side, n, v') && Blind(home, c, side, n, MergeView(n, v, msg))
    ensures Blind(home, c, side, n, MergeView(n, v', msg))
  {
    forall id | Reaches(home, c, id) && Across(home, side, n, id) ensures !Contactable(MergeView(n, v', msg), id) {
      assert !Contactable(v', id) && !Contactable(MergeView(n, v, msg), id);
      if id in msg && id in v && Contactable(msg, id) {
        if Leq(v'[id], msg[id]) {
          Cluster.LeqTransitive(v[id], v'[id], msg[id]);
        }
      }
    }
  }

  /** The acting node's table after a move. */
  lemma MoveOfOne(home: Homes, s: State, side: set<NodeId>, m: Move)
    requires Permitted(home, s, m) && OwnAddresses(home, s) && Severed(home, s, side)
    ensures var n, c' := ActionOf(m).id, Do(home, s, m).cluster;
            && n in s.cluster.nodes && c'.nodes.Keys == s.cluster.nodes.Keys
            && Grows(n, s.cluster.nodes[n].view, c'.nodes[n].view)
            && Blind(home, s.cluster, side, n, c'.nodes[n].view)
            && (forall z :: z in s.cluster.nodes && z != n ==> c'.nodes[z] == s.cluster.nodes[z])
  {
    var n, c := ActionOf(m).id, s.cluster;
    var v, v' := c.nodes[n].view, Do(home, s, m).cluster.nodes[n].view;
    assert Blind(home, c, side, n, v);
    match m
    case Request(_, _) =>
    case Deliver(l) =>
      assert v' == MergeView(n, v, l.msg);
    case Detect(_, after) =>
      forall id | Reaches(home, c, id) && Across(home, side, n, id) ensures !Contactable(after, id) {
        assert !Contactable(v, id);
        assert id in v ==> MayTimeOut(v[id], after[id]);
      }
    case Finish(_) =>
      forall id | Reaches(home, c, id) && Across(home, side, n, id) ensures !Contactable(v', id) {
        assert !Contactable(v, id);
      }
  }

  lemma MoveKeepsCut(home: Homes, s: State, side: set<NodeId>, m: Move)
    requires Permitted(home, s, m) && OwnAddresses(home, s) && Severed(home, s, side)
    ensures Cut(home, Do(home, s, m), side) && Do(home, s, m).cluster.nodes.Keys == s.cluster.nodes.Keys
  {
    MoveOfOne(home, s, side, m);
    var n, c' := ActionOf(m).id, Do(home, s, m).cluster;
    forall z | z in c'.nodes ensures Blind(home, c', side, z, c'.nodes[z].view) {
      BlindElsewhere(home, s.cluster, c', side, z, z, c'.nodes[z].view);
    }
  }

  /** A letter already under way stays harmless. */
  lemma OldLetterStaysHarmless(home: Homes, s: State, side: set<NodeId>, m: Move, l: Letter)
    requires Permitted(home, s, m) && OwnAddresses(home, s) && Severed(home, s, side)
    requires l in s.mail && l.dst in s.cluster.nodes
    ensures var c' := Do(home, s, m).cluster;
            l.dst in c'.nodes && Blind(home, c', side, l.dst, MergeView(l.dst, c'.nodes[l.dst].view, l.msg))
  {
    MoveOfOne(home, s, side, m);
    var d, c, c' := l.dst, s.cluster, Do(home, s, m).cluster;
    var v, v' := c.nodes[d].view, c'.nodes[d].view;
    assert Blind(home, c, side, d, MergeView(d, v, l.msg));
    if d == ActionOf(m).id {
      StaysHarmless(home, c, side, d, v, v', l.msg);
    }
    BlindElsewhere(home, c, c', side, d, d, MergeView(d, v', l.msg));
  }

  /** A letter to the sender's own side that says what the sender's table says is harmless. */
  lemma NewLetterIsHarmless(home: Homes, s: State, side: set<NodeId>, src: NodeId, dst: NodeId)
    requires OwnAddresses(home, s) && Cut(home, s, side)
    requires src in s.cluster.nodes && dst in s.cluster.nodes && (src in side <==> dst in side)
    ensures Blind(home, s.cluster, side, dst, MergeView(dst, s.cluster.nodes[dst].view, s.cluster.nodes[src].view))
  {
    BlindElsewhere(home, s.cluster, s.cluster, side, src, dst, s.cluster.nodes[src].view);
    MergeStaysBlind(home, s.cluster, side, dst, s.cluster.nodes[dst].view, s.cluster.nodes[src].view);
  }

  /** What a move sends comes from the acting node, says what its table then says, and stays on its side. */
  lemma SentLetters(home: Homes, s: State, side: set<NodeId>, m: Move, l: Letter)
    requires Permitted(home, s, m) && Cut(home, s, side) && MailStays(s, side) && l in Sends(home, s, m)
    ensures var s' := Do(home, s, m);
            l.src in s'.cluster.nodes && l.msg == s'.cluster.nodes[l.src].view && (l.src in side <==> l.dst in side)
  {
    if m.Request? {
      assert Blind(home, s.cluster, side, m.a, s.cluster.nodes[m.a].view);
    }
  }

  /** Every move keeps the sides apart, and no request crosses. */
  lemma MoveKeepsSevered(home: Homes, s: State, side: set<NodeId>, m: Move)
    requires Permitted(home, s, m) && OwnAddresses(home, s) && MailStays(s, side) && Severed(home, s, side)
    ensures m.Request? ==> !Across(home, side, m.a, m.id)
    ensures var s' := Do(home, s, m);
            && s'.cluster.nodes.Keys == s.cluster.nodes.Keys
            && OwnAddresses(home, s') && MailStays(s', side) && Severed(home, s', side)
  {
    var s' := Do(home, s, m);
    MoveKeepsCut(home, s, side, m);
    if m.Request? {
      assert Blind(home, s.cluster, side, m.a, s.cluster.nodes[m.a].view);
    }
    forall l | l in s'.mail ensures l.src in side <==> l.dst in side {
      if l in Sends(home, s, m) {
        SentLetters(home, s, side, m, l);
      }
    }
    forall l | l in s'.mail && l.dst in s'.cluster.nodes
      ensures Blind(home, s'.cluster, side, l.dst, MergeView(l.dst, s'.cluster.nodes[l.dst].view, l.msg))
    {
      if l in s.mail {
        OldLetterStaysHarmless(home, s, side, m, l);
      } else {
        SentLetters(home, s, side, m, l);
        NewLetterIsHarmless(home, s', side, l.src, l.dst);
      }
    }
  }

  // ----- Whole runs ----------------------------------------------------------

  /** No move leads a node to contact the other side. */
  ghost predicate NeverAcross(home: Homes, side: set<NodeId>, moves: seq<Move>) {
    forall i :: 0 <= i < |moves| && moves[i].Request? ==> !Across(home, side, moves[i].a, moves[i].id)
  }

  /** Severed sides stay severed. */
  lemma {:induction false} SeveredIsPermanent(home: Homes, s: State, side: set<NodeId>, moves: seq<Move>)
    requires Playable(home, s, moves) && OwnAddresses(home, s) && MailStays(s, side) && Severed(home, s, side)
    ensures NeverAcross(home, side, moves)
    ensures Play(home, s, moves).cluster.nodes.Keys == s.cluster.nodes.Keys && Severed(home, Play(home, s, moves), side)
    decreases |moves|
  {
    if moves == [] {
    } else {
      MoveKeepsSevered(home, s, side, moves[0]);
      SeveredIsPermanent(home, Do(home, s, moves[0]), side, moves[1..]);
      assert forall i :: 1 <= i < |moves| ==> moves[i] == moves[1..][i - 1];
    }
  }

  lemma OneMove(home: Homes, s: State, m: Move)
    requires Permitted(home, s, m)
    ensures Playable(home, s, [m])
  {
    assert [m][1..] == [];
    assert Playable(home, Do(home, s, m), []);
  }

  lemma TwoMoves(home: Homes, s: State, m: Move, m': Move)
    requires Permitted(home, s, m) && Permitted(home, Do(home, s, m), m')
    ensures Playable(home, s, [m, m'])
  {
    assert [m, m'][1..] == [m'];
    OneMove(home, Do(home, s, m), m');
  }

  lemma ContactIsPossible(home: Homes, s: State, side: set<NodeId>, n: NodeId, id: NodeId)
    requires OwnAddresses(home, s) && n in s.cluster.nodes && Reaches(home, s.cluster, id)
    requires Across(home, side, n, id) && Contactable(s.cluster.nodes[n].view, id)
    ensures Permitted(home, s, Request(n, id))
  {
    assert id != n;
  }

  lemma Crosses(home: Homes, side: set<NodeId>, moves: seq<Move>, i: nat)
    requires i < |moves| && moves[i].Request? && Across(home, side, moves[i].a, moves[i].id)
    ensures !NeverAcross(home, side, moves)
  {}

  /** Some run leads a node to contact the other side. */
  ghost predicate CanMeetAgain(home: Homes, s: State, side: set<NodeId>) {
    exists moves :: Playable(home, s, moves) && !NeverAcross(home, side, moves)
  }

  lemma TableOffers(home: Homes, s: State, side: set<NodeId>)
    requires OwnAddresses(home, s) && !Cut(home, s, side)
    ensures CanMeetAgain(home, s, side)
  {
    var n :| n in s.cluster.nodes && !Blind(home, s.cluster, side, n, s.cluster.nodes[n].view);
    var id :| Reaches(home, s.cluster, id) && Across(home, side, n, id) && Contactable(s.cluster.nodes[n].view, id);
    ContactIsPossible(home, s, side, n, id);
    OneMove(home, s, Request(n, id));
    Crosses(home, side, [Request(n, id)], 0);
  }

  lemma LetterOffers(home: Homes, s: State, side: set<NodeId>)
    requires OwnAddresses(home, s) && MailIsSent(s) && !Harmless(home, s, side)
    ensures CanMeetAgain(home, s, side)
  {
    var l :| && l in s.mail && l.dst in s.cluster.nodes
             && !Blind(home, s.cluster, side, l.dst, MergeView(l.dst, s.cluster.nodes[l.dst].view, l.msg));
    var merged := MergeView(l.dst, s.cluster.nodes[l.dst].view, l.msg);
    var id :| Reaches(home, s.cluster, id) && Across(home, side, l.dst, id) && Contactable(merged, id);
    DeliveredThenContacted(home, s, side, l, id);
  }

  lemma DeliveredThenContacted(home: Homes, s: State, side: set<NodeId>, l: Letter, id: NodeId)
    requires OwnAddresses(home, s) && MailIsSent(s) && l in s.mail && l.dst in s.cluster.nodes
    requires Reaches(home, s.cluster, id) && Across(home, side, l.dst, id)
    requires Contactable(MergeView(l.dst, s.cluster.nodes[l.dst].view, l.msg), id)
    ensures CanMeetAgain(home, s, side)
  {
    AfterDelivery(home, s, l);
    ContactIsPossible(home, Do(home, s, Deliver(l)), side, l.dst, id);
    TwoMoves(home, s, Deliver(l), Request(l.dst, id));
    Crosses(home, side, [Deliver(l), Request(l.dst, id)], 1);
  }

  lemma AfterDelivery(home: Homes, s: State, l: Letter)
    requires MailIsSent(s) && l in s.mail && l.dst in s.cluster.nodes
    ensures Permitted(home, s, Deliver(l))
    ensures var c' := Do(home, s, Deliver(l)).cluster;
            && c'.nodes.Keys == s.cluster.nodes.Keys
            && c'.nodes[l.dst].view == MergeView(l.dst, s.cluster.nodes[l.dst].view, l.msg)
  {}

  /**
   If no letter is under way from one side to the other, the two sides never contact each other again,
   whatever happens, if and only if no table offers a partner on the other side and no letter under way
   would make its receiver's table offer one.
   */
  lemma LostForeverIff(home: Homes, s: State, side: set<NodeId>)
    requires OwnAddresses(home, s) && MailIsSent(s) && MailStays(s, side)
    ensures !CanMeetAgain(home, s, side) <==> Severed(home, s, side)
  {
    if Severed(home, s, side) {
      forall moves | Playable(home, s, moves) ensures NeverAcross(home, side, moves) {
        SeveredIsPermanent(home, s, side, moves);
      }
    } else if !Cut(home, s, side) {
      TableOffers(home, s, side);
    } else {
      LetterOffers(home, s, side);
    }
  }

  lemma {:induction false} PlayKeepsInv(home: Homes, s: State, moves: seq<Move>)
    requires Playable(home, s, moves) && Cluster.Inv(s.cluster)
    ensures Cluster.Inv(Play(home, s, moves).cluster)
    decreases |moves|
  {
    if moves == [] {
    } else {
      Cluster.StepKeepsInv(s.cluster, ActionOf(moves[0]));
      PlayKeepsInv(home, Do(home, s, moves[0]), moves[1..]);
    }
  }

  /**
   Hence from any reachable cluster severed nodes of different sides never come to have the same
   table, if one of them published its address: it stands Alive or Joining in its own table only.
   */
  lemma LostSidesNeverAgree(home: Homes, s: State, side: set<NodeId>, moves: seq<Move>, a: NodeId, b: NodeId)
    requires Cluster.Reachable(s.cluster) && Playable(home, s, moves)
    requires OwnAddresses(home, s) && MailStays(s, side) && Severed(home, s, side)
    requires a in s.cluster.nodes && b in s.cluster.nodes && home(a) == Some(a) && (a in side) != (b in side)
    ensures var c' := Play(home, s, moves).cluster;
            a in c'.nodes && b in c'.nodes && c'.nodes[a].view != c'.nodes[b].view
  {
    Cluster.ReachableInv(s.cluster);
    SeveredIsPermanent(home, s, side, moves);
    PlayKeepsInv(home, s, moves);
    var c' := Play(home, s, moves).cluster;
    Cluster.OwnIsSaid(c', a);
    assert Contactable(c'.nodes[a].view, a);
    assert Blind(home, c', side, b, c'.nodes[b].view) && Reaches(home, c', a) && Across(home, side, b, a);
  }

  /** The move leads from one state to the other. */
  ghost predicate Leads(home: Homes, s: State, m: Move, s': State) {
    Permitted(home, s, m) && s' == Do(home, s, m)
  }

  /** A request that is delivered and whose reply is delivered is one gossip exchange. */
  lemma ContactIsExchange(home: Homes, s: State, a: NodeId, id: NodeId, b: NodeId)
    returns (s1: State, s2: State, s3: State, request: Letter, reply: Letter)
    requires Permitted(home, s, Request(a, id)) && home(id) == Some(b) && a != b
    ensures Leads(home, s, Request(a, id), s1) && Leads(home, s1, Deliver(request), s2)
    ensures Leads(home, s2, Deliver(reply), s3)
    ensures s3.cluster.nodes == Convergence.Exchange(s.cluster, a, b).nodes
  {
    var c := s.cluster;
    request := Letter(a, b, c.nodes[a].view, false);
    s1 := Do(home, s, Request(a, id));
    s2 := Do(home, s1, Deliver(request));
    reply := Letter(b, a, s2.cluster.nodes[b].view, true);
    s3 := Do(home, s2, Deliver(reply));
    assert s3.cluster == Convergence.Exchange(c, a, b);
  }
}
