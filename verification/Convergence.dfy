/** Two uninterrupted gossip exchanges make two nodes agree on every id. */
module Convergence {
  import opened Common
  import opened Membership
  import opened Cluster

  /** The actions of one exchange started by `a` and answered by `b`, nothing in between. */
  ghost function Requested(c: State, a: NodeId): State
    requires a in c.nodes
  {
    Next(c, Send(a))
  }

  ghost function Answered(c: State, a: NodeId, b: NodeId): State
    requires a in c.nodes && b in c.nodes
  {
    Next(Requested(c, a), Answer(b, c.nodes[a].view))
  }

  ghost function Exchange(c: State, a: NodeId, b: NodeId): State
    requires a in c.nodes && b in c.nodes
  {
    var mid := Answered(c, a, b);
    Next(mid, Receive(a, mid.nodes[b].view))
  }

  lemma AnsweredKeepsInv(c: State, a: NodeId, b: NodeId)
    requires Inv(c) && a in c.nodes && b in c.nodes
    ensures Inv(Answered(c, a, b)) && Answered(c, a, b).nodes.Keys == c.nodes.Keys
  {
    StepKeepsInv(c, Send(a));
    StepKeepsInv(Requested(c, a), Answer(b, c.nodes[a].view));
  }

  lemma ExchangeKeepsInv(c: State, a: NodeId, b: NodeId)
    requires Inv(c) && a in c.nodes && b in c.nodes
    ensures Inv(Exchange(c, a, b))
    ensures Exchange(c, a, b).nodes.Keys == c.nodes.Keys
  {
    AnsweredKeepsInv(c, a, b);
    var mid := Answered(c, a, b);
    StepKeepsInv(mid, Receive(a, mid.nodes[b].view));
  }

  /** The exchange between tables that `Gossip.GossipRound` performs is this one. */
  lemma ExchangeViews(c: State, a: NodeId, b: NodeId)
    requires a in c.nodes && b in c.nodes && a != b
    ensures Exchange(c, a, b).nodes[b].view == MergeView(b, c.nodes[b].view, c.nodes[a].view)
    ensures Exchange(c, a, b).nodes[a].view == MergeView(a, c.nodes[a].view, Exchange(c, a, b).nodes[b].view)
  {}

  /** Two views hold the same record of `id`, or both hold none. */
  predicate Same(v: View, w: View, id: NodeId) {
    (id in v <==> id in w) && (id in v ==> v[id] == w[id])
  }

  predicate AgreeOn(c: State, a: NodeId, b: NodeId, id: NodeId)
    requires a in c.nodes && b in c.nodes
  {
    Same(c.nodes[a].view, c.nodes[b].view, id)
  }

  /** `b` holds something against `a` at `a`'s own incarnation, so `a` has to refute it. */
  predicate MustRefute(c: State, a: NodeId, b: NodeId)
    requires a in c.nodes && b in c.nodes && a in c.nodes[a].view
  {
    && a in c.nodes[b].view
    && Challenges(c.nodes[b].view[a])
    && c.nodes[b].view[a].incarnation >= c.nodes[a].view[a].incarnation
  }

  /**
   One exchange: agreement on every id but the initiator, and on the initiator exactly when it had
   nothing to refute.
   */
  lemma OneExchange(c: State, a: NodeId, b: NodeId, id: NodeId)
    requires Reachable(c) && a in c.nodes && b in c.nodes && a != b
    ensures a in c.nodes[a].view
    ensures AgreeOn(Exchange(c, a, b), a, b, id) <==> id != a || !MustRefute(c, a, b)
  {
    ReachableInv(c);
    OneExchangeFromInv(c, a, b, id);
  }

  /**
   What the invariant gives for the views of two nodes: `heldBy` says nothing about `n` that is above
   `n`'s own record, challenges aside.
   */
  predicate Bounded(n: NodeId, own: View, heldBy: View) {
    && n in own && own[n].status in {Joining, Alive}
    && (n in heldBy ==> heldBy[n].incarnation <= own[n].incarnation)
    && (n in heldBy && own[n].status == Joining ==> heldBy[n] == own[n])
  }

  lemma BoundedFromInv(c: State, n: NodeId, m: NodeId)
    requires Inv(c) && n in c.nodes && m in c.nodes
    ensures Bounded(n, c.nodes[n].view, c.nodes[m].view)
  {
    OwnIsSaid(c, n);
    assert n in c.nodes[m].view ==> Said(c, n, c.nodes[m].view[n]);
  }

  lemma ViewsAfterExchange(a: NodeId, b: NodeId, va: View, vb: View, id: NodeId)
    requires a != b && Bounded(a, va, vb) && Bounded(b, vb, va)
    ensures var vb' := MergeView(b, vb, va);
            var va' := MergeView(a, va, vb');
            Same(va', vb', id) <==> id != a || !(a in vb && Challenges(vb[a]) && vb[a].incarnation >= va[a].incarnation)
  {
    var vb' := MergeView(b, vb, va);
    if id == a {
      assert vb'[a] == if a in vb then Join(vb[a], va[a]) else va[a];
    } else if id == b {
      assert vb'[b] == if b in va then Refute(vb[b], va[b]) else vb[b];
    }
  }

  lemma OneExchangeFromInv(c: State, a: NodeId, b: NodeId, id: NodeId)
    requires Inv(c) && a in c.nodes && b in c.nodes && a != b
    ensures AgreeOn(Exchange(c, a, b), a, b, id) <==> id != a || !MustRefute(c, a, b)
  {
    ExchangeViews(c, a, b);
    BoundedFromInv(c, a, b);
    BoundedFromInv(c, b, a);
    ViewsAfterExchange(a, b, c.nodes[a].view, c.nodes[b].view, id);
  }

  lemma NoChallengeAfterExchange(a: NodeId, b: NodeId, va: View, vb: View)
    requires a != b && Bounded(a, va, vb) && Bounded(b, vb, va)
    ensures var vb' := MergeView(b, vb, va);
            var va' := MergeView(a, va, vb');
            && !(a in vb' && Challenges(vb'[a]) && vb'[a].incarnation >= va'[a].incarnation)
            && !(b in va' && Challenges(va'[b]) && va'[b].incarnation >= vb'[b].incarnation)
  {
    var vb' := MergeView(b, vb, va);
    assert vb'[a] == if a in vb then Join(vb[a], va[a]) else va[a];
    assert vb'[b] == if b in va then Refute(vb[b], va[b]) else vb[b];
  }

  lemma NothingLeftToRefute(c: State, a: NodeId, b: NodeId)
    requires Inv(c) && a in c.nodes && b in c.nodes && a != b
    ensures Inv(Exchange(c, a, b))
    ensures !MustRefute(Exchange(c, a, b), a, b) && !MustRefute(Exchange(c, a, b), b, a)
  {
    ExchangeKeepsInv(c, a, b);
    ExchangeViews(c, a, b);
    BoundedFromInv(c, a, b);
    BoundedFromInv(c, b, a);
    NoChallengeAfterExchange(a, b, c.nodes[a].view, c.nodes[b].view);
  }

  /** Two exchanges, the second in either direction: agreement on every id. */
  lemma TwoExchangesConverge(c: State, a: NodeId, b: NodeId, id: NodeId)
    requires Reachable(c) && a in c.nodes && b in c.nodes && a != b
    ensures AgreeOn(Exchange(Exchange(c, a, b), a, b), a, b, id)
    ensures AgreeOn(Exchange(Exchange(c, a, b), b, a), a, b, id)
  {
    ReachableInv(c);
    var once := Exchange(c, a, b);
    NothingLeftToRefute(c, a, b);
    OneExchangeFromInv(once, a, b, id);
    OneExchangeFromInv(once, b, a, id);
  }

  /** Agreement is stable: exchanging again changes neither view. */
  lemma AgreementIsStable(c: State, a: NodeId, b: NodeId)
    requires Reachable(c) && a in c.nodes && b in c.nodes && a != b
    requires forall id :: AgreeOn(c, a, b, id)
    ensures Exchange(c, a, b).nodes == c.nodes
  {
    ReachableInv(c);
    BoundedFromInv(c, a, a);
    BoundedFromInv(c, b, b);
    StableFromBounds(c, a, b);
  }

  lemma StableFromBounds(c: State, a: NodeId, b: NodeId)
    requires a in c.nodes && b in c.nodes && a != b
    requires Bounded(a, c.nodes[a].view, c.nodes[a].view) && Bounded(b, c.nodes[b].view, c.nodes[b].view)
    requires forall id :: AgreeOn(c, a, b, id)
    ensures Exchange(c, a, b).nodes == c.nodes
  {
    var va, vb := c.nodes[a].view, c.nodes[b].view;
    forall id ensures Same(va, vb, id) {
      assert AgreeOn(c, a, b, id);
    }
    EqualViewsAreStable(a, b, va, vb);
    ExchangeViews(c, a, b);
  }

  lemma EqualViewsAreStable(a: NodeId, b: NodeId, va: View, vb: View)
    requires Bounded(a, va, va) && Bounded(b, vb, vb)
    requires forall id :: Same(va, vb, id)
    ensures MergeView(b, vb, va) == vb && MergeView(a, va, vb) == va
  {
    assert forall id :: id in va || id in vb ==> Same(va, vb, id);
    assert va.Keys == vb.Keys && va == vb;
  }
}
