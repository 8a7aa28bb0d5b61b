/**
 Pulling keys when a node joins (rebalance/mod.rs): which keys the joining node accepts, what its
 store holds afterwards, and how the time to live travels.
 */
module Rebalance {
  import opened Common
  import opened HashRing
  import opened CacheStore

  /** The ring the joining node builds: itself first, then its routable peers. */
  function JoinerRing(h: Hashing, vnodes: nat, self: NodeInfo, peers: seq<NodeInfo>): Ring {
    AddNodes(h, vnodes, AddNode(h, vnodes, Ring([], []), self), peers)
  }

  ghost predicate NotAmong(id: NodeId, peers: seq<NodeInfo>) {
    forall i :: 0 <= i < |peers| ==> peers[i].id != id
  }

  lemma {:induction false} AddNodesWellFormed(h: Hashing, vnodes: nat, r: Ring, peers: seq<NodeInfo>)
    requires WellFormed(r)
    ensures WellFormed(AddNodes(h, vnodes, r, peers))
  {
    if peers == [] {
    } else {
      var init := peers[..|peers| - 1];
      AddNodesWellFormed(h, vnodes, r, init);
      AddKeepsWellFormed(h, vnodes, AddNodes(h, vnodes, r, init), peers[|peers| - 1]);
    }
  }

  /** Who holds a position: the peers as without the joining node, and the joining node only where no peer is. */
  lemma {:induction false} JoinerHolder(h: Hashing, vnodes: nat, self: NodeInfo, peers: seq<NodeInfo>, q: Position)
    ensures Sorted(JoinerRing(h, vnodes, self, peers).slots) && Sorted(RingOf(h, vnodes, peers).slots)
    ensures Holder(JoinerRing(h, vnodes, self, peers).slots, q) ==
            match Holder(RingOf(h, vnodes, peers).slots, q)
            case Some(id) => Some(id)
            case None => if q in Positions(h, self.id, vnodes) then Some(self.id) else None
  {
    if peers == [] {
      AddVnodesHolder(h, [], self.id, vnodes);
    } else {
      var init, last := peers[..|peers| - 1], peers[|peers| - 1];
      JoinerHolder(h, vnodes, self, init, q);
      AddVnodesHolder(h, JoinerRing(h, vnodes, self, init).slots, last.id, vnodes);
      AddVnodesHolder(h, RingOf(h, vnodes, init).slots, last.id, vnodes);
    }
  }

  lemma {:induction false} RingLacks(h: Hashing, vnodes: nat, self: NodeId, peers: seq<NodeInfo>)
    requires NotAmong(self, peers)
    ensures Absent(RingOf(h, vnodes, peers).slots, self)
  {
    if peers == [] {
    } else {
      var init, last := peers[..|peers| - 1], peers[|peers| - 1];
      RingLacks(h, vnodes, self, init);
      JoinerHolder(h, vnodes, NodeInfo(self, ""), init, 0);
      AddVnodesSlots(h, RingOf(h, vnodes, init).slots, last.id, vnodes);
    }
  }

  /** The position that decides who owns `k`: the first at or after it, else the first of all. */
  function Deciding(s: seq<Slot>, k: Position): Option<Position> {
    if s == [] then None else if From(s, k) != [] then Some(From(s, k)[0].pos) else Some(s[0].pos)
  }

  lemma OwnerHolds(s: seq<Slot>, k: Position)
    requires Sorted(s) && s != []
    ensures Deciding(s, k).Some? && Owner(s, k) == Holder(s, Deciding(s, k).value)
  {
    FromFacts(s, k);
    var f := From(s, k);
    if f != [] {
      assert f[0] in f;
      HolderFound(s, f[0]);
    }
  }

  /** The deciding position is the least held one at or after `k`, or the least held one. */
  lemma DecidingIsLeast(s: seq<Slot>, k: Position, q: Position)
    requires Sorted(s) && Holder(s, q).Some?
    ensures Deciding(s, k).Some?
    ensures var d := Deciding(s, k).value;
            && Holder(s, d).Some?
            && (q >= k ==> k <= d <= q)
            && (d < k ==> q < k && d <= q)
  {
    HolderIsSlot(s, q);
    FromFacts(s, k);
    OwnerHolds(s, k);
    var x := Slot(q, Holder(s, q).value);
    var f := From(s, k);
    if q >= k {
      assert x in f;
      SortedHead(f, x);
    } else if f != [] {
      assert f[0] in f;
    } else {
      SortedHead(s, x);
    }
    assert f != [] ==> f[0] in f && f[0] in s;
    HolderFound(s, if f != [] then f[0] else s[0]);
  }

  lemma SortedHead(s: seq<Slot>, x: Slot)
    requires Sorted(s) && x in s
    ensures s[0].pos <= x.pos
  {}

  lemma SameDeciding(s: seq<Slot>, t: seq<Slot>, k: Position)
    requires Sorted(s) && Sorted(t)
    requires forall q: Position :: Holder(s, q).Some? <==> Holder(t, q).Some?
    ensures Deciding(s, k) == Deciding(t, k)
  {
    if s != [] {
      HolderFound(s, s[0]);
      DecidingIsLeast(s, k, s[0].pos);
      DecidingIsLeast(t, k, s[0].pos);
      var a, b := Deciding(s, k).value, Deciding(t, k).value;
      DecidingIsLeast(s, k, b);
      DecidingIsLeast(t, k, a);
    } else if t != [] {
      HolderFound(t, t[0]);
      HolderIsSlot(s, t[0].pos);
    }
  }

  /** The ring decides a key's owner, so the keys accepted are those the joining node owns. */
  predicate Accepts(h: Hashing, slots: seq<Slot>, self: NodeId, key: string) {
    Owner(slots, h.key(key)) == Some(self)
  }

  /** A streamed key is accepted iff the joining node changes its owner: iff it moves. Collisions do not matter. */
  lemma AcceptedIffMoved(h: Hashing, vnodes: nat, self: NodeInfo, peers: seq<NodeInfo>, key: string)
    requires NotAmong(self.id, peers)
    ensures Accepts(h, JoinerRing(h, vnodes, self, peers).slots, self.id, key)
            <==> Owner(JoinerRing(h, vnodes, self, peers).slots, h.key(key))
                 != Owner(RingOf(h, vnodes, peers).slots, h.key(key))
  {
    var j, p := JoinerRing(h, vnodes, self, peers).slots, RingOf(h, vnodes, peers).slots;
    JoinerHolder(h, vnodes, self, peers, 0);
    RingLacks(h, vnodes, self.id, peers);
    JoinerWithoutSelf(h, vnodes, self, peers);
    RemovalOnlyDeletes(j, h.key(key), {self.id});
    ClockwiseFacts(j, h.key(key));
    ClockwiseFacts(p, h.key(key));
  }

  lemma JoinerWithoutSelf(h: Hashing, vnodes: nat, self: NodeInfo, peers: seq<NodeInfo>)
    requires NotAmong(self.id, peers)
    ensures DropSlots(JoinerRing(h, vnodes, self, peers).slots, {self.id}) == RingOf(h, vnodes, peers).slots
  {
    var j, p := JoinerRing(h, vnodes, self, peers).slots, RingOf(h, vnodes, peers).slots;
    JoinerHolder(h, vnodes, self, peers, 0);
    RingLacks(h, vnodes, self.id, peers);
    DropSorted(j, {self.id});
    forall q: Position ensures Holder(DropSlots(j, {self.id}), q) == Holder(p, q) {
      DropHolder(j, {self.id}, q);
      JoinerHolder(h, vnodes, self, peers, q);
      if Holder(p, q).Some? { HolderIsSlot(p, q); }
    }
    SameHolders(DropSlots(j, {self.id}), p);
  }

  /** A position is held by one of the added nodes that have a virtual node there, if there is one. */
  lemma {:induction false} HeldByAdded(h: Hashing, vnodes: nat, nodes: seq<NodeInfo>, q: Position)
    ensures Sorted(RingOf(h, vnodes, nodes).slots)
    ensures match Holder(RingOf(h, vnodes, nodes).slots, q)
            case Some(id) => id in InfoIds(nodes) && q in Positions(h, id, vnodes)
            case None => forall id :: id in InfoIds(nodes) ==> q !in Positions(h, id, vnodes)
  {
    if nodes == [] {
    } else {
      var init, last := nodes[..|nodes| - 1], nodes[|nodes| - 1];
      HeldByAdded(h, vnodes, init, q);
      AddVnodesHolder(h, RingOf(h, vnodes, init).slots, last.id, vnodes);
      InfoIdsInit(nodes);
    }
  }

  /** The router added the same peers and the joining node, in whatever order. */
  predicate SameNodes(routed: seq<NodeInfo>, self: NodeId, peers: seq<NodeInfo>) {
    InfoIds(routed) == InfoIds(peers) + {self}
  }

  /** A peer has a virtual node at the position that decides `k`. */
  predicate Contested(h: Hashing, vnodes: nat, peers: seq<NodeInfo>, routed: seq<NodeInfo>, k: Position) {
    var d := Deciding(RingOf(h, vnodes, routed).slots, k);
    d.Some? && exists id :: id in InfoIds(peers) && d.value in Positions(h, id, vnodes)
  }

  /**
   On a contested position the joining node always sides with its peer, while in the router's ring
   the node added last wins. Whatever the order in which the router added the nodes, the joining
   node pulls exactly the keys that the router assigns to it by a position no peer contests.
   */
  lemma PulledIffRoutedAndUncontested(h: Hashing, vnodes: nat, self: NodeInfo, peers: seq<NodeInfo>,
                                      routed: seq<NodeInfo>, key: string)
    requires NotAmong(self.id, peers) && SameNodes(routed, self.id, peers)
    ensures Accepts(h, JoinerRing(h, vnodes, self, peers).slots, self.id, key)
            <==> && Owner(RingOf(h, vnodes, routed).slots, h.key(key)) == Some(self.id)
                 && !Contested(h, vnodes, peers, routed, h.key(key))
  {
    var j, r := JoinerRing(h, vnodes, self, peers).slots, RingOf(h, vnodes, routed).slots;
    HeldByAdded(h, vnodes, routed, 0);
    JoinerHolder(h, vnodes, self, peers, 0);
    forall q: Position ensures Holder(j, q).Some? <==> Holder(r, q).Some? {
      HeldInBoth(h, vnodes, self, peers, routed, q);
    }
    SameDeciding(j, r, h.key(key));
    if r != [] {
      HolderFound(r, r[0]);
      NonEmptyIfHeld(j, r[0].pos);
      OwnerHolds(j, h.key(key));
      OwnerHolds(r, h.key(key));
      HeldInBoth(h, vnodes, self, peers, routed, Deciding(r, h.key(key)).value);
    }
  }

  /**
   The two rings occupy the same positions, and the joining node holds one in its own ring iff only
   it has a virtual node there.
   */
  lemma HeldInBoth(h: Hashing, vnodes: nat, self: NodeInfo, peers: seq<NodeInfo>, routed: seq<NodeInfo>, q: Position)
    requires NotAmong(self.id, peers) && SameNodes(routed, self.id, peers)
    ensures var j, r := JoinerRing(h, vnodes, self, peers).slots, RingOf(h, vnodes, routed).slots;
            && (Holder(j, q).Some? <==> Holder(r, q).Some?)
            && (Holder(j, q) == Some(self.id) <==>
                Holder(r, q) == Some(self.id) && forall id :: id in InfoIds(peers) ==> q !in Positions(h, id, vnodes))
  {
    JoinerHolder(h, vnodes, self, peers, q);
    HeldByAdded(h, vnodes, peers, q);
    HeldByAdded(h, vnodes, routed, q);
    assert self.id !in InfoIds(peers);
  }

  /** With a collision a key can move to the node in the router's ring and still not be pulled by it. */
  lemma CollisionLosesAKey(self: NodeInfo, peer: NodeInfo, key: string)
    requires self.id != peer.id
    ensures var h := Hashing(_ => 0, (_, _) => 5);
            && Owner(RingOf(h, 1, [peer, self]).slots, h.key(key)) == Some(self.id)
            && !Accepts(h, JoinerRing(h, 1, self, [peer]).slots, self.id, key)
  {
    var h := Hashing(_ => 0, (_, _) => 5);
    var mine, theirs := [Slot(5, self.id)], [Slot(5, peer.id)];
    OneVnode(h, [], self.id);
    OneVnode(h, [], peer.id);
    OneVnode(h, mine, peer.id);
    OneVnode(h, theirs, self.id);
    assert mine[1..] == [] && theirs[1..] == [];
    OnePeer(h, Ring([], []), peer);
    OnePeer(h, AddNode(h, 1, Ring([], []), self), peer);
    assert JoinerRing(h, 1, self, [peer]).slots == theirs;
    assert [peer, self][..1] == [peer];
    assert RingOf(h, 1, [peer, self]).slots == mine;
  }

  lemma OneVnode(h: Hashing, s: seq<Slot>, id: NodeId)
    ensures AddVnodes(h, s, id, 1) == Insert(s, h.vnode(id, 0), id)
  {
    assert AddVnodes(h, s, id, 0) == s;
  }

  lemma OnePeer(h: Hashing, r: Ring, peer: NodeInfo)
    ensures AddNodes(h, 1, r, [peer]) == AddNode(h, 1, r, peer)
  {
    assert [peer][..0] == [];
    assert AddNodes(h, 1, r, []) == r;
  }

  lemma NonEmptyIfHeld(s: seq<Slot>, q: Position)
    requires Holder(s, q).Some?
    ensures s != []
  {}

  // ----- The transfer --------------------------------------------------------

  /** A chunk and the instant at which it is inserted. */
  datatype Arrival = Arrival(chunk: Chunk, at: nat)

  function Pull(h: Hashing, slots: seq<Slot>, self: NodeId, data: Data, arrivals: seq<Arrival>): Data {
    if arrivals == [] then data
    else
      var last := arrivals[|arrivals| - 1];
      var before := Pull(h, slots, self, data, arrivals[..|arrivals| - 1]);
      if Accepts(h, slots, self, last.chunk.key) then StoreChunk(before, last.chunk, last.at) else before
  }

  predicate Lands(h: Hashing, slots: seq<Slot>, self: NodeId, a: Arrival, key: string) {
    a.chunk.key == key && Accepts(h, slots, self, key) && a.chunk.remainingMs != Some(0)
  }

  function Landed(a: Arrival): CacheEntry {
    var left := a.chunk.remainingMs;
    CacheEntry(a.chunk.value, if left.None? then None else Some(a.at + left.value * MILLISECOND))
  }

  /** The last arrival that lands on `key`. */
  function LastLanding(h: Hashing, slots: seq<Slot>, self: NodeId, arrivals: seq<Arrival>, key: string): Option<nat> {
    if arrivals == [] then None
    else if Lands(h, slots, self, arrivals[|arrivals| - 1], key) then Some(|arrivals| - 1)
    else LastLanding(h, slots, self, arrivals[..|arrivals| - 1], key)
  }

  lemma {:induction false} LastLandingFacts(h: Hashing, slots: seq<Slot>, self: NodeId, arrivals: seq<Arrival>,
                                            key: string)
    ensures match LastLanding(h, slots, self, arrivals, key)
            case Some(i) => && i < |arrivals| && Lands(h, slots, self, arrivals[i], key)
                            && forall j :: i < j < |arrivals| ==> !Lands(h, slots, self, arrivals[j], key)
            case None => forall j :: 0 <= j < |arrivals| ==> !Lands(h, slots, self, arrivals[j], key)
  {
    if arrivals == [] {
    } else {
      var init := arrivals[..|arrivals| - 1];
      LastLandingFacts(h, slots, self, init, key);
      assert forall j :: 0 <= j < |init| ==> init[j] == arrivals[j];
    }
  }

  /** The store after a transfer: a key holds its last landing, and keys without a landing are untouched. */
  lemma {:induction false} PullStoresLastLanding(h: Hashing, slots: seq<Slot>, self: NodeId, data: Data,
                                                 arrivals: seq<Arrival>, key: string)
    ensures match LastLanding(h, slots, self, arrivals, key)
            case Some(i) => && i < |arrivals| && key in Pull(h, slots, self, data, arrivals)
                            && Pull(h, slots, self, data, arrivals)[key] == Landed(arrivals[i])
            case None => && (key in Pull(h, slots, self, data, arrivals) <==> key in data)
                         && (key in data ==> Pull(h, slots, self, data, arrivals)[key] == data[key])
  {
    if arrivals == [] {
    } else {
      PullStoresLastLanding(h, slots, self, data, arrivals[..|arrivals| - 1], key);
    }
  }

  /** The remaining time survives a transfer, rounded down by less than a millisecond and never up. */
  lemma TransferKeepsTtl(key: string, e: CacheEntry, sent: nat, at: nat)
    requires IsLive(e, sent)
    ensures var c := ChunkOf(key, e, sent);
            var landed := Landed(Arrival(c, at));
            && landed.value == e.value
            && (e.expiresAt.None? <==> landed.expiresAt.None?)
            && (e.expiresAt.Some? ==>
                  var left := e.expiresAt.value - sent;
                  && left - 1_000_000 < landed.expiresAt.value - at <= left
                  && (c.remainingMs == Some(0) <==> left < 1_000_000))
  {
    if e.expiresAt.Some? {
      var left := e.expiresAt.value - sent;
      assert left == (left / MILLISECOND) * MILLISECOND + left % MILLISECOND;
    }
  }

  /** A source of the transfer: a peer's store and the instant of its snapshot. */
  datatype Source = Source(data: Data, sent: nat)

  /** Every live entry of the source arrives. */
  ghost predicate Delivers(s: Source, arrivals: seq<Arrival>) {
    forall k :: k in Live(s.data, s.sent) ==>
      exists i :: 0 <= i < |arrivals| && arrivals[i].chunk == ChunkOf(k, s.data[k], s.sent)
  }

  /** Nothing arrives but live entries of the sources. */
  ghost predicate ComesFrom(arrivals: seq<Arrival>, sources: seq<Source>) {
    forall i :: 0 <= i < |arrivals| ==> FromSome(arrivals[i], sources)
  }

  ghost predicate FromSome(a: Arrival, sources: seq<Source>) {
    exists j :: 0 <= j < |sources| && FromSource(a, sources[j])
  }

  ghost predicate FromSource(a: Arrival, s: Source) {
    a.chunk.key in Live(s.data, s.sent) && a.chunk == ChunkOf(a.chunk.key, s.data[a.chunk.key], s.sent)
  }

  /** `landed` is `e` received at `at`: same value, and the time left reduced by less than 1 ms. */
  predicate Preserves(e: CacheEntry, sent: nat, landed: CacheEntry, at: nat) {
    && landed.value == e.value
    && (e.expiresAt.None? <==> landed.expiresAt.None?)
    && (e.expiresAt.Some? ==>
         (e.expiresAt.value - sent) - 1_000_000 < landed.expiresAt.value - at <= e.expiresAt.value - sent)
  }

  /** Some source holds `key` live, and `landed` is what the arrival that carried its entry left. */
  ghost predicate ReceivedFrom(sources: seq<Source>, arrivals: seq<Arrival>, key: string, landed: CacheEntry) {
    exists j, i :: 0 <= j < |sources| && 0 <= i < |arrivals| && key in Live(sources[j].data, sources[j].sent)
                   && arrivals[i].chunk == ChunkOf(key, sources[j].data[key], sources[j].sent)
                   && landed == Landed(arrivals[i])
                   && Preserves(sources[j].data[key], sources[j].sent, landed, arrivals[i].at)
  }

  /**
   Rebalance into an empty store pulls exactly the keys that move: a key is stored iff its owner
   changes and some source held it live with no expiry or at least 1 ms left; what is stored is
   such an entry, with its time to live kept up to a millisecond.
   */
  lemma RebalancePullsExactlyWhatMoves(h: Hashing, vnodes: nat, self: NodeInfo, peers: seq<NodeInfo>,
                                       sources: seq<Source>, arrivals: seq<Arrival>, key: string)
    requires NotAmong(self.id, peers)
    requires (forall j :: 0 <= j < |sources| ==> Delivers(sources[j], arrivals)) && ComesFrom(arrivals, sources)
    ensures var slots := JoinerRing(h, vnodes, self, peers).slots;
            var r := Pull(h, slots, self.id, map[], arrivals);
            && (key in r <==> && Owner(slots, h.key(key)) != Owner(RingOf(h, vnodes, peers).slots, h.key(key))
                              && exists j :: 0 <= j < |sources| && HeldLongEnough(sources[j], key))
            && (key in r ==> ReceivedFrom(sources, arrivals, key, r[key]))
  {
    var slots := JoinerRing(h, vnodes, self, peers).slots;
    AcceptedIffMoved(h, vnodes, self, peers, key);
    if exists j :: 0 <= j < |sources| && HeldLongEnough(sources[j], key) {
      if Accepts(h, slots, self.id, key) {
        var j :| 0 <= j < |sources| && HeldLongEnough(sources[j], key);
        HeldKeyIsStored(h, slots, self.id, sources[j], arrivals, key);
      }
    }
    if key in Pull(h, slots, self.id, map[], arrivals) {
      StoredKeyWasHeld(h, slots, self.id, sources, arrivals, key);
    }
  }

  lemma HeldKeyIsStored(h: Hashing, slots: seq<Slot>, self: NodeId, s: Source, arrivals: seq<Arrival>, key: string)
    requires HeldLongEnough(s, key) && Delivers(s, arrivals) && Accepts(h, slots, self, key)
    ensures key in Pull(h, slots, self, map[], arrivals)
  {
    var i :| 0 <= i < |arrivals| && arrivals[i].chunk == ChunkOf(key, s.data[key], s.sent);
    TransferKeepsTtl(key, s.data[key], s.sent, 0);
    assert Lands(h, slots, self, arrivals[i], key);
    LastLandingFacts(h, slots, self, arrivals, key);
    PullStoresLastLanding(h, slots, self, map[], arrivals, key);
  }

  lemma StoredKeyWasHeld(h: Hashing, slots: seq<Slot>, self: NodeId, sources: seq<Source>, arrivals: seq<Arrival>,
                         key: string)
    requires ComesFrom(arrivals, sources) && key in Pull(h, slots, self, map[], arrivals)
    ensures Accepts(h, slots, self, key)
    ensures exists j :: 0 <= j < |sources| && HeldLongEnough(sources[j], key)
    ensures ReceivedFrom(sources, arrivals, key, Pull(h, slots, self, map[], arrivals)[key])
  {
    PullStoresLastLanding(h, slots, self, map[], arrivals, key);
    LastLandingFacts(h, slots, self, arrivals, key);
    var i := LastLanding(h, slots, self, arrivals, key).value;
    assert FromSome(arrivals[i], sources);
    var j :| 0 <= j < |sources| && FromSource(arrivals[i], sources[j]);
    TransferKeepsTtl(key, sources[j].data[key], sources[j].sent, arrivals[i].at);
    assert HeldLongEnough(sources[j], key);
  }

  ghost predicate HeldLongEnough(s: Source, key: string) {
    && key in Live(s.data, s.sent)
    && (s.data[key].expiresAt.Some? ==> s.data[key].expiresAt.value - s.sent >= 1_000_000)
  }
}
