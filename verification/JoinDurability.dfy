/**
 What a read returns after a node has joined: the joining node keeps, for every key it takes over,
 the copy of the last peer that streamed one, and nothing for the keys it merely replicates.
 */
module JoinDurability {
  import opened Common
  import opened HashRing
  import opened CacheStore
  import opened Rebalance
  import opened NodeService
  import opened Coordinator

  /** The value at the last peer that held the key for long enough to be transferred. */
  ghost function LastHeld(peers: seq<NodeInfo>, holdings: Holdings, key: string): Option<Bytes> {
    if peers == [] then None
    else
      var last := holdings(peers[|peers| - 1].id);
      if HeldLongEnough(last, key) then Some(last.data[key].value)
      else LastHeld(peers[..|peers| - 1], holdings, key)
  }

  /** One complete stream overwrites the key iff its source held it for long enough. */
  lemma StreamDecides(h: Hashing, slots: seq<Slot>, self: NodeId, data: Data, stream: seq<Arrival>, s: Source,
                      key: string)
    requires BringsAll(stream, s) && Accepts(h, slots, self, key)
    ensures ValueOf(Pull(h, slots, self, data, stream), key) ==
            if HeldLongEnough(s, key) then Some(s.data[key].value) else ValueOf(data, key)
  {
    StreamDelivers(stream, s);
    PullStoresLastLanding(h, slots, self, data, stream, key);
    LastLandingFacts(h, slots, self, stream, key);
    if HeldLongEnough(s, key) {
      var i :| 0 <= i < |stream| && stream[i].chunk == ChunkOf(key, s.data[key], s.sent);
      TransferKeepsTtl(key, s.data[key], s.sent, stream[i].at);
      assert Lands(h, slots, self, stream[i], key);
    } else if LastLanding(h, slots, self, stream, key).Some? {
      var i := LastLanding(h, slots, self, stream, key).value;
      assert FromSource(stream[i], s);
      TransferKeepsTtl(key, s.data[key], s.sent, stream[i].at);
    }
  }

  /** After complete streams the joining node holds an accepted key with the last peer's value, and no other key. */
  lemma {:induction false} JoinedValue(h: Hashing, slots: seq<Slot>, self: NodeId, peers: seq<NodeInfo>,
                                       streams: Streams, holdings: Holdings, key: string)
    requires NotAmong(self, peers)
    requires forall i :: 0 <= i < |peers| ==> BringsAll(streams(peers[i].id), holdings(peers[i].id))
    ensures ValueOf(Pull(h, slots, self, map[], AllArrivals(self, peers, streams)), key) ==
            if Accepts(h, slots, self, key) then LastHeld(peers, holdings, key) else None
  {
    if peers == [] {
    } else {
      var init, last := peers[..|peers| - 1], peers[|peers| - 1];
      JoinedValue(h, slots, self, init, streams, holdings, key);
      var before := AllArrivals(self, init, streams);
      PullConcat(h, slots, self, map[], before, streams(last.id));
      var data := Pull(h, slots, self, map[], before);
      if Accepts(h, slots, self, key) {
        StreamDecides(h, slots, self, data, streams(last.id), holdings(last.id), key);
      } else {
        LastLandingFacts(h, slots, self, streams(last.id), key);
        PullStoresLastLanding(h, slots, self, data, streams(last.id), key);
      }
    }
  }

  // ----- The list after the join ---------------------------------------------

  function Chosen(all: seq<NodeId>, dead: set<NodeId>, factor: nat): seq<NodeId> {
    Take(Without(Take(all, factor + 2), dead), factor)
  }

  /** Apart from `self`, `inserted` names only nodes of `plain`, in the same order. */
  ghost predicate Within(inserted: seq<NodeId>, self: NodeId, plain: seq<NodeId>) {
    && (forall x :: x in inserted && x != self ==> x in plain)
    && (forall x, w :: Precedes(inserted, x, w) && x != self && w != self ==> Precedes(plain, x, w))
  }

  /** Putting one node into the clockwise list brings no other node into the list of replicas and keeps its order. */
  lemma NoOtherNewcomer(a: seq<NodeId>, self: NodeId, b: seq<NodeId>, dead: set<NodeId>, factor: nat)
    requires factor >= 1 && self !in dead
    ensures Within(Chosen(a + [self] + b, dead, factor), self, Chosen(a + b, dead, factor))
  {
    if |a| >= factor + 2 {
      assert Take(a + [self] + b, factor + 2) == Take(a, factor + 2) == Take(a + b, factor + 2);
    } else {
      var m := Min(factor + 1 - |a|, |b|);
      var n := Min(factor + 2 - |a|, |b|);
      assert Take(a + [self] + b, factor + 2) == a + [self] + b[..m];
      assert Take(a + b, factor + 2) == a + b[..n];
      WithoutConcat(a + [self], b[..m], dead);
      WithoutConcat(a, [self], dead);
      assert Without([self], dead) == [self];
      WithoutConcat(a, b[..n], dead);
      assert b[..n][..m] == b[..m];
      WithoutSplit(b[..n], m, dead);
      InsertedAndTaken(Without(a, dead), self, Without(b[..m], dead), Without(b[..n][m..], dead), factor);
    }
  }

  lemma InsertedAndTaken(a: seq<NodeId>, self: NodeId, b: seq<NodeId>, c: seq<NodeId>, n: nat)
    ensures Within(Take(a + [self] + b, n), self, Take(a + (b + c), n))
  {
    var inserted, plain := Take(a + [self] + b, n), Take(a + (b + c), n);
    assert forall i :: 0 <= i < |inserted| && i < |a| ==> i < |plain| && inserted[i] == plain[i];
    assert forall i :: |a| < i < |inserted| ==> i - 1 < |plain| && inserted[i] == plain[i - 1];
    forall x | x in inserted && x != self ensures x in plain {
      var i :| 0 <= i < |inserted| && inserted[i] == x;
      assert i != |a|;
    }
    forall x, w | Precedes(inserted, x, w) && x != self && w != self ensures Precedes(plain, x, w) {
      var i, j :| 0 <= i < j < |inserted| && inserted[i] == x && inserted[j] == w;
      assert i != |a| && j != |a|;
      var i', j' := if i < |a| then i else i - 1, if j < |a| then j else j - 1;
      assert plain[i'] == x && plain[j'] == w;
    }
  }

  lemma ListIsChosen(s: seq<Slot>, k: Position, dead: set<NodeId>, factor: nat)
    requires factor >= 1
    ensures AliveList(s, k, dead, factor) == Chosen(Clockwise(s, k), dead, factor)
  {}

  lemma OwnerIsListedFirst(s: seq<Slot>, k: Position, dead: set<NodeId>, factor: nat, owner: NodeId)
    requires factor >= 1 && Owner(s, k) == Some(owner) && owner !in dead
    ensures AliveList(s, k, dead, factor) != [] && AliveList(s, k, dead, factor)[0] == owner
  {
    ListIsChosen(s, k, dead, factor);
    ClockwiseFacts(s, k);
    assert Take(Clockwise(s, k), factor + 2)[0] == owner;
  }

  lemma NotAdded(id: NodeId, nodes: seq<NodeInfo>)
    ensures NotAmong(id, nodes) <==> id !in InfoIds(nodes)
  {}

  /** If every node but `self` holds the item and answers, any of them serves it. */
  lemma {:induction false} ReadAround(data: Fleet, list: seq<NodeId>, self: NodeId, key: string, item: Item,
                                      gets: ReadCalls, retries: nat)
    requires forall x :: x in list && x != self ==> Answers(gets, x, retries) && LookUp(data, x, key) == Some(item)
    requires LookUp(data, self, key) == None
    ensures ReadFrom(data, list, key, gets, retries) == if exists x :: x in list && x != self then Some(item) else None
  {
    if list == [] {
    } else if list[0] == self {
      ReadAround(data, list[1..], self, key, item, gets, retries);
      assert forall x :: x != self ==> (x in list <==> x in list[1..]);
    } else {
      assert list[0] in list;
    }
  }

  // ----- The theorem ---------------------------------------------------------

  /** The router's slots before and after it adds the joining node. */
  function SlotsBefore(h: Hashing, vnodes: nat, known: seq<NodeInfo>): seq<Slot> { RingOf(h, vnodes, known).slots }

  function SlotsAfter(h: Hashing, vnodes: nat, known: seq<NodeInfo>, self: NodeId): seq<Slot> {
    AddVnodes(h, SlotsBefore(h, vnodes, known), self, vnodes)
  }

  /** Without a collision the joining node accepts exactly the keys that the router will assign to it. */
  lemma AcceptsIffRouted(h: Hashing, vnodes: nat, self: NodeInfo, peers: seq<NodeInfo>, known: seq<NodeInfo>,
                         key: string)
    requires NotAmong(self.id, peers) && InfoIds(known) == InfoIds(peers)
    requires NoCollision(h, SlotsBefore(h, vnodes, known), self.id, vnodes)
    ensures Accepts(h, JoinerRing(h, vnodes, self, peers).slots, self.id, key)
            <==> Owner(SlotsAfter(h, vnodes, known, self.id), h.key(key)) == Some(self.id)
  {
    var routed, k := known + [self], h.key(key);
    var r := SlotsAfter(h, vnodes, known, self.id);
    assert routed[..|routed| - 1] == known;
    InfoIdsInit(routed);
    assert RingOf(h, vnodes, routed).slots == r;
    PulledIffRoutedAndUncontested(h, vnodes, self, peers, routed, key);
    if Owner(r, k) == Some(self.id) {
      HeldByAdded(h, vnodes, routed, 0);
      OwnerHolds(r, k);
      var d := Deciding(r, k).value;
      HeldByAdded(h, vnodes, routed, d);
      assert d in Positions(h, self.id, vnodes);
      HeldByAdded(h, vnodes, known, d);
    }
  }

  function ItemValue(found: Option<Item>): Option<Bytes> {
    match found
    case Some(item) => Some(item.value)
    case None => None
  }

  /** A node joins a router's ring of the same peers, no position of it is taken, and it is usable. */
  ghost predicate Joins(h: Hashing, vnodes: nat, self: NodeInfo, peers: seq<NodeInfo>, known: seq<NodeInfo>,
                        dead: set<NodeId>, factor: nat) {
    && vnodes > 0 && factor >= 1 && self.id !in dead
    && NotAmong(self.id, peers) && InfoIds(known) == InfoIds(peers)
    && NoCollision(h, SlotsBefore(h, vnodes, known), self.id, vnodes)
  }

  ghost function ListBefore(h: Hashing, vnodes: nat, known: seq<NodeInfo>, key: string, dead: set<NodeId>,
                            factor: nat): seq<NodeId> {
    AliveList(SlotsBefore(h, vnodes, known), h.key(key), dead, factor)
  }

  ghost function ListAfter(h: Hashing, vnodes: nat, known: seq<NodeInfo>, self: NodeId, key: string,
                           dead: set<NodeId>, factor: nat): seq<NodeId> {
    AliveList(SlotsAfter(h, vnodes, known, self), h.key(key), dead, factor)
  }

  /** The store of the new node: whatever arrived, without the keys deleted meanwhile. */
  ghost function Joined(h: Hashing, vnodes: nat, self: NodeInfo, peers: seq<NodeInfo>, arrivals: seq<Arrival>,
                        tombstones: set<string>): Data {
    Pull(h, JoinerRing(h, vnodes, self, peers).slots, self.id, map[], arrivals) - tombstones
  }

  /** The item was acknowledged by all of `list` and is still there; the new node holds what `joined` says. */
  ghost predicate WrittenThenJoined(list: seq<NodeId>, retries: nat, data: Fleet, data': Fleet, key: string, item: Item,
                                    writes: WriteCalls, self: NodeId, joined: Data) {
    && (forall n :: n in list ==>
          && Acks(writes, n, 0, retries)
          && LookUp(data', n, key) == LookUp(WriteAll(data, list, key, item, writes, retries), n, key))
    && ItemValue(LookUp(data', self, key)) == ValueOf(joined, key)
  }

  /** The new node brought the acknowledged value, or it brought none and the list has another node. */
  predicate StillServed(brought: Option<Bytes>, now: seq<NodeId>, self: NodeId, value: Bytes) {
    match brought
    case Some(v) => v == value
    case None => exists n :: n in now && n != self
  }

  /**
   An item was acknowledged by every node of its list; then a node joins, receiving whatever
   arrives, and the router adds it. What a read returns when the listed nodes answer: the value the
   new node holds if it holds one, else the acknowledged one if the new list has any other node,
   else nothing. So the write survives exactly when it is `StillServed`.
   */
  lemma ReadAfterJoin(h: Hashing, vnodes: nat, self: NodeInfo, peers: seq<NodeInfo>, known: seq<NodeInfo>,
                      arrivals: seq<Arrival>, tombstones: set<string>, dead: set<NodeId>, factor: nat, retries: nat,
                      data: Fleet, data': Fleet, key: string, item: Item, writes: WriteCalls, gets: ReadCalls)
    requires Joins(h, vnodes, self, peers, known, dead, factor)
    requires WrittenThenJoined(ListBefore(h, vnodes, known, key, dead, factor), retries, data, data', key, item, writes,
                               self.id, Joined(h, vnodes, self, peers, arrivals, tombstones))
    requires forall n :: n in ListAfter(h, vnodes, known, self.id, key, dead, factor) ==> Answers(gets, n, retries)
    ensures var now := ListAfter(h, vnodes, known, self.id, key, dead, factor);
            var brought := ValueOf(Joined(h, vnodes, self, peers, arrivals, tombstones), key);
            var got := ItemValue(ReadFrom(data', now, key, gets, retries));
            && got == (match brought
                       case Some(v) => Some(v)
                       case None => if exists n :: n in now && n != self.id then Some(item.value) else None)
            && (got == Some(item.value) <==> StillServed(brought, now, self.id, item.value))
  {
    var list, now :=
      ListBefore(h, vnodes, known, key, dead, factor), ListAfter(h, vnodes, known, self.id, key, dead, factor);
    if ValueOf(Joined(h, vnodes, self, peers, arrivals, tombstones), key).Some? {
      HeldMeansAccepted(h, JoinerRing(h, vnodes, self, peers).slots, self.id, arrivals, key);
      AcceptsIffRouted(h, vnodes, self, peers, known, key);
      OwnerIsListedFirst(SlotsAfter(h, vnodes, known, self.id), h.key(key), dead, factor, self.id);
      assert now[0] in now;
    } else {
      OthersHaveIt(h, vnodes, self, peers, known, dead, factor, retries, data, data', key, item, writes);
      ReadAround(data', now, self.id, key, item, gets, retries);
    }
  }

  lemma HeldMeansAccepted(h: Hashing, slots: seq<Slot>, self: NodeId, arrivals: seq<Arrival>, key: string)
    requires key in Pull(h, slots, self, map[], arrivals)
    ensures Accepts(h, slots, self, key)
  {
    PullStoresLastLanding(h, slots, self, map[], arrivals, key);
    LastLandingFacts(h, slots, self, arrivals, key);
  }

  lemma OthersHaveIt(h: Hashing, vnodes: nat, self: NodeInfo, peers: seq<NodeInfo>, known: seq<NodeInfo>,
                     dead: set<NodeId>, factor: nat, retries: nat, data: Fleet, data': Fleet, key: string, item: Item,
                     writes: WriteCalls)
    requires Joins(h, vnodes, self, peers, known, dead, factor)
    requires var list := ListBefore(h, vnodes, known, key, dead, factor);
             forall n :: n in list ==>
               && Acks(writes, n, 0, retries)
               && LookUp(data', n, key) == LookUp(WriteAll(data, list, key, item, writes, retries), n, key)
    ensures forall n :: n in ListAfter(h, vnodes, known, self.id, key, dead, factor) && n != self.id ==>
              LookUp(data', n, key) == Some(item)
  {
    var list, now :=
      ListBefore(h, vnodes, known, key, dead, factor), ListAfter(h, vnodes, known, self.id, key, dead, factor);
    NotAdded(self.id, peers);
    NotAdded(self.id, known);
    ListAfterJoin(h, vnodes, self.id, known, {}, dead, factor, h.key(key));
    SameWithoutRemoval(SlotsBefore(h, vnodes, known));
    SameWithoutRemoval(SlotsAfter(h, vnodes, known, self.id));
    forall n | n in now && n != self.id ensures LookUp(data', n, key) == Some(item) {
      AckedIsApplied(writes, n, 0, retries);
      WriteAllFacts(data, list, key, item, writes, retries, n, key);
    }
  }

  lemma SameWithoutRemoval(s: seq<Slot>)
    ensures DropSlots(s, {}) == s
  {
    DropNothing(s, {});
  }

  /** Whatever other nodes are removed or fail: besides the new node, the list is part of what it would have been. */
  lemma ListAfterJoin(h: Hashing, vnodes: nat, self: NodeId, known: seq<NodeInfo>, removed: set<NodeId>,
                      dead: set<NodeId>, factor: nat, k: Position)
    requires vnodes > 0 && factor >= 1 && self !in dead && self !in removed && NotAmong(self, known)
    requires NoCollision(h, SlotsBefore(h, vnodes, known), self, vnodes)
    ensures Within(AliveList(DropSlots(SlotsAfter(h, vnodes, known, self), removed), k, dead, factor), self,
                   AliveList(DropSlots(SlotsBefore(h, vnodes, known), removed), k, dead, factor))
  {
    var s, s' := SlotsBefore(h, vnodes, known), SlotsAfter(h, vnodes, known, self);
    HeldByAdded(h, vnodes, known, 0);
    RingLacks(h, vnodes, self, known);
    AddVnodesHolder(h, s, self, vnodes);
    AddingOnlyInserts(h, s, self, vnodes, k);
    var all, all' := Clockwise(s, k), Clockwise(s', k);
    var i :| 0 <= i <= |all| && all' == all[..i] + [self] + all[i..];
    RemovalOnlyDeletes(s, k, removed);
    RemovalOnlyDeletes(s', k, removed);
    RemovedAround(all, i, self, removed);
    NoOtherNewcomer(Without(all[..i], removed), self, Without(all[i..], removed), dead, factor);
    ListIsChosen(DropSlots(s, removed), k, dead, factor);
    ListIsChosen(DropSlots(s', removed), k, dead, factor);
  }

  lemma RemovedAround(all: seq<NodeId>, i: nat, self: NodeId, removed: set<NodeId>)
    requires i <= |all| && self !in removed
    ensures Without(all, removed) == Without(all[..i], removed) + Without(all[i..], removed)
    ensures Without(all[..i] + [self] + all[i..], removed)
            == Without(all[..i], removed) + [self] + Without(all[i..], removed)
  {
    WithoutSplit(all, i, removed);
    WithoutConcat(all[..i] + [self], all[i..], removed);
    WithoutConcat(all[..i], [self], removed);
    assert Without([self], removed) == [self];
  }

  // ----- Complete streams ----------------------------------------------------

  /** What complete streams bring: the last peer's value of a key the node now owns, nothing else. */
  ghost function Brought(h: Hashing, vnodes: nat, self: NodeId, peers: seq<NodeInfo>, known: seq<NodeInfo>,
                         holdings: Holdings, key: string): Option<Bytes> {
    if Owner(SlotsAfter(h, vnodes, known, self), h.key(key)) == Some(self) then LastHeld(peers, holdings, key) else None
  }

  lemma CompleteStreamsBring(h: Hashing, vnodes: nat, self: NodeInfo, peers: seq<NodeInfo>, known: seq<NodeInfo>,
                             streams: Streams, holdings: Holdings, tombstones: set<string>, dead: set<NodeId>,
                             factor: nat, key: string)
    requires Joins(h, vnodes, self, peers, known, dead, factor) && key !in tombstones
    requires forall i :: 0 <= i < |peers| ==> BringsAll(streams(peers[i].id), holdings(peers[i].id))
    ensures ValueOf(Joined(h, vnodes, self, peers, AllArrivals(self.id, peers, streams), tombstones), key)
            == Brought(h, vnodes, self.id, peers, known, holdings, key)
  {
    AcceptsIffRouted(h, vnodes, self, peers, known, key);
    JoinedValue(h, JoinerRing(h, vnodes, self, peers).slots, self.id, peers, streams, holdings, key);
  }

  /** Every listed node streams the acknowledged value. */
  ghost predicate StreamedByAll(list: seq<NodeId>, holdings: Holdings, key: string, value: Bytes) {
    list != [] && forall n :: n in list ==> HeldLongEnough(holdings(n), key) && holdings(n).data[key].value == value
  }

  /**
   When all streams are complete and every node that acknowledged streams what it stored, the write
   survives the join if and only if: should the new node own the key, the last peer in streaming order
   that holds the key holds the acknowledged value; otherwise, the new list has a node besides it.
   */
  lemma AckedWriteSurvivesJoinIff(h: Hashing, vnodes: nat, self: NodeInfo, peers: seq<NodeInfo>, known: seq<NodeInfo>,
                                  streams: Streams, holdings: Holdings, tombstones: set<string>, dead: set<NodeId>,
                                  factor: nat, retries: nat, data: Fleet, data': Fleet, key: string, item: Item,
                                  writes: WriteCalls, gets: ReadCalls)
    requires Joins(h, vnodes, self, peers, known, dead, factor) && key !in tombstones
    requires forall i :: 0 <= i < |peers| ==> BringsAll(streams(peers[i].id), holdings(peers[i].id))
    requires StreamedByAll(ListBefore(h, vnodes, known, key, dead, factor), holdings, key, item.value)
    requires WrittenThenJoined(ListBefore(h, vnodes, known, key, dead, factor), retries, data, data', key, item, writes,
                               self.id, Joined(h, vnodes, self, peers, AllArrivals(self.id, peers, streams),
                                 tombstones))
    requires forall n :: n in ListAfter(h, vnodes, known, self.id, key, dead, factor) ==> Answers(gets, n, retries)
    ensures var now := ListAfter(h, vnodes, known, self.id, key, dead, factor);
            ItemValue(ReadFrom(data', now, key, gets, retries)) == Some(item.value) <==>
            if Owner(SlotsAfter(h, vnodes, known, self.id), h.key(key)) == Some(self.id)
            then LastHeld(peers, holdings, key) == Some(item.value)
            else exists n :: n in now && n != self.id
  {
    CompleteStreamsBring(h, vnodes, self, peers, known, streams, holdings, tombstones, dead, factor, key);
    ReadAfterJoin(h, vnodes, self, peers, known, AllArrivals(self.id, peers, streams), tombstones, dead, factor,
      retries,
                  data, data', key, item, writes, gets);
    var list := ListBefore(h, vnodes, known, key, dead, factor);
    ListedIsKnown(h, vnodes, known, h.key(key), dead, factor);
    assert list[0] in list && list[0] in InfoIds(peers);
    SomeoneHolds(peers, holdings, key, list[0]);
  }

  lemma ListedIsKnown(h: Hashing, vnodes: nat, known: seq<NodeInfo>, k: Position, dead: set<NodeId>, factor: nat)
    requires factor >= 1
    ensures forall n :: n in AliveList(SlotsBefore(h, vnodes, known), k, dead, factor) ==> n in InfoIds(known)
  {
    var s := SlotsBefore(h, vnodes, known);
    forall n | n in AliveList(s, k, dead, factor) ensures n in InfoIds(known) {
      HeldByAdded(h, vnodes, known, 0);
      SameWithoutRemoval(s);
      ListedIsUsable(s, k, factor, {}, dead);
      ClockwiseFacts(s, k);
      var i :| 0 <= i < |s| && s[i].id == n;
      HolderFound(s, s[i]);
      HeldByAdded(h, vnodes, known, s[i].pos);
    }
  }

  lemma {:induction false} SomeoneHolds(peers: seq<NodeInfo>, holdings: Holdings, key: string, n: NodeId)
    requires n in InfoIds(peers) && HeldLongEnough(holdings(n), key)
    ensures LastHeld(peers, holdings, key).Some?
  {
    InfoIdsInit(peers);
    if n != peers[|peers| - 1].id {
      SomeoneHolds(peers[..|peers| - 1], holdings, key, n);
    }
  }

  // ----- A join and failures -------------------------------------------------

  lemma {:induction false} ReadThroughValues(data: Fleet, before: seq<NodeId>, w: NodeId, after: seq<NodeId>,
                                             key: string,
                                             value: Bytes, gets: ReadCalls, retries: nat)
    requires forall x :: x in before ==> ItemValue(LookUp(data, x, key)) in {None, Some(value)}
    requires ItemValue(LookUp(data, w, key)) == Some(value) && Answers(gets, w, retries)
    ensures ItemValue(ReadFrom(data, before + [w] + after, key, gets, retries)) == Some(value)
  {
    var list := before + [w] + after;
    if before == [] {
      assert list[0] == w;
    } else {
      assert list[0] == before[0] && list[1..] == before[1..] + [w] + after;
      ReadThroughValues(data, before[1..], w, after, key, value, gets, retries);
    }
  }

  /**
   A write, a join and failures: after the write only its listed nodes count, and they hold the item
   or have lost it; the new node brought the acknowledged value or none. Whatever other nodes are
   removed or fail, a read returns the value as long as one written node is still listed, holds it
   and answers.
   */
  lemma AckedWriteSurvivesJoinAndFailures(h: Hashing, vnodes: nat, self: NodeInfo, peers: seq<NodeInfo>,
                                          known: seq<NodeInfo>, dead: set<NodeId>, removed: set<NodeId>,
                                          deadNow: set<NodeId>, factor: nat, retries: nat, data': Fleet, key: string,
                                          item: Item, gets: ReadCalls, w: NodeId)
    requires Joins(h, vnodes, self, peers, known, dead, factor)
    requires dead <= deadNow + removed && self.id !in removed && self.id !in deadNow
    requires forall n :: n in ListBefore(h, vnodes, known, key, dead, factor) ==>
      LookUp(data', n, key) in {None, Some(item)}
    requires ItemValue(LookUp(data', self.id, key)) in {None, Some(item.value)}
    requires w in ListBefore(h, vnodes, known, key, dead, factor) && LookUp(data', w, key) == Some(item)
    requires w in AliveList(DropSlots(SlotsAfter(h, vnodes, known, self.id), removed), h.key(key), deadNow, factor)
    requires Answers(gets, w, retries)
    ensures var now :=
      AliveList(DropSlots(SlotsAfter(h, vnodes, known, self.id), removed), h.key(key), deadNow, factor);
            ItemValue(ReadFrom(data', now, key, gets, retries)) == Some(item.value)
  {
    var k, list := h.key(key), ListBefore(h, vnodes, known, key, dead, factor);
    var now := AliveList(DropSlots(SlotsAfter(h, vnodes, known, self.id), removed), k, deadNow, factor);
    NotAdded(self.id, peers);
    NotAdded(self.id, known);
    ListedIsKnown(h, vnodes, known, k, dead, factor);
    var before, after := FirstOccurrence(now, w);
    forall x | x in before ensures ItemValue(LookUp(data', x, key)) in {None, Some(item.value)} {
      if x != self.id {
        var i :| 0 <= i < |before| && before[i] == x;
        assert now[i] == x && now[|before|] == w;
        WrittenBefore(h, vnodes, self.id, known, dead, removed, deadNow, factor, k, x, w);
      }
    }
    ReadThroughValues(data', before, w, after, key, item.value, gets, retries);
  }

  /** Apart from the new node, only nodes of the old list precede a written node in the new one. */
  lemma WrittenBefore(h: Hashing, vnodes: nat, self: NodeId, known: seq<NodeInfo>, dead: set<NodeId>,
                      removed: set<NodeId>, deadNow: set<NodeId>, factor: nat, k: Position, x: NodeId, w: NodeId)
    requires vnodes > 0 && factor >= 1 && NotAmong(self, known) && dead <= deadNow + removed
    requires NoCollision(h, SlotsBefore(h, vnodes, known), self, vnodes)
    requires self !in removed && self !in deadNow && x != self && w != self
    requires w in AliveList(SlotsBefore(h, vnodes, known), k, dead, factor)
    requires Precedes(AliveList(DropSlots(SlotsAfter(h, vnodes, known, self), removed), k, deadNow, factor), x, w)
    ensures x in AliveList(SlotsBefore(h, vnodes, known), k, dead, factor)
  {
    var s := SlotsBefore(h, vnodes, known);
    var plain := AliveList(DropSlots(s, removed), k, deadNow, factor);
    HeldByAdded(h, vnodes, known, 0);
    ListAfterJoin(h, vnodes, self, known, removed, deadNow, factor, k);
    assert Precedes(plain, x, w);
    ListedIsUsable(s, k, factor, removed, deadNow);
    var before, after := SurvivorInNewList(s, k, factor, dead, removed, deadNow, w);
    ListIsDistinct(DropSlots(s, removed), k, deadNow, factor);
    StandsBefore(plain, before, x, w, after);
    assert Precedes(AliveList(s, k, dead, factor), x, w);
  }

  lemma StandsBefore(list: seq<NodeId>, before: seq<NodeId>, x: NodeId, w: NodeId, after: seq<NodeId>)
    requires AllDistinct(list) && list == before + [w] + after && Precedes(list, x, w)
    ensures x in before
  {
    var i, j :| 0 <= i < j < |list| && list[i] == x && list[j] == w;
    assert list[|before|] == w;
    assert before[i] == x;
  }

  // ----- A concrete loss -----------------------------------------------------

  /** One live entry makes a stream of one chunk. */
  lemma OneChunkBringsAll(key: string, value: Bytes)
    ensures BringsAll([Arrival(Chunk(key, value, None), 0)], Source(map[key := CacheEntry(value, None)], 0))
  {
    var data: Data := map[key := CacheEntry(value, None)];
    var stream := [Arrival(Chunk(key, value, None), 0)];
    var chunks := seq(|stream|, i requires 0 <= i < |stream| => stream[i].chunk);
    assert chunks[0].key == key;
    assert Live(data, 0) == data;
    assert Streamed(chunks, key);
  }

  function StaleHashing(self: NodeId, a: NodeId): Hashing {
    Hashing(_ => 0, (id, _) => if id == self then 1 else if id == a then 2 else 3)
  }

  /** Clockwise from the key: the new node, then `a`, then `b`. */
  lemma StaleRing(self: NodeInfo, a: NodeInfo, b: NodeInfo)
    requires self.id != a.id && self.id != b.id && a.id != b.id
    ensures var h := StaleHashing(self.id, a.id);
            && Joins(h, 1, self, [a, b], [a, b], {}, 1)
            && AliveList(SlotsBefore(h, 1, [a, b]), 0, {}, 1) == [a.id]
            && AliveList(SlotsAfter(h, 1, [a, b], self.id), 0, {}, 1) == [self.id]
            && Owner(SlotsAfter(h, 1, [a, b], self.id), 0) == Some(self.id)
  {
    var h := StaleHashing(self.id, a.id);
    var first := [Slot(2, a.id)];
    var both := [Slot(2, a.id), Slot(3, b.id)];
    assert [a, b][..1] == [a];
    OnePeer(h, Ring([], []), a);
    OneVnode(h, [], a.id);
    OneVnode(h, first, b.id);
    OneVnode(h, both, self.id);
    assert first[1..] == [] && both[1..] == [Slot(3, b.id)];
    assert SlotsBefore(h, 1, [a, b]) == both;
    HolderAbsent(both, 1);
    OwnerIsListedFirst(both, 0, {}, 1, a.id);
    OwnerIsListedFirst([Slot(1, self.id)] + both, 0, {}, 1, self.id);
  }

  function StaleStreams(a: NodeId, key: string, latest: Bytes, older: Bytes): Streams {
    id => [Arrival(Chunk(key, if id == a then latest else older, None), 0)]
  }

  lemma StaleIsBrought(self: NodeInfo, a: NodeInfo, b: NodeInfo, key: string, latest: Bytes, older: Bytes)
    requires self.id != a.id && self.id != b.id && a.id != b.id
    ensures var arrivals := AllArrivals(self.id, [a, b], StaleStreams(a.id, key, latest, older));
            ValueOf(Joined(StaleHashing(self.id, a.id), 1, self, [a, b], arrivals, {}), key) == Some(older)
  {
    var h, streams := StaleHashing(self.id, a.id), StaleStreams(a.id, key, latest, older);
    var holdings: Holdings := id => Source(map[key := CacheEntry(if id == a.id then latest else older, None)], 0);
    StaleRing(self, a, b);
    OneChunkBringsAll(key, latest);
    OneChunkBringsAll(key, older);
    CompleteStreamsBring(h, 1, self, [a, b], [a, b], streams, holdings, {}, {}, 1, key);
    assert HeldLongEnough(holdings(b.id), key);
  }

  /**
   An acknowledged write need not survive a join: `a` owns the key and acknowledged the latest value,
   `b` still has an older one from a time when `a` was away, and `b` streams last. The new node, now
   the owner, serves the older value.
   */
  lemma JoinMayServeOlderValue(self: NodeInfo, a: NodeInfo, b: NodeInfo, key: string, latest: Bytes, older: Bytes)
    requires self.id != a.id && self.id != b.id && a.id != b.id
    ensures var h := StaleHashing(self.id, a.id);
            var arrivals := AllArrivals(self.id, [a, b], StaleStreams(a.id, key, latest, older));
            var data: Fleet := map[b.id := map[key := Item(older, None)]];
            var list := ListBefore(h, 1, [a, b], key, {}, 1);
            var written := WriteAll(data, list, key, Item(latest, None), (_, _) => Replied(true), 1);
            var joined := Joined(h, 1, self, [a, b], arrivals, {});
            && list == [a.id] && LookUp(written, a.id, key) == Some(Item(latest, None))
            && key in joined
            && var data' := written[self.id := map[key := Item(joined[key].value, None)]];
               var now := ListAfter(h, 1, [a, b], self.id, key, {}, 1);
               ItemValue(ReadFrom(data', now, key, (_, _) => Answered, 1)) == Some(older)
  {
    var h := StaleHashing(self.id, a.id);
    var arrivals := AllArrivals(self.id, [a, b], StaleStreams(a.id, key, latest, older));
    var data: Fleet := map[b.id := map[key := Item(older, None)]];
    var item, writes: WriteCalls, gets: ReadCalls := Item(latest, None), (_, _) => Replied(true), (_, _) => Answered;
    StaleRing(self, a, b);
    StaleIsBrought(self, a, b, key, latest, older);
    var joined := Joined(h, 1, self, [a, b], arrivals, {});
    var written := WriteAll(data, [a.id], key, item, writes, 1);
    var data' := written[self.id := map[key := Item(joined[key].value, None)]];
    WriteAllFacts(data, [a.id], key, item, writes, 1, a.id, key);
    assert Acks(writes, a.id, 0, 1) && Applies(writes, a.id, 0, 1);
    assert gets(self.id, 0) == Answered;
    ReadAfterJoin(h, 1, self, [a, b], [a, b], arrivals, {}, {}, 1, 1, data, data', key, item, writes, gets);
  }
}
