/**
 Replica selection and the quorum-free read and write loops of the router
 (router/src/replication/coordinator.rs).

 The stores of the nodes are a `Fleet`. Each remote call has an outcome chosen by the environment:
 the connection fails, the call fails (perhaps after taking effect), or the node answers.
 */
module Coordinator {
  import opened Common
  import opened HashRing
  import Health

  // ----- Replica selection ---------------------------------------------------

  /** The candidates asked of the ring: two more than the replication factor. */
  function Candidates(s: seq<Slot>, h: Position, factor: nat): seq<NodeId> {
    Preference(s, h, factor + 2)
  }

  /** The nodes a key is written to and read from; factor 0 still tries one candidate. */
  function AliveList(s: seq<Slot>, h: Position, dead: set<NodeId>, factor: nat): seq<NodeId> {
    if factor == 0 then Without(Take(Candidates(s, h, factor), 1), dead)
    else Take(Without(Candidates(s, h, factor), dead), factor)
  }

  lemma {:induction false} WithoutFacts(ids: seq<NodeId>, gone: set<NodeId>)
    ensures |Without(ids, gone)| <= |ids|
    ensures forall x :: x in Without(ids, gone) <==> x in ids && x !in gone
  {
    if ids == [] {
    } else {
      WithoutFacts(ids[1..], gone);
      assert forall x :: x in ids <==> x == ids[0] || x in ids[1..];
    }
  }

  lemma {:induction false} WithoutTwice(ids: seq<NodeId>, a: set<NodeId>, b: set<NodeId>)
    ensures Without(Without(ids, a), b) == Without(ids, a + b)
  {
    if ids == [] {
    } else {
      WithoutTwice(ids[1..], a, b);
      if ids[0] !in a {
        assert Without(ids, a)[1..] == Without(ids[1..], a);
      }
    }
  }

  lemma {:induction false} WithoutMore(ids: seq<NodeId>, a: set<NodeId>, b: set<NodeId>)
    requires a <= b
    ensures |Without(ids, b)| <= |Without(ids, a)|
  {
    if ids == [] {
    } else {
      WithoutMore(ids[1..], a, b);
    }
  }

  lemma WithoutSplit(ids: seq<NodeId>, n: nat, gone: set<NodeId>)
    requires n <= |ids|
    ensures Without(ids, gone) == Without(ids[..n], gone) + Without(ids[n..], gone)
  {
    WithoutConcat(ids[..n], ids[n..], gone);
    assert ids[..n] + ids[n..] == ids;
  }

  lemma WithoutStep(ids: seq<NodeId>, i: nat, gone: set<NodeId>)
    requires i < |ids|
    ensures Without(ids[..i + 1], gone) == Without(ids[..i], gone) + if ids[i] in gone then [] else [ids[i]]
  {
    WithoutConcat(ids[..i], [ids[i]], gone);
    assert ids[..i + 1] == ids[..i] + [ids[i]];
    assert [ids[i]][1..] == [];
  }

  /** Skipping dead candidates picks a prefix of what a ring without the dead nodes would pick. */
  lemma SkippingIsPrefixOfRemoving(s: seq<Slot>, h: Position, dead: set<NodeId>, factor: nat)
    requires Sorted(s) && factor >= 1
    ensures AliveList(s, h, dead, factor) <= Preference(DropSlots(s, dead), h, factor)
  {
    RemovalOnlyDeletes(s, h, dead);
    SkippingIsPrefixInList(Clockwise(s, h), dead, factor);
  }

  lemma SkippingIsPrefixInList(all: seq<NodeId>, dead: set<NodeId>, factor: nat)
    ensures Take(Without(Take(all, factor + 2), dead), factor) <= Take(Without(all, dead), factor)
  {
    WithoutSplit(all, Min(factor + 2, |all|), dead);
  }

  /**
   The two agree exactly when at most two of the candidates are not alive, or no alive node lies
   beyond the candidates (in particular when the ring holds at most factor + 2 nodes).
   */
  lemma SkippingEqualsRemoving(s: seq<Slot>, h: Position, dead: set<NodeId>, factor: nat)
    requires Sorted(s) && factor >= 1
    ensures var all, cands := Clockwise(s, h), Candidates(s, h, factor);
            |cands| <= |all| &&
            (AliveList(s, h, dead, factor) == Preference(DropSlots(s, dead), h, factor)
             <==> || |cands| - |Without(cands, dead)| <= 2
                  || Without(all[|cands|..], dead) == [])
  {
    RemovalOnlyDeletes(s, h, dead);
    SkippingInList(Clockwise(s, h), dead, factor);
  }

  lemma SkippingInList(all: seq<NodeId>, dead: set<NodeId>, factor: nat)
    ensures var cands := Take(all, factor + 2);
            Take(Without(cands, dead), factor) == Take(Without(all, dead), factor)
            <==> |cands| - |Without(cands, dead)| <= 2 || Without(all[|cands|..], dead) == []
  {
    var n := Min(factor + 2, |all|);
    WithoutSplit(all, n, dead);
    WithoutFacts(all[..n], dead);
    TakeOfBoth(Without(all[..n], dead), Without(all[n..], dead), factor);
    if n == |all| {
      assert all[n..] == [];
    }
  }

  lemma TakeOfBoth(near: seq<NodeId>, far: seq<NodeId>, n: nat)
    ensures Take(near, n) == Take(near + far, n) <==> |near| >= n || far == []
  {
    if |near| >= n {
      assert Take(near + far, n) == Take(near, n);
    } else if far == [] {
      assert near + far == near;
    } else {
      assert |Take(near + far, n)| > |Take(near, n)|;
    }
  }

  // ----- Surviving failures --------------------------------------------------

  predicate Precedes(list: seq<NodeId>, x: NodeId, w: NodeId) {
    exists i, j :: 0 <= i < j < |list| && list[i] == x && list[j] == w
  }

  lemma FewBefore(a: seq<NodeId>, b: seq<NodeId>, w: NodeId, n: nat)
    requires w in Take(a + b, n) && w !in a
    ensures |a| < n
  {
    var i :| 0 <= i < |Take(a + b, n)| && Take(a + b, n)[i] == w;
    assert forall j :: 0 <= j < |a| && j < n ==> Take(a + b, n)[j] == a[j];
  }

  /** Where `w` stands in a clockwise list bounds where it stands after failures. */
  lemma SurvivorPrecedesNewcomers(all: seq<NodeId>, pre: seq<NodeId>, w: NodeId, post: seq<NodeId>,
                                  deadThen: set<NodeId>, removed: set<NodeId>, deadNow: set<NodeId>, factor: nat)
    requires all == pre + [w] + post && w !in pre && factor >= 1
    requires deadThen <= deadNow + removed && w !in deadNow + removed
    requires w in Take(Without(Take(all, factor + 2), deadThen), factor)
    ensures var before := Without(pre, removed + deadNow);
            && before + [w] <= Take(Without(Take(Without(all, removed), factor + 2), deadNow), factor)
            && forall x :: x in before ==> Precedes(Take(Without(Take(all, factor + 2), deadThen), factor), x, w)
  {
    var written := Take(Without(Take(all, factor + 2), deadThen), factor);
    var before, old' := Without(pre, removed + deadNow), Without(pre, deadThen);
    ThenSplit(all, pre, w, post, deadThen, factor);
    NowSplit(all, pre, w, post, removed, deadNow, factor);
    WithoutMore(pre, deadThen, removed + deadNow);
    WithoutFacts(pre, removed + deadNow);
    WithoutFacts(pre, deadThen);
    forall x | x in before ensures Precedes(written, x, w) {
      var i :| 0 <= i < |old'| && old'[i] == x;
      assert written[i] == x && written[|old'|] == w;
    }
  }

  lemma ThenSplit(all: seq<NodeId>, pre: seq<NodeId>, w: NodeId, post: seq<NodeId>, deadThen: set<NodeId>, factor: nat)
    requires all == pre + [w] + post && w !in pre
    requires w in Take(Without(Take(all, factor + 2), deadThen), factor)
    ensures |pre| < factor + 2 && |Without(pre, deadThen)| < factor
    ensures Without(pre, deadThen) + [w] <= Take(Without(Take(all, factor + 2), deadThen), factor)
  {
    var near := Take(all, factor + 2);
    TakeIsPart(Without(near, deadThen), factor);
    WithoutFacts(near, deadThen);
    FirstIsNear(all, pre, w, post, factor + 2);
    var rest := near[|pre| + 1..];
    WithoutConcat(pre, [w] + rest, deadThen);
    WithoutConcat([w], rest, deadThen);
    assert Without([w], deadThen) == [w] by { assert [w][1..] == []; }
    WithoutFacts(pre, deadThen);
    PrefixOfTake(Without(pre, deadThen), w, Without(rest, deadThen), factor);
  }

  lemma FirstIsNear(all: seq<NodeId>, pre: seq<NodeId>, w: NodeId, post: seq<NodeId>, n: nat)
    requires all == pre + [w] + post && w !in pre && w in Take(all, n)
    ensures |pre| < n && |pre| < |Take(all, n)|
    ensures Take(all, n) == pre + ([w] + Take(all, n)[|pre| + 1..])
  {
    var near := Take(all, n);
    var i :| 0 <= i < |near| && near[i] == w;
    assert all[i] == w;
    assert forall j :: 0 <= j < |pre| ==> all[j] == pre[j];
    assert near[..|pre|] == pre && near[|pre|] == w;
  }

  lemma PrefixOfTake(a: seq<NodeId>, w: NodeId, b: seq<NodeId>, n: nat)
    requires w !in a && w in Take(a + ([w] + b), n)
    ensures |a| < n && a + [w] <= Take(a + ([w] + b), n)
  {
    FewBefore(a, [w] + b, w, n);
    assert a + ([w] + b) == a + [w] + b;
  }

  lemma NowSplit(all: seq<NodeId>, pre: seq<NodeId>, w: NodeId, post: seq<NodeId>,
                 removed: set<NodeId>, deadNow: set<NodeId>, factor: nat)
    requires all == pre + [w] + post && |pre| < factor + 2 && w !in removed + deadNow
    ensures Without(pre, removed + deadNow) + [w] <= Without(Take(Without(all, removed), factor + 2), deadNow)
  {
    var left := Without(pre, removed);
    WithoutFacts(pre, removed);
    WithoutConcat(pre + [w], post, removed);
    WithoutConcat(pre, [w], removed);
    assert Without([w], removed) == [w];
    var now := Without(all, removed);
    assert now == left + [w] + Without(post, removed);
    var near := Take(now, factor + 2);
    WithoutSplit(near, |left| + 1, deadNow);
    assert near[..|left| + 1] == left + [w];
    WithoutConcat(left, [w], deadNow);
    assert Without([w], deadNow) == [w];
    WithoutTwice(pre, removed, deadNow);
  }

  lemma {:induction false} FirstOccurrence(ids: seq<NodeId>, w: NodeId) returns (pre: seq<NodeId>, post: seq<NodeId>)
    requires w in ids
    ensures ids == pre + [w] + post && w !in pre
  {
    if ids[0] == w {
      pre, post := [], ids[1..];
    } else {
      pre, post := FirstOccurrence(ids[1..], w);
      pre := [ids[0]] + pre;
    }
  }

  /** After failures the new list still names `w`, and before it only nodes that preceded it in the old list. */
  lemma SurvivorInNewList(s: seq<Slot>, h: Position, factor: nat, deadThen: set<NodeId>, removed: set<NodeId>,
                          deadNow: set<NodeId>, w: NodeId)
    returns (before: seq<NodeId>, after: seq<NodeId>)
    requires Sorted(s) && factor >= 1 && deadThen <= deadNow + removed
    requires w in AliveList(s, h, deadThen, factor) && w !in removed && w !in deadNow
    ensures AliveList(DropSlots(s, removed), h, deadNow, factor) == before + [w] + after
    ensures forall x :: x in before ==> Precedes(AliveList(s, h, deadThen, factor), x, w)
  {
    RemovalOnlyDeletes(s, h, removed);
    before, after := SurvivorInList(Clockwise(s, h), w, deadThen, removed, deadNow, factor);
  }

  lemma SurvivorInList(all: seq<NodeId>, w: NodeId, deadThen: set<NodeId>, removed: set<NodeId>, deadNow: set<NodeId>,
                       factor: nat)
    returns (before: seq<NodeId>, after: seq<NodeId>)
    requires factor >= 1 && deadThen <= deadNow + removed && w !in deadNow + removed
    requires w in Take(Without(Take(all, factor + 2), deadThen), factor)
    ensures Take(Without(Take(Without(all, removed), factor + 2), deadNow), factor) == before + [w] + after
    ensures forall x :: x in before ==> Precedes(Take(Without(Take(all, factor + 2), deadThen), factor), x, w)
  {
    WithoutFacts(Take(all, factor + 2), deadThen);
    assert w in Take(all, factor + 2);
    var pre, post := FirstOccurrence(all, w);
    SurvivorPrecedesNewcomers(all, pre, w, post, deadThen, removed, deadNow, factor);
    before := Without(pre, removed + deadNow);
    var list := Take(Without(Take(Without(all, removed), factor + 2), deadNow), factor);
    after := list[|before| + 1..];
    assert list[..|before| + 1] == before + [w];
  }

  /** What a node was asked to store: the value and its time to live, which expires at the node. */
  datatype Item = Item(value: Bytes, ttlMs: Option<nat>)

  type Fleet = map<NodeId, map<string, Item>>

  function StoreAt(data: Fleet, n: NodeId, key: string, item: Item): Fleet {
    data[n := (if n in data then data[n] else map[])[key := item]]
  }

  lemma StoreTwice(data: Fleet, n: NodeId, key: string, item: Item)
    ensures StoreAt(StoreAt(data, n, key, item), n, key, item) == StoreAt(data, n, key, item)
  {
    var once := StoreAt(data, n, key, item);
    assert once[n][key := item] == once[n];
  }

  function LookUp(data: Fleet, n: NodeId, key: string): Option<Item> {
    if n in data && key in data[n] then Some(data[n][key]) else None
  }

  datatype WriteOutcome = NoConnection | CallFailed(applied: bool) | Replied(success: bool)

  /** Outcome of the `attempt`-th call to a node. */
  type WriteCalls = (NodeId, nat) -> WriteOutcome

  /** Whether the attempts from number `a` on leave the value at the node. */
  predicate Applies(calls: WriteCalls, n: NodeId, a: nat, retries: nat)
    decreases retries - a
  {
    a < retries &&
    match calls(n, a)
    case NoConnection => Applies(calls, n, a + 1, retries)
    case CallFailed(applied) => applied || Applies(calls, n, a + 1, retries)
    case Replied(success) => success
  }

  /** Whether the node acknowledges one of the attempts from number `a` on. */
  predicate Acks(calls: WriteCalls, n: NodeId, a: nat, retries: nat)
    decreases retries - a
  {
    a < retries &&
    match calls(n, a)
    case NoConnection => Acks(calls, n, a + 1, retries)
    case CallFailed(_) => Acks(calls, n, a + 1, retries)
    case Replied(success) => success
  }

  /** A node acknowledges iff its first reply, among the attempts, is a success. */
  lemma {:induction false} AcksIff(calls: WriteCalls, n: NodeId, a: nat, retries: nat)
    ensures Acks(calls, n, a, retries) <==>
            exists k: nat :: a <= k < retries && calls(n, k) == Replied(true)
                             && forall j: nat :: a <= j < k ==> !calls(n, j).Replied?
    decreases retries - a
  {
    if a < retries && !calls(n, a).Replied? {
      AcksIff(calls, n, a + 1, retries);
    }
  }

  /** The value is left at a node iff one of its attempts, up to its first reply, takes effect. */
  lemma {:induction false} AppliesIff(calls: WriteCalls, n: NodeId, a: nat, retries: nat)
    ensures Applies(calls, n, a, retries) <==>
            exists k: nat :: a <= k < retries && calls(n, k) in {Replied(true), CallFailed(true)}
                             && forall j: nat :: a <= j < k ==> !calls(n, j).Replied?
    decreases retries - a
  {
    if a < retries && !calls(n, a).Replied? {
      AppliesIff(calls, n, a + 1, retries);
    }
  }

  function WriteAll(data: Fleet, list: seq<NodeId>, key: string, item: Item, calls: WriteCalls, retries: nat): Fleet {
    if list == [] then data
    else
      var last := |list| - 1;
      var before := WriteAll(data, list[..last], key, item, calls, retries);
      if Applies(calls, list[last], 0, retries) then StoreAt(before, list[last], key, item) else before
  }

  lemma {:induction false} AckedIsApplied(calls: WriteCalls, n: NodeId, a: nat, retries: nat)
    requires Acks(calls, n, a, retries)
    ensures Applies(calls, n, a, retries)
    decreases retries - a
  {
    if !calls(n, a).Replied? {
      AckedIsApplied(calls, n, a + 1, retries);
    }
  }

  /** What a write leaves behind: the value wherever it was applied, everything else as it was. */
  lemma {:induction false} WriteAllFacts(data: Fleet, list: seq<NodeId>, key: string, item: Item, calls: WriteCalls,
                                         retries: nat, n: NodeId, k: string)
    ensures LookUp(WriteAll(data, list, key, item, calls, retries), n, k) ==
            if k == key && n in list && Applies(calls, n, 0, retries) then Some(item) else LookUp(data, n, k)
  {
    if list == [] {
    } else {
      var last := |list| - 1;
      WriteAllFacts(data, list[..last], key, item, calls, retries, n, k);
      assert n in list <==> n in list[..last] || n == list[last];
    }
  }

  datatype ReadOutcome = Unreachable | Failed | Answered

  type ReadCalls = (NodeId, nat) -> ReadOutcome

  /** The node answers one of the attempts. */
  ghost predicate Answers(calls: ReadCalls, n: NodeId, retries: nat) {
    exists a: nat :: a < retries && calls(n, a) == Answered
  }

  /** The first listed node that answers and holds the key decides. */
  ghost function ReadFrom(data: Fleet, list: seq<NodeId>, key: string, calls: ReadCalls, retries: nat): Option<Item> {
    if list == [] then None
    else if Answers(calls, list[0], retries) && LookUp(data, list[0], key).Some? then LookUp(data, list[0], key)
    else ReadFrom(data, list[1..], key, calls, retries)
  }

  /** Node `i` of the list answers one of its attempts and holds the key. */
  ghost predicate Serves(data: Fleet, list: seq<NodeId>, key: string, calls: ReadCalls, retries: nat, i: int) {
    0 <= i < |list| && LookUp(data, list[i], key).Some? && exists a: nat :: a < retries && calls(list[i], a) == Answered
  }

  /** A read returns what the first serving node of the list holds, and nothing if none serves. */
  lemma {:induction false} ReadsFirstServing(data: Fleet, list: seq<NodeId>, key: string, calls: ReadCalls,
                                             retries: nat)
    ensures (forall i :: !Serves(data, list, key, calls, retries, i)) ==>
      ReadFrom(data, list, key, calls, retries) == None
    ensures forall i :: Serves(data, list, key, calls, retries, i)
                        && (forall j :: 0 <= j < i ==> !Serves(data, list, key, calls, retries, j)) ==>
              ReadFrom(data, list, key, calls, retries) == LookUp(data, list[i], key)
    decreases |list|
  {
    if list == [] {
    } else {
      var rest := list[1..];
      ReadsFirstServing(data, rest, key, calls, retries);
      assert Serves(data, list, key, calls, retries, 0) <==>
             Answers(calls, list[0], retries) && LookUp(data, list[0], key).Some?;
      assert forall i :: 0 <= i < |rest| ==> rest[i] == list[i + 1];
      assert forall i :: i >= 1 ==>
        (Serves(data, list, key, calls, retries, i) <==> Serves(data, rest, key, calls, retries, i - 1));
      if forall i :: !Serves(data, list, key, calls, retries, i) {
        assert !Serves(data, list, key, calls, retries, 0);
        forall j ensures !Serves(data, rest, key, calls, retries, j) {
          assert !Serves(data, list, key, calls, retries, j + 1);
        }
      }
      forall i | Serves(data, list, key, calls, retries, i)
                 && (forall j :: 0 <= j < i ==> !Serves(data, list, key, calls, retries, j))
        ensures ReadFrom(data, list, key, calls, retries) == LookUp(data, list[i], key)
      {
        if i > 0 {
          assert !Serves(data, list, key, calls, retries, 0);
          forall j | 0 <= j < i - 1 ensures !Serves(data, rest, key, calls, retries, j) {
            assert !Serves(data, list, key, calls, retries, j + 1);
          }
        }
      }
    }
  }

  lemma {:induction false} ReadThrough(data: Fleet, before: seq<NodeId>, w: NodeId, after: seq<NodeId>, key: string,
                                       item: Item, calls: ReadCalls, retries: nat)
    requires forall x :: x in before && Answers(calls, x, retries) ==> LookUp(data, x, key) in {None, Some(item)}
    requires LookUp(data, w, key) == Some(item) && Answers(calls, w, retries)
    ensures ReadFrom(data, before + [w] + after, key, calls, retries) == Some(item)
  {
    var list := before + [w] + after;
    if before == [] {
      assert list[0] == w;
    } else {
      assert list[0] == before[0] && list[1..] == before[1..] + [w] + after;
      ReadThrough(data, before[1..], w, after, key, item, calls, retries);
    }
  }

  /**
   Durability. A write was acknowledged by every node of its list. Since then nodes were only
   removed from the ring or became not alive, and stores only lost data: by expiry, a crash or a
   delete, but no other write. If one written node is still in the ring, alive, holds the value
   and answers, then a read returns it, even though newcomers may hold older values of the key.
   */
  lemma AckedWriteSurvivesFailures(s: seq<Slot>, h: Position, factor: nat, retries: nat,
                                   deadThen: set<NodeId>, removed: set<NodeId>, deadNow: set<NodeId>,
                                   data: Fleet, data': Fleet, key: string, item: Item,
                                   writes: WriteCalls, gets: ReadCalls, w: NodeId)
    requires Sorted(s) && factor >= 1 && deadThen <= deadNow + removed
    requires var list := AliveList(s, h, deadThen, factor);
             && (forall n :: n in list ==> Acks(writes, n, 0, retries))
             && (forall n :: n in list ==>
                  LookUp(data', n, key) in {None, LookUp(WriteAll(data, list, key, item, writes, retries), n, key)})
             && w in list && LookUp(data', w, key).Some?
    requires w !in removed && w !in deadNow && Answers(gets, w, retries)
    ensures ReadFrom(data', AliveList(DropSlots(s, removed), h, deadNow, factor), key, gets, retries) == Some(item)
  {
    var list := AliveList(s, h, deadThen, factor);
    forall n | n in list ensures LookUp(data', n, key) in {None, Some(item)} {
      AckedIsApplied(writes, n, 0, retries);
      WriteAllFacts(data, list, key, item, writes, retries, n, key);
    }
    var before, after := SurvivorInNewList(s, h, factor, deadThen, removed, deadNow, w);
    ReadThrough(data', before, w, after, key, item, gets, retries);
  }

  // ----- Durability of what a write really leaves ----------------------------

  /** `w` was written to, holds the item, and is still in the ring, alive and answering. */
  ghost predicate Survives(list: seq<NodeId>, data: Fleet, key: string, item: Item, removed: set<NodeId>,
                           deadNow: set<NodeId>, gets: ReadCalls, retries: nat, w: NodeId) {
    w in list && LookUp(data, w, key) == Some(item) && w !in removed && w !in deadNow && Answers(gets, w, retries)
  }

  /** Whatever nodes are removed or fail, a read returns the item as long as one of its listed holders survives. */
  ghost predicate Durable(s: seq<Slot>, h: Position, factor: nat, retries: nat, dead: set<NodeId>, data: Fleet,
                          key: string, item: Item) {
    forall removed: set<NodeId>, deadNow: set<NodeId>, gets: ReadCalls, w: NodeId |
      && dead <= deadNow + removed
      && Survives(AliveList(s, h, dead, factor), data, key, item, removed, deadNow, gets, retries, w) ::
      ReadFrom(data, AliveList(DropSlots(s, removed), h, deadNow, factor), key, gets, retries) == Some(item)
  }

  /** `x` holds another value and comes before a holder `w` of the item. */
  predicate Rivals(list: seq<NodeId>, data: Fleet, key: string, item: Item, x: NodeId, w: NodeId) {
    Precedes(list, x, w) && LookUp(data, w, key) == Some(item) && LookUp(data, x, key) !in {None, Some(item)}
  }

  /** An item is durable iff no node of its list with another value precedes one that holds it. */
  lemma DurableIff(s: seq<Slot>, h: Position, factor: nat, retries: nat, dead: set<NodeId>, data: Fleet,
                   key: string, item: Item)
    requires Sorted(s) && factor >= 1 && retries >= 1
    ensures Durable(s, h, factor, retries, dead, data, key, item) <==>
            forall x, w :: !Rivals(AliveList(s, h, dead, factor), data, key, item, x, w)
  {
    var list := AliveList(s, h, dead, factor);
    if x, w :| Rivals(list, data, key, item, x, w) {
      RivalIsRead(s, h, factor, retries, dead, data, key, item, x, w);
    } else {
      forall removed: set<NodeId>, deadNow: set<NodeId>, gets: ReadCalls, w: NodeId |
        dead <= deadNow + removed && Survives(list, data, key, item, removed, deadNow, gets, retries, w)
        ensures ReadFrom(data, AliveList(DropSlots(s, removed), h, deadNow, factor), key, gets, retries) == Some(item)
      {
        var before, after := SurvivorInNewList(s, h, factor, dead, removed, deadNow, w);
        forall x | x in before ensures LookUp(data, x, key) in {None, Some(item)} {
          assert !Rivals(list, data, key, item, x, w);
        }
        ReadThrough(data, before, w, after, key, item, gets, retries);
      }
    }
  }

  /** With no failure at all, if only the rival and the holder answer, the rival is read. */
  lemma RivalIsRead(s: seq<Slot>, h: Position, factor: nat, retries: nat, dead: set<NodeId>, data: Fleet,
                    key: string, item: Item, x: NodeId, w: NodeId)
    requires Sorted(s) && factor >= 1 && retries >= 1
    requires Rivals(AliveList(s, h, dead, factor), data, key, item, x, w)
    ensures !Durable(s, h, factor, retries, dead, data, key, item)
  {
    var list := AliveList(s, h, dead, factor);
    var gets: ReadCalls := (n, _) => if n == x || n == w then Answered else Unreachable;
    ListIsDistinct(s, h, dead, factor);
    FirstToAnswer(list, data, key, item, x, w, gets, retries);
    WithoutFacts(Candidates(s, h, factor), dead);
    TakeIsPart(Without(Candidates(s, h, factor), dead), factor);
    DropNothing(s, {});
    assert Survives(list, data, key, item, {}, dead, gets, retries, w);
    assert dead <= dead + {};
  }

  lemma FirstToAnswer(list: seq<NodeId>, data: Fleet, key: string, item: Item, x: NodeId, w: NodeId,
                      gets: ReadCalls, retries: nat)
    requires AllDistinct(list)
    requires Rivals(list, data, key, item, x, w) && retries >= 1
    requires forall n, a :: gets(n, a) == if n == x || n == w then Answered else Unreachable
    ensures w in list && Answers(gets, w, retries)
    ensures ReadFrom(data, list, key, gets, retries) == LookUp(data, x, key)
  {
    var i, j :| 0 <= i < j < |list| && list[i] == x && list[j] == w;
    assert list == list[..i] + [x] + list[i + 1..];
    assert gets(x, 0) == Answered && gets(w, 0) == Answered;
    ReadThrough(data, list[..i], x, list[i + 1..], key, LookUp(data, x, key).value, gets, retries);
  }

  predicate AllDistinct(ids: seq<NodeId>) {
    forall i, j :: 0 <= i < j < |ids| ==> ids[i] != ids[j]
  }

  lemma {:induction false} WithoutIsDistinct(ids: seq<NodeId>, gone: set<NodeId>)
    requires AllDistinct(ids)
    ensures AllDistinct(Without(ids, gone))
  {
    if ids == [] {
    } else {
      WithoutIsDistinct(ids[1..], gone);
      WithoutFacts(ids[1..], gone);
      assert ids[0] !in ids[1..];
    }
  }

  lemma TakeIsDistinct(ids: seq<NodeId>, n: nat)
    requires AllDistinct(ids)
    ensures AllDistinct(Take(ids, n))
  {}

  lemma ListIsDistinct(s: seq<Slot>, h: Position, dead: set<NodeId>, factor: nat)
    ensures AllDistinct(AliveList(s, h, dead, factor))
  {
    var cands := Candidates(s, h, factor);
    ClockwiseFacts(s, h);
    TakeIsDistinct(Clockwise(s, h), factor + 2);
    if factor == 0 {
      TakeIsDistinct(cands, 1);
      WithoutIsDistinct(Take(cands, 1), dead);
    } else {
      WithoutIsDistinct(cands, dead);
      TakeIsDistinct(Without(cands, dead), factor);
    }
  }

  /** A replication factor of 0 still tries the owner of the key. */
  lemma FactorZero(s: seq<Slot>, h: Position, dead: set<NodeId>)
    ensures AliveList(s, h, dead, 0) ==
            match Owner(s, h)
            case None => []
            case Some(owner) => if owner in dead then [] else [owner]
  {
    ClockwiseFacts(s, h);
    if Clockwise(s, h) != [] {
      var owner := Clockwise(s, h)[0];
      assert Take(Candidates(s, h, 0), 1) == [owner];
      assert [owner][1..] == [];
      assert Without([owner], dead) == if owner in dead then [] else [owner];
    }
  }

  /** The node has the item after the write: it was applied there, or the node held it already. */
  predicate Has(data: Fleet, key: string, item: Item, writes: WriteCalls, retries: nat, n: NodeId) {
    Applies(writes, n, 0, retries) || LookUp(data, n, key) == Some(item)
  }

  /** `x` missed the write, held another value, and precedes a node that has the item. */
  predicate MissedBefore(list: seq<NodeId>, data: Fleet, key: string, item: Item, writes: WriteCalls, retries: nat,
                         x: NodeId, w: NodeId) {
    && Precedes(list, x, w) && Has(data, key, item, writes, retries, w)
    && !Has(data, key, item, writes, retries, x) && LookUp(data, x, key).Some?
  }

  /**
   A write succeeds when the first node acknowledges it. Whoever else applied it, what it leaves is
   durable if and only if no node that missed it and held another value precedes one that has it.
   */
  lemma WriteIsDurableIff(s: seq<Slot>, h: Position, factor: nat, retries: nat, dead: set<NodeId>, data: Fleet,
                          key: string, item: Item, writes: WriteCalls)
    requires Sorted(s) && factor >= 1 && retries >= 1
    ensures var list := AliveList(s, h, dead, factor);
            Durable(s, h, factor, retries, dead, WriteAll(data, list, key, item, writes, retries), key, item) <==>
            forall x, w :: !MissedBefore(list, data, key, item, writes, retries, x, w)
  {
    var list := AliveList(s, h, dead, factor);
    var after := WriteAll(data, list, key, item, writes, retries);
    DurableIff(s, h, factor, retries, dead, after, key, item);
    forall x, w ensures Rivals(list, after, key, item, x, w) <==>
                        MissedBefore(list, data, key, item, writes, retries, x, w) {
      WriteAllFacts(data, list, key, item, writes, retries, x, key);
      WriteAllFacts(data, list, key, item, writes, retries, w, key);
    }
  }

  datatype DeleteOutcome = NoLink | Lost(applied: bool) | Done

  type DeleteCalls = (NodeId, nat) -> DeleteOutcome

  function EraseAt(data: Fleet, n: NodeId, key: string): Fleet {
    if n in data then data[n := data[n] - {key}] else data
  }

  /** Attempts at one node: a failed connection ends them, a failed call is retried. */
  function DeleteAt(data: Fleet, n: NodeId, key: string, calls: DeleteCalls, a: nat, retries: nat): (Fleet, bool)
    decreases retries - a
  {
    if a >= retries then (data, false)
    else
      match calls(n, a)
      case NoLink => (data, false)
      case Lost(applied) => DeleteAt(if applied then EraseAt(data, n, key) else data, n, key, calls, a + 1, retries)
      case Done => (EraseAt(data, n, key), LookUp(data, n, key).Some?)
  }

  function DeleteAll(data: Fleet, list: seq<NodeId>, key: string, calls: DeleteCalls, retries: nat): (Fleet, bool) {
    if list == [] then (data, false)
    else
      var last := |list| - 1;
      var before := DeleteAll(data, list[..last], key, calls, retries);
      var at := DeleteAt(before.0, list[last], key, calls, 0, retries);
      (at.0, before.1 || at.1)
  }

  /** The node confirms the delete before any attempt fails to connect. */
  predicate Confirms(calls: DeleteCalls, n: NodeId, a: nat, retries: nat)
    decreases retries - a
  {
    a < retries && (calls(n, a) == Done || (calls(n, a).Lost? && Confirms(calls, n, a + 1, retries)))
  }

  lemma {:induction false} ConfirmsIff(calls: DeleteCalls, n: NodeId, a: nat, retries: nat)
    ensures Confirms(calls, n, a, retries) <==>
            exists k: nat :: a <= k < retries && calls(n, k) == Done && forall j: nat :: a <= j < k ==>
              calls(n, j).Lost?
    decreases retries - a
  {
    if a < retries && calls(n, a).Lost? {
      ConfirmsIff(calls, n, a + 1, retries);
    }
  }

  /** One of the attempts, before any failure to connect and up to the first confirmation, takes effect. */
  ghost predicate Erases(calls: DeleteCalls, n: NodeId, a: nat, retries: nat) {
    exists k: nat :: a <= k < retries && calls(n, k) in {Done, Lost(true)} && forall j: nat :: a <= j < k ==>
      calls(n, j).Lost?
  }

  /** The first attempt that takes effect is confirmed, so that the node can say whether it had the key. */
  ghost predicate Tells(calls: DeleteCalls, n: NodeId, a: nat, retries: nat) {
    exists k: nat :: a <= k < retries && calls(n, k) == Done && forall j: nat :: a <= j < k ==>
      calls(n, j) == Lost(false)
  }

  lemma NextAttempt(calls: DeleteCalls, n: NodeId, a: nat, retries: nat)
    requires a < retries
    ensures Erases(calls, n, a, retries) <==>
            calls(n, a) in {Done, Lost(true)} || (calls(n, a).Lost? && Erases(calls, n, a + 1, retries))
    ensures Tells(calls, n, a, retries) <==>
            calls(n, a) == Done || (calls(n, a) == Lost(false) && Tells(calls, n, a + 1, retries))
  {}

  /** What the attempts at one node do: exactly what is erased, and exactly when the key is reported deleted. */
  lemma {:induction false} DeleteAtFacts(data: Fleet, n: NodeId, key: string, calls: DeleteCalls, a: nat, retries: nat,
                                         m: NodeId, k: string)
    ensures var after := DeleteAt(data, n, key, calls, a, retries);
            && LookUp(after.0, m, k) ==
               (if m == n && k == key && Erases(calls, n, a, retries) then None else LookUp(data, m, k))
            && (after.1 <==> LookUp(data, n, key).Some? && Tells(calls, n, a, retries))
    decreases retries - a
  {
    if a < retries {
      NextAttempt(calls, n, a, retries);
      if calls(n, a).Lost? {
        var next := if calls(n, a).applied then EraseAt(data, n, key) else data;
        DeleteAtFacts(next, n, key, calls, a + 1, retries, m, k);
        if calls(n, a).applied {
          assert LookUp(next, n, key) == None;
        }
      }
    }
  }

  /** A delete erases its key at exactly the listed nodes that an effective attempt reached, and nothing else. */
  lemma {:induction false} DeleteAllFacts(data: Fleet, list: seq<NodeId>, key: string, calls: DeleteCalls, retries: nat,
                                          m: NodeId, k: string)
    ensures LookUp(DeleteAll(data, list, key, calls, retries).0, m, k) ==
            if k == key && m in list && Erases(calls, m, 0, retries) then None else LookUp(data, m, k)
  {
    if list == [] {
    } else {
      var last := |list| - 1;
      var before := DeleteAll(data, list[..last], key, calls, retries);
      DeleteAllFacts(data, list[..last], key, calls, retries, m, k);
      DeleteAtFacts(before.0, list[last], key, calls, 0, retries, m, k);
      assert m in list <==> m in list[..last] || m == list[last];
    }
  }

  /** The answer: `deleted` iff some listed node held the key and its first effective attempt was confirmed. */
  lemma {:induction false} DeletedFlagIff(data: Fleet, list: seq<NodeId>, key: string, calls: DeleteCalls, retries: nat)
    requires AllDistinct(list)
    ensures DeleteAll(data, list, key, calls, retries).1 <==>
            exists n :: n in list && LookUp(data, n, key).Some? && Tells(calls, n, 0, retries)
  {
    if list == [] {
    } else {
      var last := |list| - 1;
      var init, n := list[..last], list[last];
      var before := DeleteAll(data, init, key, calls, retries);
      DeletedFlagIff(data, init, key, calls, retries);
      DeleteAllFacts(data, init, key, calls, retries, n, key);
      DeleteAtFacts(before.0, n, key, calls, 0, retries, n, key);
      assert n !in init;
      assert forall x :: x in list <==> x in init || x == n;
    }
  }

  /** A confirmed delete is gone. */
  lemma ConfirmedIsErased(data: Fleet, list: seq<NodeId>, key: string, calls: DeleteCalls, retries: nat, n: NodeId)
    requires n in list && Confirms(calls, n, 0, retries)
    ensures LookUp(DeleteAll(data, list, key, calls, retries).0, n, key) == None
  {
    ConfirmsIff(calls, n, 0, retries);
    DeleteAllFacts(data, list, key, calls, retries, n, key);
  }

  lemma {:induction false} ReadNothingIff(data: Fleet, list: seq<NodeId>, key: string, calls: ReadCalls, retries: nat)
    ensures ReadFrom(data, list, key, calls, retries) == None <==>
            forall n :: n in list && Answers(calls, n, retries) ==> LookUp(data, n, key) == None
  {
    if list == [] {
    } else {
      ReadNothingIff(data, list[1..], key, calls, retries);
      assert forall n :: n in list <==> n == list[0] || n in list[1..];
    }
  }

  /**
   A delete confirmed by every node of its list stays deleted for a read of any later list `now`,
   exactly when no answering newcomer in it still held the key. Unlike a write, a delete does not
   survive failures: see `ConfirmedDeleteMayReturn`.
   */
  lemma ConfirmedDeleteHoldsIff(data: Fleet, list: seq<NodeId>, now: seq<NodeId>, key: string,
                                deletes: DeleteCalls, gets: ReadCalls, retries: nat)
    requires forall n :: n in list ==> Confirms(deletes, n, 0, retries)
    ensures ReadFrom(DeleteAll(data, list, key, deletes, retries).0, now, key, gets, retries) == None <==>
            forall n :: n in now && n !in list && Answers(gets, n, retries) ==> LookUp(data, n, key) == None
  {
    var after := DeleteAll(data, list, key, deletes, retries).0;
    forall n ensures LookUp(after, n, key) == if n in list then None else LookUp(data, n, key) {
      DeleteAllFacts(data, list, key, deletes, retries, n, key);
      if n in list {
        ConfirmedIsErased(data, list, key, deletes, retries, n);
      }
    }
    ReadNothingIff(after, now, key, gets, retries);
  }

  /** Whatever nodes are removed or fail after the delete, and whoever answers, a read finds nothing. */
  ghost predicate StaysDeleted(s: seq<Slot>, h: Position, factor: nat, retries: nat, dead: set<NodeId>, after: Fleet,
                               key: string) {
    forall removed: set<NodeId>, deadNow: set<NodeId>, gets: ReadCalls | dead <= deadNow + removed ::
      ReadFrom(after, AliveList(DropSlots(s, removed), h, deadNow, factor), key, gets, retries) == None
  }

  /** `n` could be read from later, is not asked to delete, and holds the key. */
  predicate KeepsCopy(s: seq<Slot>, h: Position, factor: nat, dead: set<NodeId>, data: Fleet, key: string, n: NodeId) {
    n in Clockwise(s, h) && n !in dead && n !in AliveList(s, h, dead, factor) && LookUp(data, n, key).Some?
  }

  /**
   The condition on the state before the delete: a confirmed delete holds through all failures to
   come if and only if no usable node of the ring outside its list holds a copy.
   */
  lemma ConfirmedDeleteHoldsForeverIff(s: seq<Slot>, h: Position, factor: nat, retries: nat, dead: set<NodeId>,
                                       data: Fleet, key: string, deletes: DeleteCalls)
    requires Sorted(s) && factor >= 1 && retries >= 1
    requires forall n :: n in AliveList(s, h, dead, factor) ==> Confirms(deletes, n, 0, retries)
    ensures var after := DeleteAll(data, AliveList(s, h, dead, factor), key, deletes, retries).0;
            StaysDeleted(s, h, factor, retries, dead, after, key)
            <==> forall n :: !KeepsCopy(s, h, factor, dead, data, key, n)
  {
    var list := AliveList(s, h, dead, factor);
    var after := DeleteAll(data, list, key, deletes, retries).0;
    if n :| KeepsCopy(s, h, factor, dead, data, key, n) {
      CopyIsReadBack(s, h, factor, retries, dead, data, key, deletes, n);
    } else {
      forall removed: set<NodeId>, deadNow: set<NodeId>, gets: ReadCalls | dead <= deadNow + removed
        ensures ReadFrom(after, AliveList(DropSlots(s, removed), h, deadNow, factor), key, gets, retries) == None
      {
        var now := AliveList(DropSlots(s, removed), h, deadNow, factor);
        ListedIsUsable(s, h, factor, removed, deadNow);
        forall n | n in now && n !in list ensures LookUp(data, n, key) == None {
          assert !KeepsCopy(s, h, factor, dead, data, key, n);
        }
        ConfirmedDeleteHoldsIff(data, list, now, key, deletes, gets, retries);
      }
    }
  }

  lemma ListedIsUsable(s: seq<Slot>, h: Position, factor: nat, removed: set<NodeId>, deadNow: set<NodeId>)
    requires Sorted(s) && factor >= 1
    ensures forall n :: n in AliveList(DropSlots(s, removed), h, deadNow, factor) ==>
              n in Clockwise(s, h) && n !in removed && n !in deadNow
  {
    var near := Candidates(DropSlots(s, removed), h, factor);
    RemovalOnlyDeletes(s, h, removed);
    WithoutFacts(Clockwise(s, h), removed);
    WithoutFacts(near, deadNow);
    TakeIsPart(Without(Clockwise(s, h), removed), factor + 2);
    TakeIsPart(Without(near, deadNow), factor);
  }

  lemma TakeIsPart(ids: seq<NodeId>, n: nat)
    ensures forall x :: x in Take(ids, n) ==> x in ids
  {
    forall x | x in Take(ids, n) ensures x in ids {
      var i :| 0 <= i < |Take(ids, n)| && Take(ids, n)[i] == x;
      assert ids[i] == x;
    }
  }

  /** Once every other node has been removed, the one with a copy is read. */
  lemma CopyIsReadBack(s: seq<Slot>, h: Position, factor: nat, retries: nat, dead: set<NodeId>,
                       data: Fleet, key: string, deletes: DeleteCalls, n: NodeId)
    requires Sorted(s) && factor >= 1 && retries >= 1
    requires KeepsCopy(s, h, factor, dead, data, key, n)
    ensures !StaysDeleted(s, h, factor, retries, dead,
      DeleteAll(data, AliveList(s, h, dead, factor), key, deletes, retries).0, key)
  {
    var list := AliveList(s, h, dead, factor);
    var after := DeleteAll(data, list, key, deletes, retries).0;
    var removed := (set x | x in Clockwise(s, h)) - {n};
    var gets: ReadCalls := (_, _) => Answered;
    var now := AliveList(DropSlots(s, removed), h, dead, factor);
    OnlyOneLeft(s, h, factor, removed, dead, n);
    assert gets(n, 0) == Answered;
    assert Answers(gets, n, retries);
    DeleteAllFacts(data, list, key, deletes, retries, n, key);
    ReadNothingIff(after, now, key, gets, retries);
    assert dead <= dead + removed;
  }

  lemma OnlyOneLeft(s: seq<Slot>, h: Position, factor: nat, removed: set<NodeId>, dead: set<NodeId>, n: NodeId)
    requires Sorted(s) && factor >= 1 && n in Clockwise(s, h) && n !in dead
    requires removed == (set x | x in Clockwise(s, h)) - {n}
    ensures n in AliveList(DropSlots(s, removed), h, dead, factor)
  {
    RemovalOnlyDeletes(s, h, removed);
    var left := Without(Clockwise(s, h), removed);
    WithoutFacts(Clockwise(s, h), removed);
    assert n in left && left[0] in left;
    var near := Candidates(DropSlots(s, removed), h, factor);
    assert near[0] == n && n in near;
    WithoutFacts(near, dead);
    var alive := Without(near, dead);
    assert n in alive && alive[0] in alive && alive[0] in near;
    assert forall x :: x in near ==> x in left;
    assert Take(alive, factor)[0] == n;
  }

  /**
   Two nodes, one replica: the key is deleted at its owner, the owner is removed, and an older value
   is read from the next node.
   */
  lemma ConfirmedDeleteMayReturn(a: NodeId, b: NodeId, key: string, stale: Item, latest: Item)
    requires a != b
    ensures var s := [Slot(1, a), Slot(2, b)];
            var data := map[a := map[key := latest], b := map[key := stale]];
            var list := AliveList(s, 0, {}, 1);
            var list' := AliveList(DropSlots(s, {a}), 0, {}, 1);
            && list == [a] && list' == [b]
            && ReadFrom(DeleteAll(data, list, key, (_, _) => Done, 1).0, list, key, (_, _) => Answered, 1) == None
            && ReadFrom(DeleteAll(data, list, key, (_, _) => Done, 1).0, list', key, (_, _) => Answered, 1) ==
                 Some(stale)
  {
    var s := [Slot(1, a), Slot(2, b)];
    var data: Fleet := map[a := map[key := latest], b := map[key := stale]];
    TwoSlots(a, b);
    var calls: DeleteCalls, gets: ReadCalls := (_, _) => Done, (_, _) => Answered;
    DeleteAllFacts(data, [a], key, calls, 1, a, key);
    DeleteAllFacts(data, [a], key, calls, 1, b, key);
    assert Confirms(calls, a, 0, 1);
    assert gets(b, 0) == Answered;
    assert Answers(gets, b, 1);
    assert [a][1..] == [];
  }

  lemma TwoSlots(a: NodeId, b: NodeId)
    requires a != b
    ensures var s := [Slot(1, a), Slot(2, b)];
            AliveList(s, 0, {}, 1) == [a] && AliveList(DropSlots(s, {a}), 0, {}, 1) == [b]
  {
    var s, t := [Slot(1, a), Slot(2, b)], [Slot(2, b)];
    assert s[1..] == t && t[1..] == [];
    assert Ids(t) == [b] && Ids(s) == [a, b];
    DistinctPair(a, b);
    assert [a, b] + [a, b] == [a, b, a, b] && [b] + [b] == [b, b];
    assert Clockwise(s, 0) == [a, b];
    assert DropSlots(t, {a}) == t && DropSlots(s, {a}) == t;
    assert Clockwise(t, 0) == [b];
    assert Without([b], {}) == [b] && Without([a, b], {}) == [a, b] by {
      assert [b][1..] == [] && [a, b][1..] == [b];
    }
  }

  lemma DistinctPair(a: NodeId, b: NodeId)
    requires a != b
    ensures Distinct([a, b, a, b], {}) == [a, b] && Distinct([b, b], {}) == [b]
  {
    DistinctCons(b, [], {a} + {b});
    DistinctCons(a, [b], {a} + {b});
    DistinctCons(b, [a] + [b], {a});
    DistinctCons(a, [b] + ([a] + [b]), {});
    DistinctCons(b, [], {b});
    DistinctCons(b, [b], {});
    assert {} + {a} == {a} && {} + {b} == {b} && [b] + [] == [b];
    assert [a, b, a, b] == [a] + ([b] + ([a] + [b])) && [b, b] == [b] + [b];
  }

  lemma DistinctCons(x: NodeId, rest: seq<NodeId>, seen: set<NodeId>)
    ensures Distinct([x] + rest, seen) == if x in seen then Distinct(rest, seen) else [x] + Distinct(rest, seen + {x})
  {
    assert ([x] + rest)[1..] == rest;
  }

  // ----- The coordinator -----------------------------------------------------

  datatype SetResult = Written | NoAliveNodeToWrite | PrimaryFailed

  datatype GetResult = Found(value: Bytes) | NotFound | NoAliveNodeToRead

  datatype DeleteResult = Deleted(any: bool) | NoAliveNodeToDelete

  class ReplicationCoordinator {
    const ring: HashRing
    const health: Health.HealthMonitor
    const factor: nat
    const retries: nat
    /** The stores of all nodes, changed only by the calls below. */
    var fleet: Fleet

    constructor (ring: HashRing, health: Health.HealthMonitor, factor: nat, retries: nat, fleet: Fleet)
      ensures this.ring == ring && this.health == health && this.factor == factor && this.retries == retries
      ensures this.fleet == fleet
    {
      this.ring := ring;
      this.health := health;
      this.factor := factor;
      this.retries := retries;
      this.fleet := fleet;
    }

    ghost function ListFor(key: string): seq<NodeId>
      reads ring, health
    {
      AliveList(ring.slots, ring.hashing.key(key), Health.NotAlive(health.nodes), factor)
    }

    method AlivePreferenceList(key: string) returns (list: seq<NodeId>)
      requires ring.Valid()
      ensures list == ListFor(key)
      ensures list == AliveList(ring.slots, ring.hashing.key(key), Health.NotAlive(health.nodes), factor)
    {
      var infos := ring.GetPreferenceList(key, factor + 2);
      ghost var cands := Candidates(ring.slots, ring.hashing.key(key), factor);
      ghost var dead := Health.NotAlive(health.nodes);
      list := [];
      var i := 0;
      while i < |infos|
        invariant i <= |infos| == |cands|
        invariant list == Without(cands[..i], dead)
        invariant i > 0 ==> |list| < factor
      {
        WithoutStep(cands, i, dead);
        var alive := health.IsAlive(infos[i].id);
        if alive {
          list := list + [infos[i].id];
        }
        i := i + 1;
        if |list| >= factor {
          WithoutSplit(cands, i, dead);
          return;
        }
      }
      assert cands[..i] == cands;
    }

    /** The attempts at one node. */
    method WriteTo(n: NodeId, key: string, item: Item, calls: WriteCalls) returns (success: bool)
      modifies this
      ensures success == Acks(calls, n, 0, retries)
      ensures fleet == if Applies(calls, n, 0, retries) then StoreAt(old(fleet), n, key, item) else old(fleet)
    {
      success := false;
      var attempt := 0;
      ghost var wrote := false;
      while attempt < retries
        invariant 0 <= attempt <= retries && !success
        invariant fleet == if wrote then StoreAt(old(fleet), n, key, item) else old(fleet)
        invariant Acks(calls, n, 0, retries) == Acks(calls, n, attempt, retries)
        invariant Applies(calls, n, 0, retries) == (wrote || Applies(calls, n, attempt, retries))
      {
        StoreTwice(old(fleet), n, key, item);
        match calls(n, attempt) {
          case Replied(ok) =>
            if ok {
              fleet := StoreAt(fleet, n, key, item);
              wrote := true;
            }
            success := ok;
            break;
          case CallFailed(applied) =>
            if applied {
              fleet := StoreAt(fleet, n, key, item);
              wrote := true;
            }
          case NoConnection =>
        }
        attempt := attempt + 1;
      }
    }

    /** Writes to every node of the list in turn; only the first node's acknowledgement decides the answer. */
    method Set(key: string, value: Bytes, ttlMs: Option<nat>, calls: WriteCalls)
      returns (result: SetResult, acks: seq<bool>)
      requires ring.Valid()
      modifies this
      ensures ListFor(key) == [] ==> result == NoAliveNodeToWrite && acks == [] && fleet == old(fleet)
      ensures ListFor(key) != [] ==>
        && |acks| == |ListFor(key)|
        && (forall i :: 0 <= i < |acks| ==> acks[i] == Acks(calls, ListFor(key)[i], 0, retries))
        && result == (if acks[0] then Written else PrimaryFailed)
        && fleet == WriteAll(old(fleet), ListFor(key), key, Item(value, ttlMs), calls, retries)
    {
      var list := AlivePreferenceList(key);
      var item := Item(value, ttlMs);
      acks := [];
      if list == [] {
        return NoAliveNodeToWrite, [];
      }
      var i := 0;
      while i < |list|
        invariant i <= |list| && |acks| == i
        invariant forall j :: 0 <= j < i ==> acks[j] == Acks(calls, list[j], 0, retries)
        invariant fleet == WriteAll(old(fleet), list[..i], key, item, calls, retries)
      {
        assert list[..i + 1][..i] == list[..i];
        var success := WriteTo(list[i], key, item, calls);
        acks := acks + [success];
        i := i + 1;
      }
      assert list[..i] == list;
      result := if acks[0] then Written else PrimaryFailed;
    }

    method Get(key: string, calls: ReadCalls) returns (result: GetResult)
      requires ring.Valid()
      ensures ListFor(key) == [] ==> result == NoAliveNodeToRead
      ensures ListFor(key) != [] ==>
        match ReadFrom(fleet, ListFor(key), key, calls, retries)
        case Some(item) => result == Found(item.value)
        case None => result == NotFound
    {
      var list := AlivePreferenceList(key);
      if list == [] {
        return NoAliveNodeToRead;
      }
      var i := 0;
      while i < |list|
        invariant i <= |list|
        invariant ReadFrom(fleet, list, key, calls, retries) == ReadFrom(fleet, list[i..], key, calls, retries)
      {
        var n := list[i];
        assert list[i..][0] == n && list[i..][1..] == list[i + 1..];
        var attempt := 0;
        while attempt < retries
          invariant 0 <= attempt <= retries
          invariant forall a: nat :: a < attempt ==> calls(n, a) != Answered
        {
          if calls(n, attempt) == Answered {
            assert Answers(calls, n, retries);
            var here := LookUp(fleet, n, key);
            if here.Some? {
              return Found(here.value.value);
            }
            break;
          }
          attempt := attempt + 1;
        }
        i := i + 1;
      }
      result := NotFound;
    }

    method Delete(key: string, calls: DeleteCalls) returns (result: DeleteResult)
      requires ring.Valid()
      modifies this
      ensures ListFor(key) == [] ==> result == NoAliveNodeToDelete && fleet == old(fleet)
      ensures ListFor(key) != [] ==>
        && fleet == DeleteAll(old(fleet), ListFor(key), key, calls, retries).0
        && result == Deleted(DeleteAll(old(fleet), ListFor(key), key, calls, retries).1)
        && (result.any <==> exists n ::
              n in ListFor(key) && LookUp(old(fleet), n, key).Some? && Tells(calls, n, 0, retries))
    {
      var list := AlivePreferenceList(key);
      if list == [] {
        return NoAliveNodeToDelete;
      }
      var any := false;
      var i := 0;
      while i < |list|
        invariant i <= |list|
        invariant (fleet, any) == DeleteAll(old(fleet), list[..i], key, calls, retries)
      {
        assert list[..i + 1][..i] == list[..i];
        var n := list[i];
        ghost var before, anyBefore := fleet, any;
        var attempt := 0;
        while attempt < retries
          invariant 0 <= attempt <= retries
          invariant any == anyBefore
          invariant DeleteAt(before, n, key, calls, 0, retries) == DeleteAt(fleet, n, key, calls, attempt, retries)
        {
          match calls(n, attempt) {
            case Done =>
              if LookUp(fleet, n, key).Some? {
                any := true;
              }
              fleet := EraseAt(fleet, n, key);
              break;
            case Lost(applied) =>
              if applied {
                fleet := EraseAt(fleet, n, key);
              }
            case NoLink =>
              break;
          }
          attempt := attempt + 1;
        }
        i := i + 1;
      }
      assert list[..i] == list;
      ListIsDistinct(ring.slots, ring.hashing.key(key), Health.NotAlive(health.nodes), factor);
      DeletedFlagIff(old(fleet), list, key, calls, retries);
      result := Deleted(any);
    }
  }
}
