/**
 The consistent-hash ring with virtual nodes (hashring.rs).

 The ordered position map is a sequence of slots in ascending position order. The hash is a
 parameter, so two virtual nodes may share a position; the later insertion then takes it over.
 */
module HashRing {
  import opened Common

  type Position = p: nat | p < 0x1_0000_0000_0000_0000

  const DEFAULT_VNODE_COUNT: nat := 150

  /** The two uses of the hash function: keys and virtual nodes. */
  datatype Hashing = Hashing(key: string -> Position, vnode: (NodeId, nat) -> Position)

  datatype Slot = Slot(pos: Position, id: NodeId)

  datatype Ring = Ring(slots: seq<Slot>, nodes: seq<NodeInfo>)

  ghost predicate Sorted(s: seq<Slot>) {
    forall i, j :: 0 <= i < j < |s| ==> s[i].pos < s[j].pos
  }

  /** The map view of the slots: who holds a position. */
  function Holder(s: seq<Slot>, p: Position): Option<NodeId> {
    if s == [] then None else if s[0].pos == p then Some(s[0].id) else Holder(s[1..], p)
  }

  // ----- Ordered-map operations ---------------------------------------------

  function Insert(s: seq<Slot>, p: Position, id: NodeId): seq<Slot> {
    if s == [] then [Slot(p, id)]
    else if p < s[0].pos then [Slot(p, id)] + s
    else if p == s[0].pos then [Slot(p, id)] + s[1..]
    else [s[0]] + Insert(s[1..], p, id)
  }

  /** Drops the slots of the given nodes, as `retain` does. */
  function DropSlots(s: seq<Slot>, gone: set<NodeId>): seq<Slot> {
    if s == [] then []
    else if s[0].id in gone then DropSlots(s[1..], gone)
    else [s[0]] + DropSlots(s[1..], gone)
  }

  /** The slots at or after position `h`. */
  function From(s: seq<Slot>, h: Position): seq<Slot> {
    if s == [] then [] else if s[0].pos >= h then s else From(s[1..], h)
  }

  lemma {:induction false} SortedTail(s: seq<Slot>)
    requires Sorted(s) && s != []
    ensures Sorted(s[1..])
    ensures forall x :: x in s[1..] ==> s[0].pos < x.pos
  {}

  lemma {:induction false} SortedCons(x: Slot, s: seq<Slot>)
    requires Sorted(s) && (s == [] || x.pos < s[0].pos)
    ensures Sorted([x] + s)
  {
    forall i, j | 0 <= i < j < |[x] + s| ensures ([x] + s)[i].pos < ([x] + s)[j].pos {
      assert ([x] + s)[j] == s[j - 1];
    }
  }

  lemma {:induction false} InsertSorted(s: seq<Slot>, p: Position, id: NodeId)
    requires Sorted(s)
    ensures Sorted(Insert(s, p, id))
    ensures Insert(s, p, id) != []
    ensures Insert(s, p, id)[0].pos == if s == [] then p else Min(p, s[0].pos)
    ensures forall x :: x in Insert(s, p, id) ==> x == Slot(p, id) || x in s
  {
    if s == [] {
    } else {
      SortedTail(s);
      if p < s[0].pos {
        SortedCons(Slot(p, id), s);
      } else if p == s[0].pos {
        SortedCons(Slot(p, id), s[1..]);
      } else {
        InsertSorted(s[1..], p, id);
        SortedCons(s[0], Insert(s[1..], p, id));
      }
    }
  }

  lemma {:induction false} HolderAbsent(s: seq<Slot>, p: Position)
    requires forall x :: x in s ==> x.pos != p
    ensures Holder(s, p) == None
  {
    if s == [] {
    } else {
      HolderAbsent(s[1..], p);
    }
  }

  lemma {:induction false} HolderFound(s: seq<Slot>, x: Slot)
    requires Sorted(s) && x in s
    ensures Holder(s, x.pos) == Some(x.id)
  {
    if x != s[0] {
      SortedTail(s);
      HolderFound(s[1..], x);
    }
  }

  lemma {:induction false} HolderIsSlot(s: seq<Slot>, p: Position)
    requires Holder(s, p).Some?
    ensures Slot(p, Holder(s, p).value) in s
  {
    if s[0].pos != p { HolderIsSlot(s[1..], p); }
  }

  /** Insertion is map update. */
  lemma {:induction false} InsertHolder(s: seq<Slot>, p: Position, id: NodeId, q: Position)
    requires Sorted(s)
    ensures Holder(Insert(s, p, id), q) == if q == p then Some(id) else Holder(s, q)
  {
    if s == [] {
    } else {
      SortedTail(s);
      if p < s[0].pos {
        assert ([Slot(p, id)] + s)[1..] == s;
        if q == p { HolderAbsent(s, p); }
      } else if p == s[0].pos {
        assert ([Slot(p, id)] + s[1..])[1..] == s[1..];
      } else {
        InsertHolder(s[1..], p, id, q);
      }
    }
  }

  /** Sorted slots are determined by their map view. */
  lemma {:induction false} SameHolders(s: seq<Slot>, t: seq<Slot>)
    requires Sorted(s) && Sorted(t) && forall p: Position :: Holder(s, p) == Holder(t, p)
    ensures s == t
  {
    if s == [] || t == [] {
      if s == [] {
      } else {
        HolderFound(s, s[0]);
      }
      if t == [] {
      } else {
        HolderFound(t, t[0]);
      }
    } else {
      SortedTail(s);
      SortedTail(t);
      HolderFound(s, s[0]);
      HolderFound(t, t[0]);
      HolderIsSlot(t, s[0].pos);
      HolderIsSlot(s, t[0].pos);
      assert s[0] == t[0];
      forall p: Position ensures Holder(s[1..], p) == Holder(t[1..], p) {
        if p == s[0].pos {
          HolderAbsent(s[1..], p);
          HolderAbsent(t[1..], p);
        } else {
          assert Holder(s, p) == Holder(t, p);
        }
      }
      SameHolders(s[1..], t[1..]);
    }
  }

  lemma {:induction false} DropSorted(s: seq<Slot>, gone: set<NodeId>)
    requires Sorted(s)
    ensures Sorted(DropSlots(s, gone))
    ensures forall x :: x in DropSlots(s, gone) <==> x in s && x.id !in gone
  {
    if s == [] {
    } else {
      SortedTail(s);
      DropSorted(s[1..], gone);
      var rest := DropSlots(s[1..], gone);
      if s[0].id !in gone {
        assert rest != [] ==> rest[0] in s[1..];
        SortedCons(s[0], rest);
      }
    }
  }

  lemma DropHolder(s: seq<Slot>, gone: set<NodeId>, p: Position)
    requires Sorted(s)
    ensures Holder(DropSlots(s, gone), p) ==
            match Holder(s, p) case Some(id) => if id in gone then None else Some(id) case None => None
  {
    DropSorted(s, gone);
    var d := DropSlots(s, gone);
    if Holder(s, p).Some? {
      var id := Holder(s, p).value;
      HolderIsSlot(s, p);
      if id !in gone {
        HolderFound(d, Slot(p, id));
      }
    }
    if Holder(d, p).Some? {
      HolderIsSlot(d, p);
      HolderFound(s, Slot(p, Holder(d, p).value));
    }
  }

  // ----- Adding a node -------------------------------------------------------

  function AddVnodes(h: Hashing, s: seq<Slot>, id: NodeId, count: nat): seq<Slot> {
    if count == 0 then s
    else Insert(AddVnodes(h, s, id, count - 1), h.vnode(id, count - 1), id)
  }

  /** The positions a node's virtual nodes hash to. */
  function Positions(h: Hashing, id: NodeId, count: nat): set<Position> {
    set i: nat | i < count :: h.vnode(id, i)
  }

  lemma {:induction false} AddVnodesHolder(h: Hashing, s: seq<Slot>, id: NodeId, count: nat)
    requires Sorted(s)
    ensures Sorted(AddVnodes(h, s, id, count))
    ensures forall q: Position ::
      Holder(AddVnodes(h, s, id, count), q) == if q in Positions(h, id, count) then Some(id) else Holder(s, q)
  {
    if count == 0 {
    } else {
      AddVnodesHolder(h, s, id, count - 1);
      var before := AddVnodes(h, s, id, count - 1);
      var p := h.vnode(id, count - 1);
      InsertSorted(before, p, id);
      assert Positions(h, id, count) == Positions(h, id, count - 1) + {p};
      forall q: Position
        ensures Holder(Insert(before, p, id), q) == if q in Positions(h, id, count) then Some(id) else Holder(s, q)
      {
        InsertHolder(before, p, id, q);
      }
    }
  }

  /** None of the node's virtual nodes lands on a position somebody holds. */
  ghost predicate NoCollision(h: Hashing, s: seq<Slot>, id: NodeId, count: nat) {
    forall p :: p in Positions(h, id, count) ==> Holder(s, p) == None
  }

  ghost predicate Absent(s: seq<Slot>, id: NodeId) {
    forall x :: x in s ==> x.id != id
  }

  /** Adding an absent node and removing it again restores the ring exactly when there was no collision. */
  lemma AddThenRemove(h: Hashing, s: seq<Slot>, id: NodeId, count: nat)
    requires Sorted(s) && Absent(s, id)
    ensures DropSlots(AddVnodes(h, s, id, count), {id}) == s <==> NoCollision(h, s, id, count)
  {
    var added := AddVnodes(h, s, id, count);
    AddVnodesHolder(h, s, id, count);
    var back := DropSlots(added, {id});
    DropSorted(added, {id});
    forall p: Position ensures Holder(back, p) == if p in Positions(h, id, count) then None else Holder(s, p) {
      DropHolder(added, {id}, p);
      if Holder(s, p).Some? { HolderIsSlot(s, p); }
    }
    if NoCollision(h, s, id, count) {
      SameHolders(back, s);
    }
  }

  // ----- Walking clockwise ---------------------------------------------------

  function Ids(s: seq<Slot>): seq<NodeId> {
    if s == [] then [] else [s[0].id] + Ids(s[1..])
  }

  /** First occurrences, in order, of ids not in `seen`. */
  function Distinct(ids: seq<NodeId>, seen: set<NodeId>): seq<NodeId> {
    if ids == [] then []
    else if ids[0] in seen then Distinct(ids[1..], seen)
    else [ids[0]] + Distinct(ids[1..], seen + {ids[0]})
  }

  function Without(ids: seq<NodeId>, gone: set<NodeId>): seq<NodeId> {
    if ids == [] then []
    else if ids[0] in gone then Without(ids[1..], gone)
    else [ids[0]] + Without(ids[1..], gone)
  }

  function Take<T>(s: seq<T>, n: nat): seq<T> { s[..Min(n, |s|)] }

  /** All physical nodes in clockwise order from position `h`. */
  function Clockwise(s: seq<Slot>, h: Position): seq<NodeId> {
    Distinct(Ids(From(s, h)) + Ids(s), {})
  }

  /** The node responsible for position `h`. */
  function Owner(s: seq<Slot>, h: Position): Option<NodeId> {
    if s == [] then None
    else if From(s, h) != [] then Some(From(s, h)[0].id)
    else Some(s[0].id)
  }

  lemma {:induction false} IdsConcat(s: seq<Slot>, t: seq<Slot>)
    ensures Ids(s + t) == Ids(s) + Ids(t)
  {
    if s == [] {
      assert s + t == t;
    } else {
      assert (s + t)[1..] == s[1..] + t;
      IdsConcat(s[1..], t);
    }
  }

  lemma {:induction false} IdsAt(s: seq<Slot>)
    ensures |Ids(s)| == |s|
    ensures forall i :: 0 <= i < |s| ==> Ids(s)[i] == s[i].id
  {
    if s == [] {
    } else {
      IdsAt(s[1..]);
    }
  }

  lemma {:induction false} IdsDrop(s: seq<Slot>, gone: set<NodeId>)
    ensures Ids(DropSlots(s, gone)) == Without(Ids(s), gone)
  {
    if s == [] {
    } else {
      IdsDrop(s[1..], gone);
      if s[0].id !in gone {
        assert DropSlots(s, gone)[1..] == DropSlots(s[1..], gone);
      }
    }
  }

  lemma {:induction false} WithoutConcat(a: seq<NodeId>, b: seq<NodeId>, gone: set<NodeId>)
    ensures Without(a + b, gone) == Without(a, gone) + Without(b, gone)
  {
    if a == [] {
      assert a + b == b;
    } else {
      assert (a + b)[1..] == a[1..] + b;
      WithoutConcat(a[1..], b, gone);
    }
  }

  lemma {:induction false} FromDrop(s: seq<Slot>, h: Position, gone: set<NodeId>)
    requires Sorted(s)
    ensures From(DropSlots(s, gone), h) == DropSlots(From(s, h), gone)
  {
    if s == [] {
    } else {
      SortedTail(s);
      DropSorted(s[1..], gone);
      FromDrop(s[1..], h, gone);
      var rest := DropSlots(s[1..], gone);
      if s[0].pos >= h {
        assert rest != [] ==> rest[0] in s[1..];
      } else if s[0].id !in gone {
        assert DropSlots(s, gone)[1..] == rest;
      }
    }
  }

  lemma {:induction false} DistinctWithout(ids: seq<NodeId>, seen: set<NodeId>, seen': set<NodeId>, gone: set<NodeId>)
    requires forall x :: x !in gone ==> (x in seen <==> x in seen')
    ensures Without(Distinct(ids, seen), gone) == Distinct(Without(ids, gone), seen')
  {
    if ids == [] {
    } else {
      var x := ids[0];
      if x in seen {
        DistinctWithout(ids[1..], seen, seen', gone);
      } else if x in gone {
        DistinctWithout(ids[1..], seen + {x}, seen', gone);
      } else {
        DistinctWithout(ids[1..], seen + {x}, seen' + {x}, gone);
      }
    }
  }

  /** Removing nodes deletes them from every key's clockwise list and changes nothing else. */
  lemma RemovalOnlyDeletes(s: seq<Slot>, h: Position, gone: set<NodeId>)
    requires Sorted(s)
    ensures Clockwise(DropSlots(s, gone), h) == Without(Clockwise(s, h), gone)
  {
    FromDrop(s, h, gone);
    IdsDrop(s, gone);
    IdsDrop(From(s, h), gone);
    WithoutConcat(Ids(From(s, h)), Ids(s), gone);
    DistinctWithout(Ids(From(s, h)) + Ids(s), {}, {}, gone);
  }

  lemma {:induction false} DistinctFacts(ids: seq<NodeId>, seen: set<NodeId>)
    ensures forall x :: x in Distinct(ids, seen) <==> x in ids && x !in seen
    ensures forall i, j :: 0 <= i < j < |Distinct(ids, seen)| ==> Distinct(ids, seen)[i] != Distinct(ids, seen)[j]
  {
    if ids == [] {
    } else {
      if ids[0] in seen {
        DistinctFacts(ids[1..], seen);
      } else {
        DistinctFacts(ids[1..], seen + {ids[0]});
        var rest := Distinct(ids[1..], seen + {ids[0]});
        assert forall x :: x in ids <==> x == ids[0] || x in ids[1..];
        assert forall i :: 0 <= i < |rest| ==> rest[i] in rest;
      }
    }
  }

  lemma FromIsSuffix(s: seq<Slot>, h: Position)
    ensures forall x :: x in From(s, h) ==> x in s
  {}

  lemma {:induction false} FromFacts(s: seq<Slot>, k: Position)
    requires Sorted(s)
    ensures forall x :: x in From(s, k) <==> x in s && x.pos >= k
    ensures Sorted(From(s, k))
  {
    if s == [] {
    } else {
      SortedTail(s);
      FromFacts(s[1..], k);
      assert forall x :: x in s <==> x == s[0] || x in s[1..];
    }
  }

  /** Walking clockwise from `h`, position `p` is met before position `q`. */
  predicate Ahead(h: Position, p: Position, q: Position) {
    if (p >= h) == (q >= h) then p < q else p >= h
  }

  /** First occurrences keep their order: some `D[i]` stands before every `D[j]`. */
  lemma {:induction false} DistinctOrder(ids: seq<NodeId>, seen: set<NodeId>, i: nat, j: nat) returns (p: nat)
    requires i < j < |Distinct(ids, seen)|
    ensures p < |ids| && ids[p] == Distinct(ids, seen)[i]
    ensures forall q :: 0 <= q < |ids| && ids[q] == Distinct(ids, seen)[j] ==> p < q
  {
    var d := Distinct(ids, seen);
    DistinctFacts(ids, seen);
    assert d[j] in d && d[0] != d[j];
    if ids[0] !in seen && i == 0 {
      p := 0;
    } else {
      if ids[0] in seen {
        p := DistinctOrder(ids[1..], seen, i, j);
      } else {
        p := DistinctOrder(ids[1..], seen + {ids[0]}, i - 1, j - 1);
      }
      assert forall q :: 0 < q < |ids| ==> ids[q] == ids[1..][q - 1];
      p := p + 1;
    }
  }

  /** The slots met on the walk, in order. */
  function Walk(s: seq<Slot>, h: Position): seq<Slot> { From(s, h) + s }

  /** Where a slot is first met, and that only slots ahead of it are met earlier. */
  lemma MetAt(s: seq<Slot>, h: Position, b: Slot) returns (q: nat)
    requires Sorted(s) && b in s
    ensures q < |Walk(s, h)| && Walk(s, h)[q] == b
    ensures forall p :: 0 <= p < q ==> Ahead(h, Walk(s, h)[p].pos, b.pos)
  {
    var f := From(s, h);
    FromFacts(s, h);
    if b.pos >= h {
      assert b in f;
      q :| 0 <= q < |f| && f[q] == b;
      forall p | 0 <= p < q ensures Ahead(h, Walk(s, h)[p].pos, b.pos) {
        assert f[p] in f;
      }
    } else {
      var i :| 0 <= i < |s| && s[i] == b;
      q := |f| + i;
      forall p | 0 <= p < q ensures Ahead(h, Walk(s, h)[p].pos, b.pos) {
        if p < |f| {
          assert f[p] in f;
        } else {
          assert Walk(s, h)[p] == s[p - |f|];
        }
      }
    }
  }

  /** The clockwise list is in clockwise order: an earlier node has a slot ahead of all slots of a later one. */
  lemma ClockwiseIsInOrder(s: seq<Slot>, h: Position, i: nat, j: nat)
    requires Sorted(s) && i < j < |Clockwise(s, h)|
    ensures exists a :: a in s && a.id == Clockwise(s, h)[i]
                        && forall b :: b in s && b.id == Clockwise(s, h)[j] ==> Ahead(h, a.pos, b.pos)
  {
    var walk, list := Walk(s, h), Clockwise(s, h);
    IdsConcat(From(s, h), s);
    IdsAt(walk);
    var p := DistinctOrder(Ids(walk), {}, i, j);
    FromFacts(s, h);
    var a := walk[p];
    assert a in walk && a in s && a.id == list[i];
    forall b | b in s && b.id == list[j] ensures Ahead(h, a.pos, b.pos) {
      var q := MetAt(s, h, b);
      assert Ids(walk)[q] == list[j];
    }
  }

  /** The clockwise list names every node holding a slot exactly once, and starts at the owner. */
  lemma ClockwiseFacts(s: seq<Slot>, h: Position)
    ensures forall x :: x in Clockwise(s, h) <==> exists i :: 0 <= i < |s| && s[i].id == x
    ensures forall i, j :: 0 <= i < j < |Clockwise(s, h)| ==> Clockwise(s, h)[i] != Clockwise(s, h)[j]
    ensures Owner(s, h) == if Clockwise(s, h) == [] then None else Some(Clockwise(s, h)[0])
  {
    var f := From(s, h);
    DistinctFacts(Ids(f) + Ids(s), {});
    IdsAt(s);
    IdsAt(f);
    FromIsSuffix(s, h);
    forall x ensures x in Ids(f) + Ids(s) <==> exists i :: 0 <= i < |s| && s[i].id == x {
      if x in Ids(f) {
        var i :| 0 <= i < |f| && Ids(f)[i] == x;
        assert f[i] in s;
      }
      if i :| 0 <= i < |s| && s[i].id == x {
        assert Ids(s)[i] == x;
      }
    }
    if s == [] {
      assert Ids(f) + Ids(s) == [];
    } else {
      var w := Ids(f) + Ids(s);
      assert w[0] == if f != [] then f[0].id else s[0].id;
    }
  }

  // ----- Minimal disruption --------------------------------------------------

  lemma {:induction false} InsertFrom(s: seq<Slot>, p: Position, id: NodeId, h: Position)
    requires Sorted(s)
    ensures var f, f' := From(s, h), From(Insert(s, p, id), h);
            && (f' == [] ==> f == [])
            && (f' != [] ==> f'[0].id == id || (f != [] && f'[0].id == f[0].id))
  {
    if s == [] {
    } else {
      SortedTail(s);
      InsertFrom(s[1..], p, id, h);
      if p > s[0].pos {
        assert Insert(s, p, id)[1..] == Insert(s[1..], p, id);
      } else if p < s[0].pos {
        assert Insert(s, p, id)[1..] == s;
      } else {
        assert Insert(s, p, id)[1..] == s[1..];
      }
    }
  }

  lemma InsertOwner(s: seq<Slot>, p: Position, id: NodeId, h: Position)
    requires Sorted(s)
    ensures Owner(Insert(s, p, id), h) in {Owner(s, h), Some(id)}
  {
    InsertFrom(s, p, id, h);
  }

  /** Adding a node leaves each key's owner alone or makes it the new node, whatever collides. */
  lemma {:induction false} AddingMovesOnlyToNewNode(h: Hashing, s: seq<Slot>, id: NodeId, count: nat, k: Position)
    requires Sorted(s)
    ensures Owner(AddVnodes(h, s, id, count), k) in {Owner(s, k), Some(id)}
  {
    if count == 0 {
    } else {
      AddingMovesOnlyToNewNode(h, s, id, count - 1, k);
      AddVnodesHolder(h, s, id, count - 1);
      InsertOwner(AddVnodes(h, s, id, count - 1), h.vnode(id, count - 1), id, k);
    }
  }

  lemma {:induction false} WithoutOne(ids: seq<NodeId>, id: NodeId)
    requires forall i, j :: 0 <= i < j < |ids| ==> ids[i] != ids[j]
    requires id in ids
    ensures exists i :: 0 <= i < |ids| && ids[i] == id && Without(ids, {id}) == ids[..i] + ids[i + 1..]
  {
    if ids[0] == id {
      WithoutNothing(ids[1..], id);
      assert ids[..0] + ids[0 + 1..] == ids[1..];
    } else {
      WithoutOne(ids[1..], id);
      var i :| 0 <= i < |ids[1..]| && ids[1..][i] == id && Without(ids[1..], {id}) == ids[1..][..i] + ids[1..][i + 1..];
      DropFromTail(ids, i);
    }
  }

  lemma DropFromTail(ids: seq<NodeId>, i: nat)
    requires i + 1 < |ids|
    ensures ids[1..][i] == ids[i + 1]
    ensures ids[..i + 1] + ids[i + 1 + 1..] == [ids[0]] + (ids[1..][..i] + ids[1..][i + 1..])
  {
    assert ids[..i + 1] == [ids[0]] + ids[1..][..i] && ids[1..][i + 1..] == ids[i + 2..];
  }

  lemma {:induction false} WithoutNothing(ids: seq<NodeId>, id: NodeId)
    requires id !in ids
    ensures Without(ids, {id}) == ids
  {
    if ids == [] {
    } else {
      WithoutNothing(ids[1..], id);
    }
  }

  /** `longer` is `shorter` with `id` put in somewhere. */
  ghost predicate InsertedInto(shorter: seq<NodeId>, id: NodeId, longer: seq<NodeId>) {
    exists i :: 0 <= i <= |shorter| && longer == shorter[..i] + [id] + shorter[i..]
  }

  lemma PutBack(shorter: seq<NodeId>, longer: seq<NodeId>, i: nat)
    requires i < |longer| && shorter == longer[..i] + longer[i + 1..]
    ensures longer == shorter[..i] + [longer[i]] + shorter[i..]
  {}

  lemma InsertionFromRemoval(shorter: seq<NodeId>, id: NodeId, longer: seq<NodeId>)
    requires forall i, j :: 0 <= i < j < |longer| ==> longer[i] != longer[j]
    requires id in longer && Without(longer, {id}) == shorter
    ensures InsertedInto(shorter, id, longer)
  {
    WithoutOne(longer, id);
    var i :| 0 <= i < |longer| && longer[i] == id && shorter == longer[..i] + longer[i + 1..];
    PutBack(shorter, longer, i);
  }

  lemma AddedIsListed(h: Hashing, s: seq<Slot>, id: NodeId, count: nat, k: Position)
    requires Sorted(s) && count > 0
    ensures id in Clockwise(AddVnodes(h, s, id, count), k)
  {
    var added := AddVnodes(h, s, id, count);
    AddVnodesHolder(h, s, id, count);
    ClockwiseFacts(added, k);
    var p := h.vnode(id, 0);
    assert p in Positions(h, id, count);
    HolderIsSlot(added, p);
    var i :| 0 <= i < |added| && added[i] == Slot(p, id);
    assert added[i].id == id;
  }

  /** Without a collision, adding an absent node only puts it into each key's clockwise list. */
  lemma AddingOnlyInserts(h: Hashing, s: seq<Slot>, id: NodeId, count: nat, k: Position)
    requires Sorted(s) && Absent(s, id) && NoCollision(h, s, id, count) && count > 0
    ensures InsertedInto(Clockwise(s, k), id, Clockwise(AddVnodes(h, s, id, count), k))
  {
    var added := AddVnodes(h, s, id, count);
    var before, after := Clockwise(s, k), Clockwise(added, k);
    AddVnodesHolder(h, s, id, count);
    AddThenRemove(h, s, id, count);
    RemovalOnlyDeletes(added, k, {id});
    ClockwiseFacts(added, k);
    AddedIsListed(h, s, id, count, k);
    InsertionFromRemoval(before, id, after);
  }

  /**
   Hence at most one replica of each key changes: the first `n` nodes stay, or their last makes room
   for the new one.
   */
  lemma OneReplicaChanges(h: Hashing, s: seq<Slot>, id: NodeId, count: nat, k: Position, n: nat)
    requires Sorted(s) && Absent(s, id) && NoCollision(h, s, id, count) && count > 0 && n > 0
    ensures var old', new' := Take(Clockwise(s, k), n), Take(Clockwise(AddVnodes(h, s, id, count), k), n);
            new' == old' || InsertedInto(Take(Clockwise(s, k), n - 1), id, new')
  {
    AddingOnlyInserts(h, s, id, count, k);
    TakeOfInserted(Clockwise(s, k), id, Clockwise(AddVnodes(h, s, id, count), k), n);
  }

  lemma TakeOfInserted(before: seq<NodeId>, id: NodeId, after: seq<NodeId>, n: nat)
    requires InsertedInto(before, id, after) && n > 0
    ensures Take(after, n) == Take(before, n) || InsertedInto(Take(before, n - 1), id, Take(after, n))
  {
    var i :| 0 <= i <= |before| && after == before[..i] + [id] + before[i..];
    if i < n {
      var kept := Take(before, n - 1);
      assert Take(after, n) == kept[..i] + [id] + kept[i..];
    } else {
      assert Take(after, n) == Take(before, n);
    }
  }

  // ----- The mutable ring ----------------------------------------------------

  function FindInfo(nodes: seq<NodeInfo>, id: NodeId): Option<NodeInfo> {
    if nodes == [] then None
    else if nodes[0].id == id then Some(nodes[0])
    else FindInfo(nodes[1..], id)
  }

  predicate ContainsNode(nodes: seq<NodeInfo>, id: NodeId) {
    exists i :: 0 <= i < |nodes| && nodes[i].id == id
  }

  function DropInfos(nodes: seq<NodeInfo>, id: NodeId): seq<NodeInfo> {
    if nodes == [] then []
    else if nodes[0].id == id then DropInfos(nodes[1..], id)
    else [nodes[0]] + DropInfos(nodes[1..], id)
  }

  function Infos(nodes: seq<NodeInfo>, ids: seq<NodeId>): seq<NodeInfo> {
    if ids == [] then []
    else (match FindInfo(nodes, ids[0]) case Some(info) => [info] case None => []) + Infos(nodes, ids[1..])
  }

  function AddNode(h: Hashing, vnodes: nat, r: Ring, info: NodeInfo): Ring {
    Ring(AddVnodes(h, r.slots, info.id, vnodes), r.nodes + [info])
  }

  lemma {:induction false} DropNothing(s: seq<Slot>, gone: set<NodeId>)
    requires forall i :: 0 <= i < |s| ==> s[i].id !in gone
    ensures DropSlots(s, gone) == s
  {
    if s == [] {
    } else {
      DropNothing(s[1..], gone);
    }
  }

  /** Adds the nodes one after the other. */
  function AddNodes(h: Hashing, vnodes: nat, r: Ring, infos: seq<NodeInfo>): Ring {
    if infos == [] then r
    else AddNode(h, vnodes, AddNodes(h, vnodes, r, infos[..|infos| - 1]), infos[|infos| - 1])
  }

  /** The ring of these nodes, added in this order. */
  function RingOf(h: Hashing, vnodes: nat, infos: seq<NodeInfo>): Ring {
    AddNodes(h, vnodes, Ring([], []), infos)
  }

  function RemoveNode(r: Ring, id: NodeId): Ring {
    Ring(DropSlots(r.slots, {id}), DropInfos(r.nodes, id))
  }

  /** Slots are in order and every slot's node is listed. */
  ghost predicate WellFormed(r: Ring) {
    && Sorted(r.slots)
    && forall i :: 0 <= i < |r.slots| ==> ContainsNode(r.nodes, r.slots[i].id)
  }

  lemma {:induction false} FindInfoFinds(nodes: seq<NodeInfo>, id: NodeId)
    ensures match FindInfo(nodes, id)
            case Some(info) => info.id == id && info in nodes
            case None => !ContainsNode(nodes, id)
  {
    if nodes == [] {
    } else {
      FindInfoFinds(nodes[1..], id);
      if i :| 0 <= i < |nodes| && nodes[i].id == id && i > 0 {
        assert nodes[1..][i - 1].id == id;
      }
    }
  }

  /** It is the first listing of the id. */
  lemma {:induction false} FindInfoIsFirst(nodes: seq<NodeInfo>, id: NodeId, i: nat)
    requires i < |nodes| && nodes[i].id == id && forall j :: 0 <= j < i ==> nodes[j].id != id
    ensures FindInfo(nodes, id) == Some(nodes[i])
  {
    if i == 0 {
    } else {
      assert nodes[1..][i - 1] == nodes[i];
      FindInfoIsFirst(nodes[1..], id, i - 1);
    }
  }

  lemma {:induction false} FindInfoAppend(nodes: seq<NodeInfo>, info: NodeInfo, id: NodeId)
    ensures FindInfo(nodes + [info], id) ==
            if FindInfo(nodes, id).Some? then FindInfo(nodes, id) else if info.id == id then Some(info) else None
  {
    if nodes == [] {
      assert [] + [info] == [info] && [info][1..] == [];
    } else {
      assert (nodes + [info])[1..] == nodes[1..] + [info];
      FindInfoAppend(nodes[1..], info, id);
    }
  }

  lemma {:induction false} FindInfoDrop(nodes: seq<NodeInfo>, gone: NodeId, id: NodeId)
    ensures FindInfo(DropInfos(nodes, gone), id) == if id == gone then None else FindInfo(nodes, id)
  {
    if nodes == [] {
    } else {
      FindInfoDrop(nodes[1..], gone, id);
      if nodes[0].id != gone {
        assert DropInfos(nodes, gone)[1..] == DropInfos(nodes[1..], gone);
      }
    }
  }

  lemma {:induction false} DropInfosKeepsOthers(nodes: seq<NodeInfo>, id: NodeId)
    ensures forall x :: x in DropInfos(nodes, id) <==> x in nodes && x.id != id
  {
    if nodes == [] {
    } else {
      DropInfosKeepsOthers(nodes[1..], id);
    }
  }

  lemma ContainsIsMember(nodes: seq<NodeInfo>, id: NodeId)
    ensures ContainsNode(nodes, id) <==> exists x :: x in nodes && x.id == id
  {}

  lemma {:induction false} AddVnodesSlots(h: Hashing, s: seq<Slot>, id: NodeId, count: nat)
    requires Sorted(s)
    ensures forall x :: x in AddVnodes(h, s, id, count) ==> x.id == id || x in s
  {
    if count == 0 {
    } else {
      AddVnodesSlots(h, s, id, count - 1);
      AddVnodesHolder(h, s, id, count - 1);
      InsertSorted(AddVnodes(h, s, id, count - 1), h.vnode(id, count - 1), id);
    }
  }

  lemma AddKeepsWellFormed(h: Hashing, vnodes: nat, r: Ring, info: NodeInfo)
    requires WellFormed(r)
    ensures WellFormed(AddNode(h, vnodes, r, info))
    ensures forall id :: ContainsNode(AddNode(h, vnodes, r, info).nodes, id) <==>
      id == info.id || ContainsNode(r.nodes, id)
  {
    var r' := AddNode(h, vnodes, r, info);
    AddVnodesHolder(h, r.slots, info.id, vnodes);
    AddVnodesSlots(h, r.slots, info.id, vnodes);
    forall id ensures ContainsNode(r'.nodes, id) <==> id == info.id || ContainsNode(r.nodes, id) {
      assert r'.nodes[|r.nodes|] == info;
      if i :| 0 <= i < |r.nodes| && r.nodes[i].id == id {
        assert r'.nodes[i].id == id;
      }
    }
    forall i | 0 <= i < |r'.slots| ensures ContainsNode(r'.nodes, r'.slots[i].id) {
      assert r'.slots[i] in r'.slots;
    }
  }

  lemma RemoveKeepsWellFormed(r: Ring, id: NodeId)
    requires WellFormed(r)
    ensures WellFormed(RemoveNode(r, id))
    ensures forall x :: ContainsNode(RemoveNode(r, id).nodes, x) <==> x != id && ContainsNode(r.nodes, x)
  {
    var r' := RemoveNode(r, id);
    DropSorted(r.slots, {id});
    DropInfosKeepsOthers(r.nodes, id);
    forall x ensures ContainsNode(r'.nodes, x) <==> x != id && ContainsNode(r.nodes, x) {
      ContainsIsMember(r.nodes, x);
      ContainsIsMember(r'.nodes, x);
    }
    forall i | 0 <= i < |r'.slots| ensures ContainsNode(r'.nodes, r'.slots[i].id) {
      assert r'.slots[i] in r.slots;
    }
  }

  lemma {:induction false} InfosConcat(nodes: seq<NodeInfo>, a: seq<NodeId>, b: seq<NodeId>)
    ensures Infos(nodes, a + b) == Infos(nodes, a) + Infos(nodes, b)
  {
    if a == [] {
      assert a + b == b;
    } else {
      assert (a + b)[1..] == a[1..] + b;
      InfosConcat(nodes, a[1..], b);
    }
  }

  /** When every id is listed, looking infos up keeps length and ids. */
  lemma {:induction false} InfosOfListed(nodes: seq<NodeInfo>, ids: seq<NodeId>)
    requires forall x :: x in ids ==> ContainsNode(nodes, x)
    ensures |Infos(nodes, ids)| == |ids|
    ensures forall i :: 0 <= i < |ids| ==> Infos(nodes, ids)[i].id == ids[i] && Infos(nodes, ids)[i] in nodes
  {
    if ids == [] {
    } else {
      FindInfoFinds(nodes, ids[0]);
      InfosOfListed(nodes, ids[1..]);
    }
  }

  lemma ClockwiseIsListed(r: Ring, h: Position)
    requires WellFormed(r)
    ensures forall x :: x in Clockwise(r.slots, h) ==> ContainsNode(r.nodes, x)
  {
    ClockwiseFacts(r.slots, h);
  }

  /** The ids of a preference list; a request for none still yields one. */
  function Preference(s: seq<Slot>, h: Position, count: nat): seq<NodeId> {
    Take(Clockwise(s, h), Max(count, 1))
  }

  class HashRing {
    const hashing: Hashing
    const vnodeCount: nat
    var slots: seq<Slot>
    var nodes: seq<NodeInfo>

    ghost function State(): Ring
      reads this
    {
      Ring(slots, nodes)
    }

    ghost predicate Valid()
      reads this
    {
      WellFormed(State())
    }

    constructor (hashing: Hashing, vnodeCount: nat)
      ensures Valid() && State() == Ring([], [])
      ensures this.hashing == hashing && this.vnodeCount == vnodeCount
    {
      this.hashing := hashing;
      this.vnodeCount := vnodeCount;
      slots := [];
      nodes := [];
    }

    /** One of the node's virtual nodes hashes to `q`. */
    ghost predicate HasVnode(id: NodeId, q: Position) {
      exists i: nat :: i < vnodeCount && hashing.vnode(id, i) == q
    }

    /** The ring as routers and joining nodes build it. */
    constructor Default(hashing: Hashing)
      ensures Valid() && State() == Ring([], [])
      ensures this.hashing == hashing && vnodeCount == 150
    {
      this.hashing := hashing;
      vnodeCount := DEFAULT_VNODE_COUNT;
      slots := [];
      nodes := [];
    }

    method Add(info: NodeInfo)
      requires Valid()
      modifies this
      ensures Valid()
      ensures State() == AddNode(hashing, vnodeCount, old(State()), info)
      ensures nodes == old(nodes) + [info]
      ensures forall q: Position ::
        Holder(slots, q) == if HasVnode(info.id, q) then Some(info.id) else Holder(old(slots), q)
      ensures forall id :: ContainsNode(nodes, id) <==> id == info.id || ContainsNode(old(nodes), id)
    {
      AddKeepsWellFormed(hashing, vnodeCount, State(), info);
      AddVnodesHolder(hashing, slots, info.id, vnodeCount);
      for i := 0 to vnodeCount
        invariant slots == AddVnodes(hashing, old(slots), info.id, i) && nodes == old(nodes)
      {
        slots := Insert(slots, hashing.vnode(info.id, i), info.id);
      }
      nodes := nodes + [info];
    }

    method Remove(id: NodeId)
      requires Valid()
      modifies this
      ensures Valid()
      ensures State() == RemoveNode(old(State()), id)
      ensures forall x :: x in nodes <==> x in old(nodes) && x.id != id
      ensures forall q: Position ::
        Holder(slots, q) == if Holder(old(slots), q) == Some(id) then None else Holder(old(slots), q)
      ensures forall x :: ContainsNode(nodes, x) <==> x != id && ContainsNode(old(nodes), x)
    {
      RemoveKeepsWellFormed(State(), id);
      DropInfosKeepsOthers(nodes, id);
      forall q: Position
        ensures Holder(DropSlots(slots, {id}), q) == if Holder(slots, q) == Some(id) then None else Holder(slots, q)
      {
        DropHolder(slots, {id}, q);
      }
      slots := DropSlots(slots, {id});
      nodes := DropInfos(nodes, id);
    }

    /** The owner is the head of the clockwise list, and a ring with slots always finds its info. */
    method GetNode(key: string) returns (owner: Option<NodeInfo>)
      requires Valid()
      ensures owner.None? <==> slots == []
      ensures owner.Some? ==> owner.value in nodes && Clockwise(slots, hashing.key(key)) != []
                              && owner.value.id == Clockwise(slots, hashing.key(key))[0]
                              && owner == FindInfo(nodes, owner.value.id)
    {
      ClockwiseFacts(slots, hashing.key(key));
      ClockwiseIsListed(State(), hashing.key(key));
      if slots == [] {
        return None;
      }
      var tail := From(slots, hashing.key(key));
      var id := if tail != [] then tail[0].id else slots[0].id;
      FindInfoFinds(nodes, id);
      owner := FindInfo(nodes, id);
    }

    /** The first `count` distinct physical nodes clockwise from the key. */
    method GetPreferenceList(key: string, count: nat) returns (result: seq<NodeInfo>)
      requires Valid()
      ensures result == Infos(nodes, Preference(slots, hashing.key(key), count))
      ensures |result| == |Preference(slots, hashing.key(key), count)|
      ensures |result| == Min(Max(count, 1), |Clockwise(slots, hashing.key(key))|)
      ensures forall i :: 0 <= i < |result| ==>
        result[i] in nodes && result[i].id == Preference(slots, hashing.key(key), count)[i]
    {
      ClockwiseIsListed(State(), hashing.key(key));
      InfosOfListed(nodes, Preference(slots, hashing.key(key), count));
      if slots == [] {
        assert Clockwise(slots, hashing.key(key)) == [];
        return [];
      }
      DistinctFacts(Ids(From(slots, hashing.key(key))) + Ids(slots), {});
      result := CollectDistinct(nodes, Ids(From(slots, hashing.key(key))) + Ids(slots), count);
    }
  }

  /** The loop of `get_preference_list` over the ids met on the walk. */
  method CollectDistinct(nodes: seq<NodeInfo>, walk: seq<NodeId>, count: nat) returns (result: seq<NodeInfo>)
    requires forall x :: x in Distinct(walk, {}) ==> ContainsNode(nodes, x)
    ensures result == Infos(nodes, Take(Distinct(walk, {}), Max(count, 1)))
  {
    result := [];
    var seen: set<NodeId> := {};
    ghost var ids: seq<NodeId> := [];
    var i := 0;
    while i < |walk|
      invariant i <= |walk|
      invariant Distinct(walk, {}) == ids + Distinct(walk[i..], seen)
      invariant result == Infos(nodes, ids) && |result| == |ids| < Max(count, 1)
    {
      var id := walk[i];
      CollectStep(walk, i, seen, ids);
      i := i + 1;
      if id !in seen {
        ListOneMore(nodes, ids, id);
        seen := seen + {id};
        ids := ids + [id];
        var info := FindInfo(nodes, id);
        if info.Some? {
          result := result + [info.value];
        }
        if |result| >= count {
          TakeOfConcat(ids, Distinct(walk[i..], seen), Max(count, 1));
          return;
        }
      }
    }
    assert walk[i..] == [];
    TakeOfConcat(ids, [], Max(count, 1));
  }

  lemma TakeOfConcat<T>(a: seq<T>, b: seq<T>, n: nat)
    requires |a| == n || (|a| <= n && b == [])
    ensures Take(a + b, n) == a
  {}

  lemma CollectStep(walk: seq<NodeId>, i: nat, seen: set<NodeId>, ids: seq<NodeId>)
    requires i < |walk| && Distinct(walk, {}) == ids + Distinct(walk[i..], seen)
    ensures walk[i] in seen ==> Distinct(walk, {}) == ids + Distinct(walk[i + 1..], seen)
    ensures walk[i] !in seen ==>
      walk[i] in Distinct(walk, {}) && Distinct(walk, {}) == ids + [walk[i]] + Distinct(walk[i + 1..], seen + {walk[i]})
  {
    assert walk[i..][1..] == walk[i + 1..];
    if walk[i] !in seen {
      assert Distinct(walk, {})[|ids|] == walk[i];
    }
  }

  lemma ListOneMore(nodes: seq<NodeInfo>, ids: seq<NodeId>, id: NodeId)
    requires ContainsNode(nodes, id)
    ensures FindInfo(nodes, id).Some?
    ensures Infos(nodes, ids + [id]) == Infos(nodes, ids) + [FindInfo(nodes, id).value]
  {
    FindInfoFinds(nodes, id);
    InfosConcat(nodes, ids, [id]);
    assert [id][1..] == [];
  }
}
