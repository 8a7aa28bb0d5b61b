/**
 The membership table a node keeps about its cluster (gossip/state.rs).

 A table maps a node id to an entry. Only the pair (status, incarnation) of an entry takes part
 in conflict resolution; it is called the entry's record. `MembershipTable` is the mutable table;
 the functions say what its methods compute; the lemmas show that merging is a lattice join.
 */
module Membership {
  import opened Common

  datatype Status = Joining | Alive | Suspect | Dead

  datatype Record = Record(status: Status, incarnation: nat)

  datatype MemberEntry = MemberEntry(addr: string, status: Status, incarnation: nat, lastSeen: nat) {
    function Rec(): Record { Record(status, incarnation) }
  }

  /** One line of an incoming gossip message. */
  datatype Report = Report(id: NodeId, addr: string, status: Status, incarnation: nat) {
    function Rec(): Record { Record(status, incarnation) }
  }

  type Members = map<NodeId, MemberEntry>

  /** What a table says once addresses and timestamps are forgotten. */
  type View = map<NodeId, Record>

  function ViewOf(members: Members): View {
    map id | id in members :: members[id].Rec()
  }

  // ----- The order on records ------------------------------------------------

  function Rank(s: Status): nat {
    match s
    case Joining => 0
    case Alive => 1
    case Suspect => 2
    case Dead => 3
  }

  /** Lexicographic order: incarnation first, then Joining < Alive < Suspect < Dead. */
  predicate Leq(a: Record, b: Record) {
    a.incarnation < b.incarnation
    || (a.incarnation == b.incarnation && Rank(a.status) <= Rank(b.status))
  }

  function Join(a: Record, b: Record): Record {
    if Leq(a, b) then b else a
  }

  /** A report about ourselves that has to be refuted. */
  predicate Challenges(r: Record) {
    r.status == Suspect || r.status == Dead
  }

  /** A node's own record after it hears `heard` about itself. */
  function Refute(own: Record, heard: Record): Record {
    if Challenges(heard) && heard.incarnation >= own.incarnation
    then Record(Alive, heard.incarnation + 1)
    else own
  }

  // ----- Merging -------------------------------------------------------------

  /** The tie break of `merge` for equal incarnations, as a case table. */
  predicate Overrides(local: Status, remote: Status) {
    match (local, remote)
    case (Alive, Dead) => true
    case (Suspect, Dead) => true
    case (Joining, Dead) => true
    case (Alive, Suspect) => true
    case (Joining, Suspect) => true
    case (Joining, Alive) => true
    case _ => false
  }

  /** One iteration of the loop in `merge`. */
  function Absorb(self: NodeId, members: Members, r: Report, now: nat): Members {
    var heard := MemberEntry(r.addr, r.status, r.incarnation, now);
    if r.id == self then
      if Challenges(r.Rec()) && self in members && r.incarnation >= members[self].incarnation then
        members[self := members[self].(incarnation := r.incarnation + 1, status := Alive)]
      else
        members
    else if r.id in members then
      if r.incarnation > members[r.id].incarnation then members[r.id := heard]
      else if r.incarnation == members[r.id].incarnation && Overrides(members[r.id].status, r.status)
      then members[r.id := heard]
      else members
    else
      members[r.id := heard]
  }

  function AbsorbAll(self: NodeId, members: Members, reports: seq<Report>, now: nat): Members {
    if reports == [] then members
    else
      var last := |reports| - 1;
      Absorb(self, AbsorbAll(self, members, reports[..last], now), reports[last], now)
  }

  /**
   One report about another known node: a greater incarnation is taken over and a smaller one ignored; at equal
   incarnations Dead beats everything, Suspect beats Alive and Joining, and Alive beats Joining.
   */
  lemma MergeTies(self: NodeId, members: Members, r: Report, now: nat)
    requires r.id != self && r.id in members
    ensures var local, merged := members[r.id], Absorb(self, members, r, now);
            var wins := || (r.status == Dead && local.status != Dead)
                        || (r.status == Suspect && local.status in {Alive, Joining})
                        || (r.status == Alive && local.status == Joining);
            var taken := r.incarnation > local.incarnation || (r.incarnation == local.incarnation && wins);
            merged == if taken then members[r.id := MemberEntry(r.addr, r.status, r.incarnation, now)] else members
  {}

  /** `rec` is the least record above what `members` and `reports` say about `id`, and one of them says it. */
  ghost predicate IsJoin(members: Members, reports: seq<Report>, id: NodeId, rec: Record) {
    && (id in members ==> Leq(members[id].Rec(), rec))
    && (forall i :: 0 <= i < |reports| && reports[i].id == id ==> Leq(reports[i].Rec(), rec))
    && ((id in members && members[id].Rec() == rec)
        || exists i :: 0 <= i < |reports| && reports[i].id == id && reports[i].Rec() == rec)
  }

  ghost predicate Reported(reports: seq<Report>, id: NodeId) {
    exists i :: 0 <= i < |reports| && reports[i].id == id
  }

  /** The merged entry of any other node is the lexicographic maximum of all that was said about it. */
  lemma {:induction false} MergeIsJoin(self: NodeId, members: Members, reports: seq<Report>, now: nat, id: NodeId)
    requires id != self
    ensures var merged := AbsorbAll(self, members, reports, now);
            && (id in merged <==> id in members || Reported(reports, id))
            && (id in merged ==> IsJoin(members, reports, id, merged[id].Rec()))
  {
    if reports == [] {
    } else {
      var last := |reports| - 1;
      var init := reports[..last];
      MergeIsJoin(self, members, init, now, id);
      AbsorbOne(self, AbsorbAll(self, members, init, now), reports[last], now, id);
      OneMoreReport(members, reports, last, id, AbsorbAll(self, members, init, now));
    }
  }

  /** What one report does to the entry of another node. */
  lemma AbsorbOne(self: NodeId, members: Members, r: Report, now: nat, id: NodeId)
    requires id != self
    ensures var merged := Absorb(self, members, r, now);
            && (id in merged <==> id in members || r.id == id)
            && (id in merged ==>
                  merged[id].Rec() == if r.id != id then members[id].Rec()
                                      else if id in members then Join(members[id].Rec(), r.Rec())
                                      else r.Rec())
  {}

  /** One report more: the join so far becomes its join with the report. */
  lemma OneMoreReport(members: Members, reports: seq<Report>, last: nat, id: NodeId, before: Members)
    requires |reports| == last + 1
    requires id in before <==> id in members || Reported(reports[..last], id)
    requires id in before ==> IsJoin(members, reports[..last], id, before[id].Rec())
    ensures Reported(reports, id) <==> Reported(reports[..last], id) || reports[last].id == id
    ensures id in before && reports[last].id != id ==> IsJoin(members, reports, id, before[id].Rec())
    ensures id in before && reports[last].id == id ==>
              IsJoin(members, reports, id, Join(before[id].Rec(), reports[last].Rec()))
    ensures id !in before && reports[last].id == id ==> IsJoin(members, reports, id, reports[last].Rec())
  {
    var init := reports[..last];
    assert forall i :: 0 <= i < last ==> reports[i] == init[i];
  }

  /** Some report about `id`, taken over whole: its record, its address, and `now` as the time last seen. */
  ghost predicate TakenOver(reports: seq<Report>, id: NodeId, now: nat, e: MemberEntry) {
    exists i :: 0 <= i < |reports| && reports[i].id == id
                && e == MemberEntry(reports[i].addr, reports[i].status, reports[i].incarnation, now)
  }

  /**
   An entry whose record does not change keeps its address and its time last seen, so hearing old
   news does not postpone a timeout; a changed or new entry is some report taken over whole.
   */
  lemma {:induction false} MergeKeepsOrTakesOver(self: NodeId, members: Members, reports: seq<Report>, now: nat,
                                                 id: NodeId)
    requires id != self
    ensures var merged := AbsorbAll(self, members, reports, now);
            && (id in members ==> id in merged && (merged[id].Rec() == members[id].Rec() ==> merged[id] == members[id]))
            && (id in merged ==>
                 (id in members && merged[id] == members[id]) || TakenOver(reports, id, now, merged[id]))
  {
    if reports == [] {
    } else {
      var last := |reports| - 1;
      var init := reports[..last];
      MergeKeepsOrTakesOver(self, members, init, now, id);
      MergeIsJoin(self, members, init, now, id);
      var before, after := AbsorbAll(self, members, init, now), AbsorbAll(self, members, reports, now);
      if id in before && TakenOver(init, id, now, before[id]) {
        var i :| 0 <= i < |init| && init[i].id == id
                 && before[id] == MemberEntry(init[i].addr, init[i].status, init[i].incarnation, now);
        assert reports[i] == init[i];
      }
      if id in after && !(id in before && after[id] == before[id]) {
        assert reports[last].id == id;
      }
    }
  }

  /** `own` is not beaten by any Suspect or Dead report about `self`. */
  ghost predicate Unchallenged(reports: seq<Report>, self: NodeId, own: nat) {
    forall i :: 0 <= i < |reports| && reports[i].id == self && Challenges(reports[i].Rec())
                ==> reports[i].incarnation < own
  }

  /**
   A node's own entry: the incarnation becomes the maximum of its own and one more than every
   Suspect or Dead report; it turns Alive exactly when some such report was not already beaten.
   Address and timestamp stay.
   */
  lemma {:induction false} MergeRefutes(self: NodeId, members: Members, reports: seq<Report>, now: nat)
    requires self in members
    ensures var merged := AbsorbAll(self, members, reports, now);
            var own := members[self];
            && self in merged
            && Unchallenged(reports, self, merged[self].incarnation)
            && (if Unchallenged(reports, self, own.incarnation) then merged[self] == own
                else && merged[self] == own.(status := Alive, incarnation := merged[self].incarnation)
                     && exists i :: 0 <= i < |reports| && reports[i].id == self && Challenges(reports[i].Rec())
                                    && merged[self].incarnation == reports[i].incarnation + 1
                                    && own.incarnation < merged[self].incarnation)
  {
    if reports == [] {
    } else {
      var last := |reports| - 1;
      var init := reports[..last];
      MergeRefutes(self, members, init, now);
      forall i | 0 <= i < |reports| && reports[i].id == self ensures i == last || reports[i] == init[i] {}
      forall i | 0 <= i < |init| ensures reports[i] == init[i] {}
    }
  }

  /** The facts a message carries once addresses, order and repetition are forgotten. */
  ghost function Facts(reports: seq<Report>): set<(NodeId, Record)> {
    set i | 0 <= i < |reports| :: (reports[i].id, reports[i].Rec())
  }

  lemma FactsCover(a: seq<Report>, b: seq<Report>, i: nat)
    requires Facts(a) <= Facts(b) && i < |a|
    ensures exists j :: 0 <= j < |b| && b[j].id == a[i].id && b[j].Rec() == a[i].Rec()
  {
    assert (a[i].id, a[i].Rec()) in Facts(a);
  }

  lemma JoinUnique(members: Members, members': Members, a: seq<Report>, b: seq<Report>, id: NodeId, x: Record,
                   y: Record)
    requires ViewOf(members) == ViewOf(members') && Facts(a) == Facts(b)
    requires IsJoin(members, a, id, x) && IsJoin(members', b, id, y)
    ensures x == y
  {
    assert id in members <==> id in ViewOf(members');
    assert id in members ==> ViewOf(members)[id] == ViewOf(members')[id];
    assert Leq(x, y) by {
      if !(id in members && members[id].Rec() == x) {
        var i :| 0 <= i < |a| && a[i].id == id && a[i].Rec() == x;
        FactsCover(a, b, i);
      }
    }
    assert Leq(y, x) by {
      if !(id in members' && members'[id].Rec() == y) {
        var i :| 0 <= i < |b| && b[i].id == id && b[i].Rec() == y;
        FactsCover(b, a, i);
      }
    }
  }

  lemma UnchallengedByFacts(a: seq<Report>, b: seq<Report>, self: NodeId, own: nat)
    requires Facts(a) == Facts(b) && Unchallenged(a, self, own)
    ensures Unchallenged(b, self, own)
  {
    forall i | 0 <= i < |b| && b[i].id == self && Challenges(b[i].Rec()) ensures b[i].incarnation < own {
      FactsCover(b, a, i);
    }
  }

  lemma OwnRecordByFacts(self: NodeId, members: Members, members': Members, a: seq<Report>, b: seq<Report>, now: nat,
                         now': nat)
    requires self in members && ViewOf(members) == ViewOf(members') && Facts(a) == Facts(b)
    ensures var x, y := AbsorbAll(self, members, a, now), AbsorbAll(self, members', b, now');
            self in x && self in y && x[self].Rec() == y[self].Rec()
  {
    assert self in ViewOf(members') && ViewOf(members)[self] == ViewOf(members')[self];
    var x, y := AbsorbAll(self, members, a, now), AbsorbAll(self, members', b, now');
    MergeRefutes(self, members, a, now);
    MergeRefutes(self, members', b, now');
    UnchallengedByFacts(a, b, self, x[self].incarnation);
    UnchallengedByFacts(b, a, self, y[self].incarnation);
    if Unchallenged(a, self, members[self].incarnation) {
      UnchallengedByFacts(a, b, self, members[self].incarnation);
    } else {
      if Unchallenged(b, self, members[self].incarnation) {
        UnchallengedByFacts(b, a, self, members[self].incarnation);
      }
    }
  }

  /**
   Order, repetition, addresses and clock readings do not matter: two lists of reports that carry
   the same facts lead from tables with equal views to tables with equal views.
   */
  lemma MergeDependsOnFacts(self: NodeId, members: Members, members': Members, a: seq<Report>, b: seq<Report>, now: nat,
                            now': nat)
    requires self in members && ViewOf(members) == ViewOf(members') && Facts(a) == Facts(b)
    ensures ViewOf(AbsorbAll(self, members, a, now)) == ViewOf(AbsorbAll(self, members', b, now'))
  {
    var x, y := AbsorbAll(self, members, a, now), AbsorbAll(self, members', b, now');
    forall id | id in ViewOf(x) || id in ViewOf(y)
      ensures id in x && id in y && x[id].Rec() == y[id].Rec()
    {
      if id == self {
        OwnRecordByFacts(self, members, members', a, b, now, now');
      } else {
        MergeIsJoin(self, members, a, now, id);
        MergeIsJoin(self, members', b, now', id);
        assert id in ViewOf(members) <==> id in members';
        if Reported(a, id) {
          var i :| 0 <= i < |a| && a[i].id == id;
          FactsCover(a, b, i);
        }
        if Reported(b, id) {
          var i :| 0 <= i < |b| && b[i].id == id;
          FactsCover(b, a, i);
        }
        JoinUnique(members, members', a, b, id, x[id].Rec(), y[id].Rec());
      }
    }
    assert ViewOf(x).Keys == ViewOf(y).Keys;
  }

  /** A message together with the instant at which it is merged. */
  datatype Delivery = Delivery(reports: seq<Report>, at: nat)

  function Deliver(self: NodeId, members: Members, ds: seq<Delivery>): Members
    decreases ds
  {
    if ds == [] then members
    else Deliver(self, AbsorbAll(self, members, ds[0].reports, ds[0].at), ds[1..])
  }

  function AllReports(ds: seq<Delivery>): seq<Report> {
    if ds == [] then [] else ds[0].reports + AllReports(ds[1..])
  }

  lemma {:induction false} AbsorbAllConcat(self: NodeId, members: Members, a: seq<Report>, b: seq<Report>, now: nat)
    ensures AbsorbAll(self, AbsorbAll(self, members, a, now), b, now) == AbsorbAll(self, members, a + b, now)
  {
    if b == [] {
      assert a + b == a;
    } else {
      var last := |b| - 1;
      AbsorbAllConcat(self, members, a, b[..last], now);
      assert (a + b)[..|a + b| - 1] == a + b[..last];
    }
  }

  /** Grouping does not matter either: any series of messages acts like one message holding all its reports. */
  lemma {:induction false} MergeGrouping(self: NodeId, members: Members, members': Members, ds: seq<Delivery>, now: nat)
    requires self in members && ViewOf(members) == ViewOf(members')
    ensures ViewOf(Deliver(self, members, ds)) == ViewOf(AbsorbAll(self, members', AllReports(ds), now))
    decreases ds
  {
    if ds == [] {
    } else {
      var d := ds[0];
      var next, next' := AbsorbAll(self, members, d.reports, d.at), AbsorbAll(self, members', d.reports, now);
      assert self in ViewOf(members');
      MergeDependsOnFacts(self, members, members', d.reports, d.reports, d.at, now);
      MergeRefutes(self, members, d.reports, d.at);
      MergeGrouping(self, next, next', ds[1..], now);
      AbsorbAllConcat(self, members', d.reports, AllReports(ds[1..]), now);
    }
  }

  /** Merging is independent of entry order, repetition and grouping into messages. */
  lemma MergeIsOrderIndependent(self: NodeId, members: Members, ds: seq<Delivery>, es: seq<Delivery>)
    requires self in members && Facts(AllReports(ds)) == Facts(AllReports(es))
    ensures ViewOf(Deliver(self, members, ds)) == ViewOf(Deliver(self, members, es))
  {
    MergeGrouping(self, members, members, ds, 0);
    MergeGrouping(self, members, members, es, 0);
    MergeDependsOnFacts(self, members, members, AllReports(ds), AllReports(es), 0, 0);
  }

  // ----- Merging whole views -------------------------------------------------

  /** One of the `alive_peers`: a member the node will contact. */
  predicate Contactable(v: View, id: NodeId) {
    id in v && v[id].status in {Alive, Joining}
  }

  /** The view-level join: what one table becomes after hearing everything another table says. */
  function MergeView(self: NodeId, v: View, heard: View): View {
    map id | id in v.Keys + (heard.Keys - {self}) ::
      if id !in heard then v[id]
      else if id == self then Refute(v[id], heard[id])
      else if id in v then Join(v[id], heard[id])
      else heard[id]
  }

  /** `reports` lists the table `v`, in any order. */
  ghost predicate Lists(reports: seq<Report>, v: View) {
    && (forall i :: 0 <= i < |reports| ==> reports[i].id in v && reports[i].Rec() == v[reports[i].id])
    && (forall id :: id in v ==> Reported(reports, id))
  }

  lemma MergeListingOwn(self: NodeId, members: Members, reports: seq<Report>, heard: View, now: nat)
    requires self in members && Lists(reports, heard)
    ensures var merged := AbsorbAll(self, members, reports, now);
            self in merged && merged[self].Rec() == MergeView(self, ViewOf(members), heard)[self]
  {
    MergeRefutes(self, members, reports, now);
    if self in heard {
      var i :| 0 <= i < |reports| && reports[i].id == self;
    }
  }

  lemma MergeListingOther(self: NodeId, members: Members, reports: seq<Report>, heard: View, now: nat, id: NodeId)
    requires self in members && Lists(reports, heard) && id != self
    ensures var merged, v := AbsorbAll(self, members, reports, now), MergeView(self, ViewOf(members), heard);
            (id in merged <==> id in v) && (id in merged ==> merged[id].Rec() == v[id])
  {
    MergeIsJoin(self, members, reports, now, id);
  }

  /** Merging a listing of a view, in whatever order, is the view-level join. */
  lemma MergeListing(self: NodeId, members: Members, reports: seq<Report>, heard: View, now: nat)
    requires self in members && Lists(reports, heard)
    ensures ViewOf(AbsorbAll(self, members, reports, now)) == MergeView(self, ViewOf(members), heard)
  {
    var merged, v := AbsorbAll(self, members, reports, now), MergeView(self, ViewOf(members), heard);
    forall id ensures (id in merged <==> id in v) && (id in merged ==> merged[id].Rec() == v[id]) {
      if id == self {
        MergeListingOwn(self, members, reports, heard, now);
      } else {
        MergeListingOther(self, members, reports, heard, now, id);
      }
    }
    assert ViewOf(merged).Keys == v.Keys;
  }

  // ----- Start-up and timeouts -----------------------------------------------

  function AddSeeds(self: NodeId, members: Members, seeds: seq<NodeInfo>, now: nat): Members {
    if seeds == [] then members
    else
      var last := |seeds| - 1;
      var before := AddSeeds(self, members, seeds[..last], now);
      if seeds[last].id != self
      then before[seeds[last].id := MemberEntry(seeds[last].addr, Alive, 0, now)]
      else before
  }

  function AddrOf(id: NodeId, seeds: seq<NodeInfo>): string {
    if seeds == [] then "" else if seeds[0].id == id then seeds[0].addr else AddrOf(id, seeds[1..])
  }

  function InitialMembers(self: NodeId, seeds: seq<NodeInfo>, now: nat): Members {
    var own := MemberEntry(AddrOf(self, seeds), if seeds == [] then Alive else Joining, 0, now);
    AddSeeds(self, map[self := own], seeds, now)
  }

  /** Seed `i` is the last of its id; the first of an id decides the address of the node itself. */
  ghost predicate LastOfItsId(seeds: seq<NodeInfo>, i: int) {
    0 <= i < |seeds| && forall j :: i < j < |seeds| ==> seeds[j].id != seeds[i].id
  }

  ghost predicate FirstOfItsId(seeds: seq<NodeInfo>, i: int) {
    0 <= i < |seeds| && forall j :: 0 <= j < i ==> seeds[j].id != seeds[i].id
  }

  lemma {:induction false} SeedEntry(self: NodeId, members: Members, seeds: seq<NodeInfo>, now: nat, i: nat)
    requires LastOfItsId(seeds, i) && seeds[i].id != self
    ensures var r := AddSeeds(self, members, seeds, now);
            seeds[i].id in r && r[seeds[i].id] == MemberEntry(seeds[i].addr, Alive, 0, now)
  {
    var last := |seeds| - 1;
    if i == last {
    } else {
      assert seeds[..last][i] == seeds[i];
      SeedEntry(self, members, seeds[..last], now, i);
    }
  }

  lemma {:induction false} OwnAddress(id: NodeId, seeds: seq<NodeInfo>)
    ensures (forall i :: 0 <= i < |seeds| ==> seeds[i].id != id) ==> AddrOf(id, seeds) == ""
    ensures forall i :: FirstOfItsId(seeds, i) && seeds[i].id == id ==> AddrOf(id, seeds) == seeds[i].addr
  {
    if seeds == [] {
    } else if seeds[0].id == id {
      assert forall i :: FirstOfItsId(seeds, i) && seeds[i].id == id ==> i == 0;
    } else {
      OwnAddress(id, seeds[1..]);
      forall i | FirstOfItsId(seeds, i) && seeds[i].id == id ensures AddrOf(id, seeds) == seeds[i].addr {
        assert i > 0 && seeds[1..][i - 1] == seeds[i];
        assert FirstOfItsId(seeds[1..], i - 1);
      }
    }
  }

  /** A known node was heard from directly. */
  function Touched(members: Members, id: NodeId, now: nat): Members {
    if id in members then members[id := members[id].(lastSeen := now)] else members
  }

  function InitialView(self: NodeId, seeds: set<NodeId>): View {
    map id | id in {self} + seeds ::
      if id != self then Record(Alive, 0)
      else if seeds == {} then Record(Alive, 0) else Record(Joining, 0)
  }

  lemma {:induction false} AddSeedsView(self: NodeId, members: Members, seeds: seq<NodeInfo>, now: nat)
    requires self in members
    ensures var r := AddSeeds(self, members, seeds, now);
            && r.Keys == members.Keys + InfoIds(seeds)
            && r[self] == members[self]
            && forall id :: id in InfoIds(seeds) && id != self ==> r[id].Rec() == Record(Alive, 0)
  {
    if seeds == [] {
    } else {
      var last := |seeds| - 1;
      AddSeedsView(self, members, seeds[..last], now);
      assert InfoIds(seeds) == InfoIds(seeds[..last]) + {seeds[last].id} by {
        assert forall i :: 0 <= i < last ==> seeds[..last][i] == seeds[i];
        assert forall i :: 0 <= i < |seeds| ==> i == last || seeds[i] == seeds[..last][i];
      }
    }
  }

  /** A fresh table says: every seed is Alive at 0; self is Joining at 0 when there are seeds, else Alive at 0. */
  lemma InitialTable(self: NodeId, seeds: seq<NodeInfo>, now: nat)
    ensures ViewOf(InitialMembers(self, seeds, now)) == InitialView(self, InfoIds(seeds))
  {
    var own := MemberEntry(AddrOf(self, seeds), if seeds == [] then Alive else Joining, 0, now);
    AddSeedsView(self, map[self := own], seeds, now);
    assert seeds != [] ==> seeds[0].id in InfoIds(seeds);
    assert ViewOf(InitialMembers(self, seeds, now)).Keys == InitialView(self, InfoIds(seeds)).Keys;
  }

  /** What `mark_self_alive` does to the view of the node `id`. */
  function FinishedView(id: NodeId, v: View): View
    requires id in v
  {
    v[id := Record(Alive, v[id].incarnation + 1)]
  }

  /** `mark_suspect`: only an Alive record changes; a Joining one does not. */
  function Suspected(e: MemberEntry): MemberEntry {
    if e.status == Alive then e.(status := Suspect) else e
  }

  /** `mark_dead`: only Alive and Suspect records change. */
  function Buried(e: MemberEntry): MemberEntry {
    if e.status == Alive || e.status == Suspect then e.(status := Dead) else e
  }

  /** The mutable table. `now` stands for the clock reading each operation takes. */
  class MembershipTable {
    const localId: NodeId
    var members: Members

    ghost predicate Valid()
      reads this
    {
      localId in members
    }

    constructor (id: NodeId, seeds: seq<NodeInfo>, now: nat)
      ensures Valid() && localId == id
      ensures members == InitialMembers(id, seeds, now)
      ensures forall i :: LastOfItsId(seeds, i) && seeds[i].id != id ==>
        seeds[i].id in members && members[seeds[i].id] == MemberEntry(seeds[i].addr, Alive, 0, now)
      ensures members[id] ==
        members[id].(status := if seeds == [] then Alive else Joining, incarnation := 0, lastSeen := now)
      ensures (forall i :: 0 <= i < |seeds| ==> seeds[i].id != id) ==> members[id].addr == ""
      ensures forall i :: FirstOfItsId(seeds, i) && seeds[i].id == id ==> members[id].addr == seeds[i].addr
    {
      localId := id;
      members := map[id := MemberEntry(AddrOf(id, seeds), if seeds == [] then Alive else Joining, 0, now)];
      new;
      ghost var start := members;
      var i := 0;
      while i < |seeds|
        invariant i <= |seeds| && localId == id && localId in start && localId in members
        invariant members == AddSeeds(id, start, seeds[..i], now)
      {
        assert seeds[..i + 1][..i] == seeds[..i];
        if seeds[i].id != id {
          members := members[seeds[i].id := MemberEntry(seeds[i].addr, Alive, 0, now)];
        }
        i := i + 1;
      }
      assert seeds[..i] == seeds;
      forall k | LastOfItsId(seeds, k) && seeds[k].id != id
        ensures seeds[k].id in members && members[seeds[k].id] == MemberEntry(seeds[k].addr, Alive, 0, now)
      {
        SeedEntry(id, start, seeds, now, k);
      }
      AddSeedsView(id, start, seeds, now);
      OwnAddress(id, seeds);
    }

    method MarkSuspect(id: NodeId) returns (changed: bool)
      requires Valid()
      modifies this
      ensures Valid()
      ensures changed == (id in old(members) && old(members)[id].status == Alive)
      ensures members == if changed then old(members)[id := old(members)[id].(status := Suspect)] else old(members)
      ensures members == if id in old(members) then old(members)[id := Suspected(old(members)[id])] else old(members)
    {
      changed := false;
      if id in members && members[id].status == Alive {
        members := members[id := members[id].(status := Suspect)];
        changed := true;
      }
    }

    method MarkDead(id: NodeId) returns (changed: bool)
      requires Valid()
      modifies this
      ensures Valid()
      ensures changed == (id in old(members) && old(members)[id].status in {Alive, Suspect})
      ensures members == if changed then old(members)[id := old(members)[id].(status := Dead)] else old(members)
      ensures members == if id in old(members) then old(members)[id := Buried(old(members)[id])] else old(members)
    {
      changed := false;
      if id in members && (members[id].status == Alive || members[id].status == Suspect) {
        members := members[id := members[id].(status := Dead)];
        changed := true;
      }
    }

    method Touch(id: NodeId, now: nat)
      requires Valid()
      modifies this
      ensures Valid()
      ensures members == Touched(old(members), id, now)
      ensures members.Keys == old(members).Keys
      ensures forall x :: x in members ==>
        members[x] == if x == id then old(members)[x].(lastSeen := now) else old(members)[x]
      ensures ViewOf(members) == ViewOf(old(members))
    {
      if id in members {
        members := members[id := members[id].(lastSeen := now)];
      }
    }

    method MarkSelfAlive()
      requires Valid()
      modifies this
      ensures Valid()
      ensures members ==
        old(members)[localId :=
          old(members)[localId].(status := Alive, incarnation := old(members)[localId].incarnation + 1)]
      ensures ViewOf(members) == FinishedView(localId, ViewOf(old(members)))
    {
      var own := members[localId];
      members := members[localId := own.(incarnation := own.incarnation + 1, status := Alive)];
    }

    predicate IsSelfJoining(): (r: bool)
      requires Valid()
      reads this
      ensures r <==> members[localId].status == Joining
    {
      members[localId].status == Joining
    }

    /** Merges one message. Which table results is `AbsorbAll`; what that means is `MergeIsJoin` and its companions. */
    method Merge(reports: seq<Report>, now: nat)
      requires Valid()
      modifies this
      ensures Valid()
      ensures members == AbsorbAll(localId, old(members), reports, now)
      ensures forall heard :: Lists(reports, heard) ==>
        ViewOf(members) == MergeView(localId, ViewOf(old(members)), heard)
    {
      var i := 0;
      while i < |reports|
        invariant i <= |reports| && localId in members
        invariant members == AbsorbAll(localId, old(members), reports[..i], now)
      {
        assert reports[..i + 1][..i] == reports[..i];
        var r := reports[i];
        i := i + 1;
        if r.id == localId {
          if r.status == Suspect || r.status == Dead {
            var own := members[localId];
            if r.incarnation >= own.incarnation {
              members := members[localId := own.(incarnation := r.incarnation + 1, status := Alive)];
            }
          }
          continue;
        }
        if r.id in members {
          var local := members[r.id];
          if r.incarnation > local.incarnation {
            members := members[r.id := MemberEntry(r.addr, r.status, r.incarnation, now)];
          } else if r.incarnation == local.incarnation && Overrides(local.status, r.status) {
            members := members[r.id := MemberEntry(r.addr, r.status, r.incarnation, now)];
          }
        } else {
          members := members[r.id := MemberEntry(r.addr, r.status, r.incarnation, now)];
        }
      }
      assert reports[..i] == reports;
      forall heard | Lists(reports, heard)
        ensures ViewOf(members) == MergeView(localId, ViewOf(old(members)), heard)
      {
        MergeListing(localId, old(members), reports, heard, now);
      }
    }

    /** `build_gossip_message`: a listing of the table, in arbitrary order, each id once. */
    method AllMembers() returns (reports: seq<Report>)
      requires Valid()
      ensures Lists(reports, ViewOf(members))
      ensures forall i :: 0 <= i < |reports| ==>
        reports[i].id in members && reports[i].addr == members[reports[i].id].addr
      ensures |reports| == |members|
    {
      reports := [];
      var todo := members.Keys;
      while todo != {}
        invariant todo <= members.Keys && |reports| + |todo| == |members|
        invariant forall i :: 0 <= i < |reports| ==>
          reports[i].id in members && reports[i].addr == members[reports[i].id].addr
                                                     && reports[i].Rec() == members[reports[i].id].Rec()
        invariant forall id :: id in members && id !in todo ==> Reported(reports, id)
      {
        var id :| id in todo;
        var e := members[id];
        ghost var before := reports;
        reports := reports + [Report(id, e.addr, e.status, e.incarnation)];
        assert reports[|before|].id == id;
        forall x | Reported(before, x) ensures Reported(reports, x) {
          var i :| 0 <= i < |before| && before[i].id == x;
          assert reports[i].id == x;
        }
        todo := todo - {id};
      }
    }

    /** The peers gossip may choose: exactly the other members recorded Alive or Joining, each once. */
    method AlivePeers() returns (peers: seq<NodeInfo>)
      requires Valid()
      ensures forall i :: 0 <= i < |peers| ==> peers[i].id in members && peers[i].addr == members[peers[i].id].addr
      ensures forall i, j :: 0 <= i < j < |peers| ==> peers[i].id != peers[j].id
      ensures forall id :: id in InfoIds(peers) <==>
        id in members && id != localId && (members[id].status == Alive || members[id].status == Joining)
      ensures forall id :: id in InfoIds(peers) <==> id != localId && Contactable(ViewOf(members), id)
    {
      peers := [];
      var todo := members.Keys;
      while todo != {}
        invariant todo <= members.Keys
        invariant forall i :: 0 <= i < |peers| ==> peers[i].id in members && peers[i].addr == members[peers[i].id].addr
        invariant forall i :: 0 <= i < |peers| ==> peers[i].id !in todo
        invariant forall i, j :: 0 <= i < j < |peers| ==> peers[i].id != peers[j].id
        invariant forall id :: id in InfoIds(peers) <==>
          id in members && id !in todo && id != localId && members[id].status in {Alive, Joining}
      {
        var id :| id in todo;
        ghost var before := peers;
        if id != localId && (members[id].status == Alive || members[id].status == Joining) {
          peers := peers + [NodeInfo(id, members[id].addr)];
          InfoIdsInit(peers);
          assert peers[..|peers| - 1] == before;
        }
        todo := todo - {id};
      }
    }

    /** The peers a ring is built from: exactly the other members recorded Alive, each once. */
    method RoutablePeers() returns (peers: seq<NodeInfo>)
      requires Valid()
      ensures forall i :: 0 <= i < |peers| ==> peers[i].id in members && peers[i].addr == members[peers[i].id].addr
      ensures forall i, j :: 0 <= i < j < |peers| ==> peers[i].id != peers[j].id
      ensures forall id :: id in InfoIds(peers) <==> id in members && id != localId && members[id].status == Alive
    {
      peers := [];
      var todo := members.Keys;
      while todo != {}
        invariant todo <= members.Keys
        invariant forall i :: 0 <= i < |peers| ==> peers[i].id in members && peers[i].addr == members[peers[i].id].addr
        invariant forall i :: 0 <= i < |peers| ==> peers[i].id !in todo
        invariant forall i, j :: 0 <= i < j < |peers| ==> peers[i].id != peers[j].id
        invariant forall id :: id in InfoIds(peers) <==>
          id in members && id !in todo && id != localId && members[id].status == Alive
      {
        var id :| id in todo;
        ghost var before := peers;
        if id != localId && members[id].status == Alive {
          peers := peers + [NodeInfo(id, members[id].addr)];
          assert InfoIds(peers) == InfoIds(before) + {id} by {
            assert peers[|before|].id == id;
            assert forall i :: 0 <= i < |before| ==> peers[i] == before[i];
          }
        }
        todo := todo - {id};
      }
    }
  }
}
