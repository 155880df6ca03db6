/**
 The table of prefixes that a router announces, the operations it publishes,
 and the copies that other routers build from them.
 */
module PrefixSync {
  import opened Common
  import opened DvTable
  import opened FibSync

  const NO_COST: nat := WORD - 1

  datatype NextHop = NextHop(face: Face, cost: nat)

  datatype PrefixEntry = PrefixEntry(cost: nat, nextHops: seq<NextHop>)

  datatype PrefixAdd = PrefixAdd(name: Name, cost: nat)

  /** One published operation list. */
  datatype OpList = OpList(exitRouter: Option<Name>, reset: bool, adds: seq<PrefixAdd>, removes: seq<Name>)

  /** The copy of another router's prefixes. */
  type Replica = map<Name, nat>

  // ---------------------------------------------------------------- replicas

  ghost function AddAll(m: Replica, adds: seq<PrefixAdd>): Replica {
    if adds == [] then m
    else AddAll(m, adds[..|adds| - 1])[adds[|adds| - 1].name := adds[|adds| - 1].cost]
  }

  ghost function RemoveAll(m: Replica, removes: seq<Name>): Replica {
    if removes == [] then m else RemoveAll(m, removes[..|removes| - 1]) - {removes[|removes| - 1]}
  }

  ghost function ApplyOps(m: Replica, op: OpList): Replica {
    RemoveAll(AddAll(if op.reset then map[] else m, op.adds), op.removes)
  }

  /** What a replica holds after the published operations, in order. */
  ghost function ApplyLog(m: Replica, log: seq<OpList>): Replica {
    if log == [] then m else ApplyOps(ApplyLog(m, log[..|log| - 1]), log[|log| - 1])
  }

  lemma {:induction false} ApplyLogConcat(m: Replica, a: seq<OpList>, b: seq<OpList>)
    ensures ApplyLog(m, a + b) == ApplyLog(ApplyLog(m, a), b)
  {
    if b == [] {
      assert a + b == a;
    } else {
      ApplyLogConcat(m, a, b[..|b| - 1]);
      assert (a + b)[..|a + b| - 1] == a + b[..|b| - 1];
    }
  }

  /** Costs that honest routers publish. */
  ghost predicate Modest(op: OpList) {
    forall i :: 0 <= i < |op.adds| ==> op.adds[i].cost <= COST_PFX_INFINITY
  }

  type PublishedOp = op: OpList | Modest(op) witness OpList(None, false, [], [])

  ghost predicate ModestReplica(m: Replica) {
    forall n :: n in m ==> m[n] <= COST_PFX_INFINITY
  }

  lemma {:induction false} ModestAdds(m: Replica, adds: seq<PrefixAdd>)
    requires ModestReplica(m) && forall i :: 0 <= i < |adds| ==> adds[i].cost <= COST_PFX_INFINITY
    ensures ModestReplica(AddAll(m, adds))
  {
    if adds == [] {
    } else {
      ModestAdds(m, adds[..|adds| - 1]);
    }
  }

  lemma {:induction false} ModestRemoves(m: Replica, removes: seq<Name>)
    requires ModestReplica(m)
    ensures ModestReplica(RemoveAll(m, removes))
  {
    if removes == [] {
    } else {
      ModestRemoves(m, removes[..|removes| - 1]);
    }
  }

  /** A copy of honestly published costs has no cost above the limit. */
  lemma ModestApply(m: Replica, op: OpList)
    requires ModestReplica(m) && Modest(op)
    ensures ModestReplica(ApplyOps(m, op))
  {
    var start := if op.reset then map[] else m;
    ModestAdds(start, op.adds);
    ModestRemoves(AddAll(start, op.adds), op.removes);
  }

  function ReplicaOf(routers: map<Name, Replica>, router: Name): Replica {
    if router in routers then routers[router] else map[]
  }

  ghost predicate AllModest(routers: map<Name, Replica>) {
    forall r :: r in routers ==> ModestReplica(routers[r])
  }

  /** The receiving side: a copy per announcing router. */
  class ReplicaTable {
    var routers: map<Name, Replica>

    constructor ()
      ensures routers == map[]
    {
      routers := map[];
    }

    ghost function Of(router: Name): Replica
      reads this
    {
      ReplicaOf(routers, router)
    }

    /** Applies one list to the copy of its router, and to no other. A list without a router is refused. */
    method Apply(op: OpList) returns (dirty: bool)
      modifies this
      ensures op.exitRouter.None? ==> !dirty && routers == old(routers)
      ensures op.exitRouter.Some? ==> dirty == (op.reset || op.adds != [] || op.removes != [])
      ensures op.exitRouter.Some? ==> Of(op.exitRouter.value) == ApplyOps(old(Of(op.exitRouter.value)), op)
      ensures forall r: Name :: op.exitRouter != Some(r) ==> Of(r) == old(Of(r))
      ensures old(AllModest(routers)) && Modest(op) ==> AllModest(routers)
    {
      dirty := false;
      if op.exitRouter.None? {
        return;
      }
      var router := op.exitRouter.value;
      var m := if router in routers then routers[router] else map[];
      if op.reset {
        m := map[];
        dirty := true;
      }
      ghost var start := m;
      for i := 0 to |op.adds|
        invariant m == AddAll(start, op.adds[..i]) && dirty == (op.reset || i > 0)
      {
        assert op.adds[..i + 1][..i] == op.adds[..i];
        m := m[op.adds[i].name := op.adds[i].cost];
        dirty := true;
      }
      assert op.adds[..|op.adds|] == op.adds;
      ghost var added := m;
      for i := 0 to |op.removes|
        invariant m == RemoveAll(added, op.removes[..i]) && dirty == (op.reset || op.adds != [] || i > 0)
      {
        assert op.removes[..i + 1][..i] == op.removes[..i];
        m := m - {op.removes[i]};
        dirty := true;
      }
      assert op.removes[..|op.removes|] == op.removes;
      if AllModest(routers) && Modest(op) {
        ModestApply(ReplicaOf(routers, router), op);
      }
      routers := routers[router := m];
    }
  }

  // ---------------------------------------------------------------- next hops

  /** The first next hop of the face, or one past the last. */
  ghost function HopIndex(hops: seq<NextHop>, face: Face): (k: nat)
    ensures k <= |hops| && (k < |hops| ==> hops[k].face == face)
    ensures forall i :: 0 <= i < k ==> hops[i].face != face
  {
    if hops == [] then 0 else if hops[0].face == face then 0 else 1 + HopIndex(hops[1..], face)
  }

  ghost predicate HopsApart(hops: seq<NextHop>, i: nat, j: nat)
    requires i < |hops| && j < |hops|
  {
    hops[i].face != hops[j].face
  }

  ghost predicate OnePerFace(hops: seq<NextHop>) {
    forall i: nat, j: nat {:trigger HopsApart(hops, i, j)} :: i < j < |hops| ==> HopsApart(hops, i, j)
  }

  /** The least cost of a next hop, or the highest number there is. */
  ghost function LeastCost(hops: seq<NextHop>): nat {
    if hops == [] then NO_COST else Min(LeastCost(hops[..|hops| - 1]), hops[|hops| - 1].cost)
  }

  lemma {:induction false} LeastCostFacts(hops: seq<NextHop>)
    ensures LeastCost(hops) <= NO_COST && forall i :: 0 <= i < |hops| ==> LeastCost(hops) <= hops[i].cost
    ensures LeastCost(hops) < NO_COST ==> exists i :: 0 <= i < |hops| && hops[i].cost == LeastCost(hops)
  {
    if hops == [] {
    } else {
      var front := hops[..|hops| - 1];
      LeastCostFacts(front);
      assert forall i :: 0 <= i < |front| ==> front[i] == hops[i];
    }
  }

  method ComputeCost(hops: seq<NextHop>) returns (cost: nat)
    ensures cost == LeastCost(hops)
  {
    cost := NO_COST;
    for i := 0 to |hops|
      invariant cost == LeastCost(hops[..i])
    {
      assert hops[..i + 1][..i] == hops[..i];
      if hops[i].cost < cost {
        cost := hops[i].cost;
      }
    }
    assert hops[..|hops|] == hops;
  }

  method FindHop(hops: seq<NextHop>, face: Face) returns (k: nat)
    ensures k == HopIndex(hops, face)
  {
    k := 0;
    while k < |hops| && hops[k].face != face
      invariant 0 <= k <= |hops| && forall i :: 0 <= i < k ==> hops[i].face != face
    {
      k := k + 1;
    }
  }

  /** The next hops with the one of the face set. */
  ghost function PutHop(hops: seq<NextHop>, face: Face, cost: nat): seq<NextHop> {
    var k := HopIndex(hops, face);
    if k < |hops| then hops[k := NextHop(face, cost)] else hops + [NextHop(face, cost)]
  }

  /** The next hops without the one of the face. */
  ghost function DropHop(hops: seq<NextHop>, face: Face): seq<NextHop> {
    var k := HopIndex(hops, face);
    if k < |hops| then hops[..k] + hops[k + 1..] else hops
  }

  // ------------------------------------------------------------- the meaning

  /** The next hops kept are announced ones, and only announcements of no use may be missing. */
  ghost predicate Reflects(hops: seq<NextHop>, announced: map<Face, nat>) {
    && OnePerFace(hops)
    && (forall i :: 0 <= i < |hops| ==> hops[i].face in announced && announced[hops[i].face] == hops[i].cost)
    && (forall f: Face :: f in announced && announced[f] < COST_PFX_INFINITY ==> HopIndex(hops, f) < |hops|)
  }

  ghost predicate Useless(announced: map<Face, nat>) {
    forall f :: f in announced ==> announced[f] >= COST_PFX_INFINITY
  }

  lemma PutReflects(hops: seq<NextHop>, announced: map<Face, nat>, face: Face, cost: nat)
    requires Reflects(hops, announced)
    ensures Reflects(PutHop(hops, face, cost), announced[face := cost])
  {
    var r, k := PutHop(hops, face, cost), HopIndex(hops, face);
    forall i: nat, j: nat | i < j < |r|
      ensures HopsApart(r, i, j)
    {
      assert j < |hops| ==> HopsApart(hops, i, j);
    }
    forall i | 0 <= i < |hops| && i != k
      ensures hops[i].face != face
    {
      assert k < i ==> HopsApart(hops, k, i);
    }
    forall f: Face | f in announced[face := cost] && announced[face := cost][f] < COST_PFX_INFINITY
      ensures HopIndex(r, f) < |r|
    {
      var i := if f == face then k else HopIndex(hops, f);
      assert r[i].face == f;
    }
  }

  lemma DropReflects(hops: seq<NextHop>, announced: map<Face, nat>, face: Face)
    requires Reflects(hops, announced)
    ensures Reflects(DropHop(hops, face), announced - {face})
  {
    var r, k := DropHop(hops, face), HopIndex(hops, face);
    forall i: nat | i < |r|
      ensures r[i].face != face && r[i] == hops[if i < k then i else i + 1]
    {
      assert i >= k ==> HopsApart(hops, k, i + 1);
    }
    forall i: nat, j: nat | i < j < |r|
      ensures HopsApart(r, i, j)
    {
      assert HopsApart(hops, if i < k then i else i + 1, if j < k then j else j + 1);
    }
    forall f: Face | f in announced - {face} && announced[f] < COST_PFX_INFINITY
      ensures HopIndex(r, f) < |r|
    {
      var i := HopIndex(hops, f);
      assert r[if i < k then i else i - 1].face == f;
    }
  }

  ghost function AnnouncedFor(wanted: map<Name, map<Face, nat>>, n: Name): map<Face, nat> {
    if n in wanted then wanted[n] else map[]
  }

  /** The entry of a name, if any, against what is announced for it. */
  ghost predicate EntryOk(prefixes: map<Name, PrefixEntry>, wanted: map<Name, map<Face, nat>>, n: Name) {
    if n in prefixes then
      && Reflects(prefixes[n].nextHops, AnnouncedFor(wanted, n))
      && prefixes[n].cost == LeastCost(prefixes[n].nextHops) <= COST_PFX_INFINITY
    else Useless(AnnouncedFor(wanted, n))
  }

  /** A replica has exactly the entries with a usable cost. */
  ghost predicate SameAs(replica: Replica, prefixes: map<Name, PrefixEntry>, n: Name) {
    && (n in replica <==> n in prefixes && prefixes[n].cost < COST_PFX_INFINITY)
    && (n in replica ==> replica[n] == prefixes[n].cost)
  }

  /** The least cost announced for a name, if it is of use. */
  ghost predicate IsLeastAnnounced(announced: map<Face, nat>, cost: nat) {
    && cost < COST_PFX_INFINITY && (exists f :: f in announced && announced[f] == cost)
    && forall f :: f in announced ==> cost <= announced[f]
  }

  lemma LeastAnnounced(hops: seq<NextHop>, announced: map<Face, nat>)
    requires Reflects(hops, announced) && LeastCost(hops) < COST_PFX_INFINITY
    ensures IsLeastAnnounced(announced, LeastCost(hops))
  {
    LeastCostFacts(hops);
    var i :| 0 <= i < |hops| && hops[i].cost == LeastCost(hops);
    assert hops[i].face in announced;
    forall f: Face | f in announced
      ensures LeastCost(hops) <= announced[f]
    {
      if announced[f] < COST_PFX_INFINITY {
        assert hops[HopIndex(hops, f)].face == f;
      }
    }
  }

  lemma NoneOfUse(hops: seq<NextHop>, announced: map<Face, nat>)
    requires Reflects(hops, announced) && LeastCost(hops) >= COST_PFX_INFINITY
    ensures Useless(announced)
  {
    LeastCostFacts(hops);
    forall f: Face | f in announced
      ensures announced[f] >= COST_PFX_INFINITY
    {
      var k := HopIndex(hops, f);
    }
  }

  ghost predicate TableOk(prefixes: map<Name, PrefixEntry>, wanted: map<Name, map<Face, nat>>, replica: Replica) {
    forall n: Name {:trigger EntryOk(prefixes, wanted, n)} ::
        EntryOk(prefixes, wanted, n) && SameAs(replica, prefixes, n)
  }

  ghost function HopsOf(prefixes: map<Name, PrefixEntry>, name: Name): seq<NextHop> {
    if name in prefixes then prefixes[name].nextHops else []
  }

  /** The table after the next hops of a name changed. A cost that is new and of no use removes the entry. */
  ghost function Updated(prefixes: map<Name, PrefixEntry>, name: Name, hops: seq<NextHop>): map<Name, PrefixEntry> {
    var prior := if name in prefixes then prefixes[name].cost else COST_PFX_INFINITY;
    var stored := prefixes[name := PrefixEntry(LeastCost(hops), hops)];
    if LeastCost(hops) != prior && LeastCost(hops) >= COST_PFX_INFINITY then stored - {name} else stored
  }

  /** The operation that tells others of a cost. */
  ghost function Change(router: Name, name: Name, cost: nat): OpList {
    if cost < COST_PFX_INFINITY then OpList(Some(router), false, [PrefixAdd(name, cost)], [])
    else OpList(Some(router), false, [], [name])
  }

  /** What is published when the next hops of a name change: nothing unless the cost does. */
  ghost function News(router: Name, prefixes: map<Name, PrefixEntry>, name: Name, hops: seq<NextHop>): seq<OpList> {
    var prior := if name in prefixes then prefixes[name].cost else COST_PFX_INFINITY;
    if LeastCost(hops) == prior then [] else [Change(router, name, LeastCost(hops))]
  }

  // A change of one name leaves all others in order.

  lemma StoreEntry(prefixes: map<Name, PrefixEntry>, wanted: map<Name, map<Face, nat>>, replica: Replica, name: Name,
                   entry: PrefixEntry, announced: map<Face, nat>, replica': Replica)
    requires TableOk(prefixes, wanted, replica)
    requires Reflects(entry.nextHops, announced) && entry.cost == LeastCost(entry.nextHops) <= COST_PFX_INFINITY
    requires replica' == replica || replica' == replica[name := entry.cost]
    requires SameAs(replica', prefixes[name := entry], name)
    ensures TableOk(prefixes[name := entry], wanted[name := announced], replica')
  {
    var p, w := prefixes[name := entry], wanted[name := announced];
    forall n: Name
      ensures EntryOk(p, w, n) && SameAs(replica', p, n)
    {
      assert EntryOk(prefixes, wanted, n);
    }
  }

  lemma DropEntry(prefixes: map<Name, PrefixEntry>, wanted: map<Name, map<Face, nat>>, replica: Replica, name: Name,
                  entry: PrefixEntry, announced: map<Face, nat>)
    requires TableOk(prefixes, wanted, replica) && Useless(announced)
    ensures TableOk(prefixes[name := entry] - {name}, wanted[name := announced], replica - {name})
  {
    var p, w, r := prefixes[name := entry] - {name}, wanted[name := announced], replica - {name};
    forall n: Name
      ensures EntryOk(p, w, n) && SameAs(r, p, n)
    {
      assert EntryOk(prefixes, wanted, n);
    }
  }

  lemma SkipEntry(prefixes: map<Name, PrefixEntry>, wanted: map<Name, map<Face, nat>>, replica: Replica, name: Name,
                  announced: map<Face, nat>)
    requires TableOk(prefixes, wanted, replica) && name !in prefixes && Useless(announced)
    ensures TableOk(prefixes, wanted[name := announced], replica)
  {
    var w := wanted[name := announced];
    forall n: Name
      ensures EntryOk(prefixes, w, n) && SameAs(replica, prefixes, n)
    {
      assert EntryOk(prefixes, wanted, n);
    }
  }

  class PrefixTable {
    const router: Name
    var prefixes: map<Name, PrefixEntry>
    var log: seq<PublishedOp>

    // What has been announced and not withdrawn since the last reset.
    ghost var wanted: map<Name, map<Face, nat>>

    ghost predicate Valid()
      reads this
    {
      TableOk(prefixes, wanted, ApplyLog(map[], log))
    }

    constructor (router: Name)
      ensures Valid() && wanted == map[] && log == [] && this.router == router
    {
      this.router := router;
      prefixes, log, wanted := map[], [], map[];
    }

    method Publish(op: PublishedOp)
      modifies `log
      ensures log == old(log) + [op] && ApplyLog(map[], log) == ApplyOps(old(ApplyLog(map[], log)), op)
    {
      log := log + [op];
      assert log[..|log| - 1] == old(log);
    }

    /** Forgets all local prefixes. */
    method Reset()
      modifies this
      ensures Valid() && prefixes == map[] && wanted == map[] && log == old(log) + [OpList(Some(router), true, [], [])]
    {
      prefixes, wanted := map[], map[];
      Publish(OpList(Some(router), true, [], []));
    }

    /** Announces a prefix through a face, at a cost. */
    method Announce(name: Name, face: Face, cost: nat)
      requires Valid() && cost < WORD
      modifies this
      ensures Valid() && wanted == old(wanted)[name := AnnouncedFor(old(wanted), name)[face := cost]]
      ensures prefixes == Updated(old(prefixes), name, PutHop(HopsOf(old(prefixes), name), face, cost))
      ensures log == old(log) + News(router, old(prefixes), name, PutHop(HopsOf(old(prefixes), name), face, cost))
    {
      assert EntryOk(prefixes, wanted, name);
      var entry := if name in prefixes then prefixes[name] else PrefixEntry(COST_PFX_INFINITY, []);
      var k := FindHop(entry.nextHops, face);
      var hops := if k < |entry.nextHops| then entry.nextHops[k := NextHop(face, cost)]
          else entry.nextHops + [NextHop(face, cost)];
      ghost var announced := AnnouncedFor(wanted, name);
      PutReflects(entry.nextHops, announced, face, cost);
      UpdateEntry(name, entry.cost, hops, announced[face := cost]);
    }

    /** Withdraws a prefix from a face. */
    method Withdraw(name: Name, face: Face)
      requires Valid()
      modifies this
      ensures Valid() && wanted == old(wanted)[name := AnnouncedFor(old(wanted), name) - {face}]
      ensures prefixes == if name in old(prefixes) then Updated(old(prefixes), name,
                                                                DropHop(HopsOf(old(prefixes), name), face))
                          else old(prefixes)
      ensures log == if name in old(prefixes) then old(log) + News(router, old(prefixes), name,
                                                                   DropHop(HopsOf(old(prefixes), name), face))
                     else old(log)
    {
      assert EntryOk(prefixes, wanted, name);
      if name !in prefixes {
        SkipEntry(prefixes, wanted, ApplyLog(map[], log), name, AnnouncedFor(wanted, name) - {face});
        wanted := wanted[name := AnnouncedFor(wanted, name) - {face}];
        return;
      }
      var entry := prefixes[name];
      var k := FindHop(entry.nextHops, face);
      var hops := if k < |entry.nextHops| then entry.nextHops[..k] + entry.nextHops[k + 1..] else entry.nextHops;
      ghost var announced := AnnouncedFor(wanted, name);
      DropReflects(entry.nextHops, announced, face);
      UpdateEntry(name, entry.cost, hops, announced - {face});
    }

    /** Stores the next hops of a name, and publishes its cost if that has changed. */
    method UpdateEntry(name: Name, prior: nat, hops: seq<NextHop>, ghost announced: map<Face, nat>)
      requires Valid() && Reflects(hops, announced)
      requires prior == if name in prefixes then prefixes[name].cost else COST_PFX_INFINITY
      modifies this
      ensures Valid() && wanted == old(wanted)[name := announced] && prefixes == Updated(old(prefixes), name, hops)
      ensures log == old(log) + News(router, old(prefixes), name, hops)
    {
      var cost := ComputeCost(hops);
      assert EntryOk(prefixes, wanted, name);
      ghost var replica := ApplyLog(map[], log);
      var entry := PrefixEntry(cost, hops);
      if cost == prior {
        StoreEntry(prefixes, wanted, replica, name, entry, announced, replica);
      } else if cost < COST_PFX_INFINITY {
        StoreEntry(prefixes, wanted, replica, name, entry, announced, replica[name := cost]);
      } else {
        NoneOfUse(hops, announced);
        DropEntry(prefixes, wanted, replica, name, entry, announced);
      }
      wanted := wanted[name := announced];
      prefixes := prefixes[name := entry];
      if cost != prior {
        PublishEntry(name, replica);
      }
    }

    /** Publishes the cost of an entry; one that is of no use is published as removed, and dropped. */
    method PublishEntry(name: Name, ghost replica: Replica)
      requires name in prefixes && replica == ApplyLog(map[], log)
      modifies `prefixes, `log
      ensures var cost := old(prefixes)[name].cost;
              && prefixes == (if cost < COST_PFX_INFINITY then old(prefixes) else old(prefixes) - {name})
              && ApplyLog(map[], log) == (if cost < COST_PFX_INFINITY then replica[name := cost] else replica - {name})
              && log == old(log) + [Change(router, name, cost)]
    {
      var entry := prefixes[name];
      if entry.cost < COST_PFX_INFINITY {
        Publish(OpList(Some(router), false, [PrefixAdd(name, entry.cost)], []));
        AddOne(replica, Some(router), name, entry.cost);
      } else {
        Publish(OpList(Some(router), false, [], [name]));
        RemoveOne(replica, Some(router), name);
        prefixes := prefixes - {name};
      }
    }

    /** The whole table as one operation list. */
    method Snap() returns (snap: OpList)
      ensures snap.exitRouter == Some(router) && IsSnap(snap, prefixes) && (Valid() ==> Modest(snap))
    {
      snap := OpList(Some(router), true, [], []);
      var todo := prefixes.Keys;
      while todo != {}
        invariant todo <= prefixes.Keys && snap == OpList(Some(router), true, snap.adds, [])
        invariant forall n :: n in AddAll(map[], snap.adds) <==> n in prefixes && n !in todo
        invariant forall n :: n in AddAll(map[], snap.adds) ==> AddAll(map[], snap.adds)[n] == prefixes[n].cost
        invariant Valid() ==> Modest(snap)
        decreases |todo|
      {
        var n :| n in todo;
        ghost var before := snap.adds;
        assert Valid() ==> EntryOk(prefixes, wanted, n);
        snap := snap.(adds := snap.adds + [PrefixAdd(n, prefixes[n].cost)]);
        assert snap.adds[..|before|] == before;
        todo := todo - {n};
      }
      assert AddAll(map[], snap.adds) == Costs(prefixes);
    }
  }

  ghost function Costs(prefixes: map<Name, PrefixEntry>): Replica {
    map n | n in prefixes :: prefixes[n].cost
  }

  /** A list that replaces everything by the costs in the table. */
  ghost predicate IsSnap(snap: OpList, prefixes: map<Name, PrefixEntry>) {
    snap.reset && snap.removes == [] && AddAll(map[], snap.adds) == Costs(prefixes)
  }

  // ---------------------------------------------------------------- theorems

  /** A replica that applied all operations has exactly the names with a usable announcement, each at its least cost. */
  lemma ReplicaMeaning(prefixes: map<Name, PrefixEntry>, wanted: map<Name, map<Face, nat>>, replica: Replica, n: Name)
    requires TableOk(prefixes, wanted, replica)
    ensures n in replica <==> !Useless(AnnouncedFor(wanted, n))
    ensures n in replica ==> IsLeastAnnounced(AnnouncedFor(wanted, n), replica[n])
  {
    assert EntryOk(prefixes, wanted, n);
    if n in prefixes {
      if prefixes[n].cost < COST_PFX_INFINITY {
        LeastAnnounced(prefixes[n].nextHops, AnnouncedFor(wanted, n));
      } else {
        NoneOfUse(prefixes[n].nextHops, AnnouncedFor(wanted, n));
      }
    }
  }

  /** An entry that was never published: its least cost is exactly the limit. */
  ghost predicate NoStray(prefixes: map<Name, PrefixEntry>) {
    forall n :: n in prefixes ==> prefixes[n].cost != COST_PFX_INFINITY
  }

  /** A snapshot stands for the log so far exactly when no entry sits at the limit. */
  lemma SnapAgrees(prefixes: map<Name, PrefixEntry>, wanted: map<Name, map<Face, nat>>, replica: Replica, snap: OpList,
                   m: Replica)
    requires TableOk(prefixes, wanted, replica) && IsSnap(snap, prefixes)
    ensures ApplyOps(m, snap) == replica <==> NoStray(prefixes)
  {
    assert ApplyOps(m, snap) == Costs(prefixes);
    forall n: Name
      ensures SameAs(replica, prefixes, n) && (n in prefixes ==> prefixes[n].cost <= COST_PFX_INFINITY)
    {
      assert EntryOk(prefixes, wanted, n);
    }
    if NoStray(prefixes) {
      assert Costs(prefixes) == replica;
    } else {
      var n :| n in prefixes && prefixes[n].cost == COST_PFX_INFINITY;
      assert n in Costs(prefixes) && n !in replica;
    }
  }

  /** Any prefix of the log may be replaced by the snapshot taken at its end, for a replica in any state. */
  lemma SnapAnywhere(prefixes: map<Name, PrefixEntry>, wanted: map<Name, map<Face, nat>>, log: seq<OpList>,
                     snap: OpList, m: Replica, suffix: seq<OpList>)
    requires TableOk(prefixes, wanted, ApplyLog(map[], log)) && IsSnap(snap, prefixes) && NoStray(prefixes)
    ensures ApplyLog(m, [snap] + suffix) == ApplyLog(map[], log + suffix)
  {
    SnapAgrees(prefixes, wanted, ApplyLog(map[], log), snap, m);
    ApplyLogConcat(m, [snap], suffix);
    ApplyLogConcat(map[], log, suffix);
    assert [snap][..0] == [] && ApplyLog(m, [snap]) == ApplyOps(ApplyLog(m, []), snap);
  }

  /** An entry comes to sit at the limit only when a name that is not in the table is announced at exactly that cost. */
  lemma StrayOrigin(prefixes: map<Name, PrefixEntry>, name: Name, hops: seq<NextHop>)
    requires NoStray(prefixes)
    ensures NoStray(Updated(prefixes, name, hops)) <==> name in prefixes || LeastCost(hops) != COST_PFX_INFINITY
  {
    var after := Updated(prefixes, name, hops);
    if name !in prefixes && LeastCost(hops) == COST_PFX_INFINITY {
      assert name in after;
    }
  }

  /** And then a replica that starts from the snapshot has a name that one that follows the log has not. */
  lemma StrayExample(n: Name, f: Face)
    ensures var hops := PutHop([], f, COST_PFX_INFINITY);
            var prefixes := Updated(map[], n, hops);
            TableOk(prefixes, map[n := map[f := COST_PFX_INFINITY]], map[])
            && Costs(prefixes) == map[n := COST_PFX_INFINITY]
  {
    var hops := PutHop([], f, COST_PFX_INFINITY);
    assert hops[..0] == [] && LeastCost(hops) == COST_PFX_INFINITY;
    PutReflects([], map[], f, COST_PFX_INFINITY);
    var none: map<Face, nat> := map[];
    assert none[f := COST_PFX_INFINITY] == map[f := COST_PFX_INFINITY];
    StoreEntry(map[], map[], map[], n, PrefixEntry(COST_PFX_INFINITY, hops), none[f := COST_PFX_INFINITY], map[]);
  }

  lemma AddOne(m: Replica, router: Option<Name>, name: Name, cost: nat)
    ensures ApplyOps(m, OpList(router, false, [PrefixAdd(name, cost)], [])) == m[name := cost]
  {
    assert [PrefixAdd(name, cost)][..0] == [];
    assert AddAll(m, []) == m;
  }

  lemma RemoveOne(m: Replica, router: Option<Name>, name: Name)
    ensures ApplyOps(m, OpList(router, false, [], [name])) == m - {name}
  {
    assert [name][..0] == [];
    assert RemoveAll(m, []) == m;
  }
}
