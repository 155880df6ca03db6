/**
 From the routing table to the forwarder: the two best next hops to every router
 in the table, and what that router announces, make up the routes to install.
 */
module FibUpdate {
  import opened Common
  import opened DvTable
  import opened DvRib
  import opened FibSync
  import opened PrefixSync

  /** What updateFib reads besides the routing table: the faces of the live neighbours, the prefix group of a router,
      and the copies of what routers announce. */
  datatype Surroundings = Surroundings(faces: map<Name, Face>, group: Name -> Name, copies: map<Name, Replica>)

  /** Router d is known and announces the name at a cost: its own group at none, or a prefix in the copy of its
      announcements. */
  ghost predicate AnnouncedBy(s: Surroundings, d: Name, n: Name, cost: nat) {
    (s.group(d) == n && cost == 0) || (n in ReplicaOf(s.copies, d) && ReplicaOf(s.copies, d)[n] == cost)
  }

  /** One of the two best next hops to another router d in the table is on the face, and d announces the name. */
  ghost predicate RouteBy(t: Table, self: Name, s: Surroundings, d: Name, n: Name, f: Face, hop: nat, cost: nat) {
    d in t && d != self && HopOn(BestOf(t[d]), s.faces, f, hop) && AnnouncedBy(s, d, n, cost)
  }

  ghost function TableRoutes(t: Table, self: Name, s: Surroundings, n: Name, f: Face): Routes {
    iset hop: nat, cost: nat | exists d: Name :: RouteBy(t, self, s, d, n, f, hop, cost) :: (hop, cost)
  }

  // ------------------------------------------------------------------- exits

  ghost predicate ListsCopy(announced: seq<Announced>, copy: Replica) {
    forall n: Name, cost: nat {:trigger Announced(n, cost)} :: Announced(n, cost) in announced <==>
          n in copy && copy[n] == cost
  }

  /** The exit stands for a router in the table. */
  ghost predicate IsExit(x: Exit, t: Table, s: Surroundings) {
    && x.router in t && x.group == s.group(x.router) && x.hops == NextHops(BestOf(t[x.router]), s.faces)
    && ListsCopy(x.announced, ReplicaOf(s.copies, x.router))
  }

  lemma ExitLeads(x: Exit, t: Table, self: Name, s: Surroundings, n: Name, f: Face, hop: nat, cost: nat)
    requires IsExit(x, t, s)
    ensures LeadsTo(self, x, n, f, hop, cost) <==> RouteBy(t, self, s, x.router, n, f, hop, cost)
  {
    assert Announces(x, n, cost) <==> AnnouncedBy(s, x.router, n, cost) by {
      assert Announced(n, cost) in x.announced <==>
               exists i :: 0 <= i < |x.announced| && x.announced[i] == Announced(n, cost);
    }
  }

  /** The exits are the routers in the table, in any order. */
  ghost predicate AreExits(exits: seq<Exit>, t: Table, s: Surroundings) {
    && (forall i :: 0 <= i < |exits| ==> IsExit(exits[i], t, s))
    && (forall d :: d in t ==> exists i :: 0 <= i < |exits| && exits[i].router == d)
  }

  lemma ExitRoutes(exits: seq<Exit>, t: Table, self: Name, s: Surroundings, n: Name, f: Face)
    requires AreExits(exits, t, s)
    ensures RoutesOf(self, exits, n, f) == TableRoutes(t, self, s, n, f)
  {
    forall hop: nat, cost: nat
      ensures (hop, cost) in RoutesOf(self, exits, n, f) <==> (hop, cost) in TableRoutes(t, self, s, n, f)
    {
      if i :| 0 <= i < |exits| && LeadsTo(self, exits[i], n, f, hop, cost) {
        ExitLeads(exits[i], t, self, s, n, f, hop, cost);
        assert RouteBy(t, self, s, exits[i].router, n, f, hop, cost);
      }
      if d: Name :| RouteBy(t, self, s, d, n, f, hop, cost) {
        var i :| 0 <= i < |exits| && exits[i].router == d;
        ExitLeads(exits[i], t, self, s, n, f, hop, cost);
      }
    }
  }

  /** Lists what a router announces. */
  method ListCopy(copy: Replica) returns (announced: seq<Announced>)
    ensures ListsCopy(announced, copy)
  {
    announced := [];
    var todo := copy.Keys;
    while todo != {}
      invariant todo <= copy.Keys
      invariant forall n: Name, cost: nat {:trigger Announced(n, cost)} ::
                  Announced(n, cost) in announced <==> n in copy && n !in todo && copy[n] == cost
      decreases todo
    {
      var n :| n in todo;
      todo := todo - {n};
      announced := announced + [Announced(n, copy[n])];
    }
  }

  method MakeExit(d: Name, best: Best, s: Surroundings) returns (x: Exit)
    ensures x.router == d && x.group == s.group(d) && x.hops == NextHops(best, s.faces)
    ensures ListsCopy(x.announced, ReplicaOf(s.copies, d))
  {
    var announced := ListCopy(ReplicaOf(s.copies, d));
    x := Exit(d, s.group(d), NextHops(best, s.faces), announced);
  }

  /** Visits the entries of the routing table, in any order. */
  method ListExits(router: Router, s: Surroundings) returns (exits: seq<Exit>)
    requires router.Clean()
    ensures AreExits(exits, router.Table(), s)
  {
    exits := [];
    var todo := router.rib.entries.Keys;
    ghost var vals := router.rib.Vals();
    while todo != {}
      invariant todo <= router.rib.entries.Keys && Visited(exits, vals, todo, s)
      decreases todo
    {
      var d :| d in todo;
      todo := todo - {d};
      var entry := router.rib.entries[d];
      assert vals[d] == entry.Val();
      var x := MakeExit(d, Best(entry.nextHop1, entry.lowest1, entry.nextHop2, entry.lowest2), s);
      VisitOne(exits, vals, todo, s, x);
      exits := exits + [x];
    }
    AllVisited(exits, vals, s);
  }

  ghost predicate Stands(x: Exit, vals: Values, s: Surroundings) {
    && x.router in vals && x.group == s.group(x.router) && x.hops == NextHops(vals[x.router].best, s.faces)
    && ListsCopy(x.announced, ReplicaOf(s.copies, x.router))
  }

  ghost predicate Listed(exits: seq<Exit>, d: Name) {
    exists i :: 0 <= i < |exits| && exits[i].router == d
  }

  /** There is an exit for every entry but those still to do. */
  ghost predicate Visited(exits: seq<Exit>, vals: Values, todo: set<Name>, s: Surroundings) {
    && (forall i :: 0 <= i < |exits| ==> Stands(exits[i], vals, s))
    && (forall d :: d in vals && d !in todo ==> Listed(exits, d))
  }

  lemma VisitOne(exits: seq<Exit>, vals: Values, todo: set<Name>, s: Surroundings, x: Exit)
    requires Visited(exits, vals, todo + {x.router}, s) && Stands(x, vals, s)
    ensures Visited(exits + [x], vals, todo, s)
  {
    forall d | d in vals && d !in todo
      ensures Listed(exits + [x], d)
    {
      if d == x.router {
        assert (exits + [x])[|exits|] == x;
      } else {
        assert Listed(exits, d);
        var i :| 0 <= i < |exits| && exits[i].router == d;
        assert (exits + [x])[i] == exits[i];
      }
    }
  }

  lemma AllVisited(exits: seq<Exit>, vals: Values, s: Surroundings)
    requires AllSettled(vals) && Visited(exits, vals, {}, s)
    ensures AreExits(exits, TableOf(vals), s)
  {
    forall d {
      CachedBest(vals, d);
    }
    forall d | d in TableOf(vals)
      ensures exists i :: 0 <= i < |exits| && exits[i].router == d
    {
      assert Listed(exits, d);
    }
  }

  // ------------------------------------------------------------- the update

  /** What the routing table and the copies of announcements make of the forwarder: per name and face, the cheapest
      next hop plus prefix cost over the routers in the table; a sum that wraps is harmless exactly if it is matched. */
  ghost predicate Mirrors(t: Table, self: Name, s: Surroundings, n: Name, f: Face, cost: nat) {
    var routes := TableRoutes(t, self, s, n, f);
    && IsLeastPrice(routes, true, cost)
    && (Words(routes) ==> (IsLeastPrice(routes, false, cost) <==> Matched(routes)))
  }

  /** The forwarder after an update. If the copies were built from what honest routers publish, the sums are the true
      ones. */
  method UpdateFib(router: Router, s: Surroundings, fib: Fib)
    requires router.Clean() && fib.Valid()
    modifies fib
    ensures fib.Valid()
    ensures forall n: Name, f: Face :: Mirrors(router.Table(), router.name, s, n, f, Replayed(fib.commands, n, f))
    ensures AllModest(s.copies) ==>
              forall n: Name, f: Face :: IsLeastPrice(TableRoutes(router.Table(), router.name, s, n, f), false,
                                                      Replayed(fib.commands, n, f))
  {
    ghost var t, self := router.Table(), router.name;
    var exits := ListExits(router, s);
    Synchronise(fib, router.name, exits);
    forall n: Name, f: Face
      ensures Mirrors(t, self, s, n, f, Replayed(fib.commands, n, f))
      ensures AllModest(s.copies) ==> IsLeastPrice(TableRoutes(t, self, s, n, f), false, Replayed(fib.commands, n, f))
    {
      ExitRoutes(exits, t, self, s, n, f);
      if AllModest(s.copies) {
        HonestRoutes(t, self, s, n, f);
      }
    }
  }

  /** No honest router makes a sum wrap. */
  lemma HonestRoutes(t: Table, self: Name, s: Surroundings, n: Name, f: Face)
    requires AllModest(s.copies)
    ensures Words(TableRoutes(t, self, s, n, f)) && Matched(TableRoutes(t, self, s, n, f))
  {
    var routes := TableRoutes(t, self, s, n, f);
    forall r | r in routes
      ensures r.0 < COST_INFINITY && r.1 <= COST_PFX_INFINITY
    {
      var d: Name :| RouteBy(t, self, s, d, n, f, r.0, r.1);
    }
    ModestMatched(routes);
  }
}
