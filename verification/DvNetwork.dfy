/**
 The network of distance-vector routers: synchronous exchange rounds from an
 arbitrary state, quiescent states, hop-by-hop forwarding, and asynchronous runs
 in which advertisements are lost, delayed, duplicated or reordered.
 */
module DvNetwork {
  import opened DvTable

  // ---------------------------------------------------------------- topology and walks

  datatype Topology = Topology(routers: set<Name>, links: set<(Name, Name)>) {

    /** Links join distinct routers and go both ways. */
    ghost predicate Valid() {
      forall a, b :: (a, b) in links ==> a in routers && b in routers && a != b && (b, a) in links
    }
  }

  ghost predicate IsWalk(g: Topology, w: seq<Name>) {
    && |w| > 0
    && (forall i :: 0 <= i < |w| ==> w[i] in g.routers)
    && (forall i, j :: 0 <= i < |w| && j == i + 1 && j < |w| ==> (w[i], w[j]) in g.links)
  }

  /** No step of the walk is undone by the next one. */
  ghost predicate NeverDoublesBack(w: seq<Name>) {
    forall i, j :: 0 <= i < |w| && j == i + 2 && j < |w| ==> w[i] != w[j]
  }

  ghost predicate WalkFromTo(g: Topology, w: seq<Name>, r: Name, d: Name, k: nat) {
    IsWalk(g, w) && |w| == k + 1 && w[0] == r && w[k] == d
  }

  ghost predicate HasWalk(g: Topology, r: Name, d: Name, k: nat) {
    exists w :: WalkFromTo(g, w, r, d, k)
  }

  /** m is the hop distance from r to d. */
  ghost predicate IsDistance(g: Topology, r: Name, d: Name, m: nat) {
    HasWalk(g, r, d, m) && forall k :: 0 <= k < m ==> !HasWalk(g, r, d, k)
  }

  /** w leaves r through `hop`, reaches d in k steps and never doubles back; a walk of no steps has r itself as hop. */
  ghost predicate WalkVia(g: Topology, w: seq<Name>, r: Name, hop: Name, d: Name, k: nat) {
    WalkFromTo(g, w, r, d, k) && NeverDoublesBack(w) && hop == if k == 0 then r else w[1]
  }

  ghost predicate HasWalkVia(g: Topology, r: Name, hop: Name, d: Name, k: nat) {
    exists w :: WalkVia(g, w, r, hop, d, k)
  }

  lemma WalkPrepend(g: Topology, r: Name, n: Name, d: Name, k: nat)
    requires g.Valid() && (r, n) in g.links && HasWalk(g, n, d, k)
    ensures HasWalk(g, r, d, k + 1)
  {
    var w :| WalkFromTo(g, w, n, d, k);
    assert WalkFromTo(g, [r] + w, r, d, k + 1);
  }

  /** The first step of a positive walk. */
  lemma WalkSplit(g: Topology, r: Name, d: Name, k: nat) returns (n: Name)
    requires HasWalk(g, r, d, k) && k > 0
    ensures (r, n) in g.links && HasWalk(g, n, d, k - 1)
  {
    var w :| WalkFromTo(g, w, r, d, k);
    n := w[1];
    assert (w[0], w[1]) in g.links;
    assert WalkFromTo(g, w[1..], n, d, k - 1);
  }

  lemma WalkViaPrepend(g: Topology, r: Name, n: Name, hop: Name, d: Name, k: nat)
    requires g.Valid() && (r, n) in g.links && HasWalkVia(g, n, hop, d, k) && hop != r
    ensures HasWalkVia(g, r, n, d, k + 1)
  {
    var w :| WalkVia(g, w, n, hop, d, k);
    var w' := [r] + w;
    forall i, j | 0 <= i < |w'| && j == i + 2 && j < |w'|
      ensures w'[i] != w'[j]
    {
      assert i > 0 ==> w[i - 1] != w[j - 1];
    }
    assert WalkVia(g, w', r, n, d, k + 1);
  }

  /** A walk through a hop is a walk, and past the hop it is one step shorter. */
  lemma WalkViaIsWalk(g: Topology, r: Name, hop: Name, d: Name, k: nat)
    requires HasWalkVia(g, r, hop, d, k)
    ensures HasWalk(g, r, d, k)
    ensures k > 0 ==> (r, hop) in g.links && HasWalk(g, hop, d, k - 1)
  {
    var w :| WalkVia(g, w, r, hop, d, k);
    assert WalkFromTo(g, w, r, d, k);
    if k > 0 {
      assert (w[0], w[1]) in g.links;
      assert WalkFromTo(g, w[1..], hop, d, k - 1);
    }
  }

  lemma EmptyWalk(g: Topology, r: Name)
    requires r in g.routers
    ensures HasWalkVia(g, r, r, r, 0) && IsDistance(g, r, r, 0)
  {
    assert WalkVia(g, [r], r, r, r, 0);
    WalkViaIsWalk(g, r, r, r, 0);
  }

  // ---------------------------------------------------------------- network states

  type Tables = map<Name, Table>

  /** What holds of the table of router r whatever it has heard before: it holds its own entry at
      cost 0, and every other cost is positive and comes from a current neighbour. */
  ghost predicate Local(g: Topology, r: Name, t: Table) {
    && Normal(t)
    && Cost(t, r, r) == 0
    && forall d, n {:trigger Cost(t, d, n)} :: Cost(t, d, n) < COST_INFINITY ==>
         if n == r then d == r else (r, n) in g.links && Cost(t, d, n) > 0
  }

  ghost predicate LocalNet(g: Topology, s: Tables) {
    && g.Valid() && s.Keys == g.routers
    && forall r {:trigger Local(g, r, s[r])} :: r in s ==> Local(g, r, s[r])
  }

  /** The table of a router that has just started: only itself, at cost 0. */
  function InitialTable(r: Name): Table {
    map[r := map[r := 0]]
  }

  ghost function InitialNet(g: Topology): Tables {
    map r | r in g.routers :: InitialTable(r)
  }

  lemma InitialIsLocal(g: Topology)
    requires g.Valid()
    ensures LocalNet(g, InitialNet(g))
  {
  }

  /** The cost of every finite entry up to k is the length of a real walk through its next hop. */
  ghost predicate RealUpTo(g: Topology, r: Name, t: Table, k: nat) {
    forall d, n {:trigger Cost(t, d, n)} ::
      Cost(t, d, n) <= k && Cost(t, d, n) < COST_INFINITY ==> HasWalkVia(g, r, n, d, Cost(t, d, n))
  }

  /** The same for an advertisement of router n: its other cost avoids its next hop. */
  ghost predicate EntryRealUpTo(g: Topology, n: Name, d: Name, e: AdvEntry, k: nat) {
    && e.cost <= COST_INFINITY && e.otherCost <= COST_INFINITY
    && (e.cost <= k && e.cost < COST_INFINITY ==> HasWalkVia(g, n, e.nextHop, d, e.cost))
    && (e.otherCost <= k && e.otherCost < COST_INFINITY ==>
          exists h :: h != e.nextHop && HasWalkVia(g, n, h, d, e.otherCost))
  }

  ghost predicate AdvertRealUpTo(g: Topology, n: Name, adv: Advert, k: nat) {
    forall d :: d in adv ==> EntryRealUpTo(g, n, d, adv[d], k)
  }

  lemma AdvertReal(g: Topology, n: Name, t: Table, k: nat)
    requires Normal(t) && RealUpTo(g, n, t, k)
    ensures AdvertRealUpTo(g, n, AdvertOf(t), k)
  {
    forall d | d in t
      ensures EntryRealUpTo(g, n, d, AdvertOf(t)[d], k)
    {
      var b := BestOf(t[d]);
      assert b.low1 < COST_INFINITY ==> Cost(t, d, b.hop1) == b.low1;
      assert b.low2 < COST_INFINITY ==> Cost(t, d, b.hop2) == b.low2;
    }
  }

  /** Poison reverse keeps the walk of every derived cost from doubling back. */
  lemma OfferReal(g: Topology, r: Name, n: Name, d: Name, e: AdvEntry, k: nat)
    requires g.Valid() && (r, n) in g.links && EntryRealUpTo(g, n, d, e, k)
    ensures Offer(r, e) > 0
    ensures Offer(r, e) <= k + 1 && Offer(r, e) < COST_INFINITY ==> HasWalkVia(g, r, n, d, Offer(r, e))
  {
    if Offer(r, e) <= k + 1 && Offer(r, e) < COST_INFINITY {
      if e.nextHop == r {
        var h :| h != e.nextHop && HasWalkVia(g, n, h, d, e.otherCost);
        WalkViaPrepend(g, r, n, h, d, e.otherCost);
      } else {
        WalkViaPrepend(g, r, n, e.nextHop, d, e.cost);
      }
    }
  }

  // ---------------------------------------------------------------- synchronous rounds

  /** What r derives from the current table of a neighbour, infinity if nothing. */
  ghost function Heard(r: Name, t: Table, d: Name): (c: nat)
    ensures 0 < c <= COST_INFINITY
  {
    if d in t && Offer(r, EntryOf(d, BestOf(t[d]))) < COST_INFINITY then Offer(r, EntryOf(d, BestOf(t[d])))
    else COST_INFINITY
  }

  /** The table of r after receiving the advertisement that n makes from its table tn. */
  ghost function Hear(r: Name, t: Table, n: Name, tn: Table): Table {
    Receive(t, n, ColumnOf(r, AdvertOf(tn)))
  }

  lemma HearCost(r: Name, t: Table, n: Name, tn: Table, d: Name, m: Name)
    requires Normal(t)
    ensures Normal(Hear(r, t, n, tn))
    ensures Cost(Hear(r, t, n, tn), d, m) == if m == n then Heard(r, tn, d) else Cost(t, d, m)
  {
    ReceiveCost(t, n, ColumnOf(r, AdvertOf(tn)));
  }

  /** What r holds for d through n once it has received the current advertisement of every neighbour. */
  ghost function RoundCell(g: Topology, s: Tables, r: Name, d: Name, n: Name): nat
    requires s.Keys == g.routers
  {
    if n in g.routers && (r, n) in g.links then Heard(r, s[n], d)
    else if n == r && d == r then 0
    else COST_INFINITY
  }

  ghost predicate IsRoundTable(g: Topology, s: Tables, r: Name, t: Table)
    requires s.Keys == g.routers
  {
    Normal(t) && forall d, n {:trigger Cost(t, d, n)} :: Cost(t, d, n) == RoundCell(g, s, r, d, n)
  }

  /** s' is the network after one exchange round: every router has received the advertisement
      that each of its neighbours makes in s. */
  ghost predicate IsRound(g: Topology, s: Tables, s': Tables) {
    && s.Keys == g.routers && s'.Keys == g.routers
    && forall r {:trigger IsRoundTable(g, s, r, s'[r])} :: r in g.routers ==> IsRoundTable(g, s, r, s'[r])
  }

  /** Successive exchange rounds. */
  ghost predicate IsRun(g: Topology, run: seq<Tables>) {
    |run| > 0 && forall i, j :: 0 <= i && j == i + 1 && j < |run| ==> IsRound(g, run[i], run[j])
  }

  lemma RoundIsLocal(g: Topology, s: Tables, r: Name, t: Table)
    requires g.Valid() && s.Keys == g.routers && r in g.routers && IsRoundTable(g, s, r, t)
    ensures Local(g, r, t)
  {
  }

  /** If the costs a neighbour holds up to k are real, those derived from it up to k + 1 are. */
  lemma HeardReal(g: Topology, r: Name, n: Name, t: Table, k: nat, d: Name)
    requires g.Valid() && (r, n) in g.links
    requires Normal(t) && RealUpTo(g, n, t, k)
    ensures Heard(r, t, d) <= k + 1 && Heard(r, t, d) < COST_INFINITY ==> HasWalkVia(g, r, n, d, Heard(r, t, d))
  {
    AdvertReal(g, n, t, k);
    if d in t {
      OfferReal(g, r, n, d, AdvertOf(t)[d], k);
    }
  }

  /** The lowest cost of a destination, infinity when there is no entry. */
  ghost function Lowest(t: Table, d: Name): nat {
    BestOf(Get(t, d)).low1
  }

  ghost function NextHop(t: Table, d: Name): Name {
    BestOf(Get(t, d)).hop1
  }

  lemma LowestIsLeast(t: Table, d: Name)
    requires Normal(t)
    ensures Lowest(t, d) <= COST_INFINITY
    ensures Lowest(t, d) < COST_INFINITY <==> d in t
    ensures Lowest(t, d) < COST_INFINITY ==> Cost(t, d, NextHop(t, d)) == Lowest(t, d)
    ensures forall n :: Lowest(t, d) <= Cost(t, d, n)
  {
    if d in t {
      var h :| h in t[d];
      assert t[d][h] < COST_INFINITY;
    }
  }

  /** Every destination within k hops of r, and nearer than infinity, is held at its exact distance. */
  ghost predicate ExactUpTo(g: Topology, r: Name, t: Table, k: nat) {
    forall d, m: nat {:trigger IsDistance(g, r, d, m)} ::
      IsDistance(g, r, d, m) && m <= k && m < COST_INFINITY ==> Lowest(t, d) == m
  }

  /** A table in which old information survives only in costs above k. */
  ghost predicate Settled(g: Topology, r: Name, t: Table, k: nat) {
    Local(g, r, t) && RealUpTo(g, r, t, k) && ExactUpTo(g, r, t, k)
  }

  ghost predicate SettledNet(g: Topology, s: Tables, k: nat) {
    && g.Valid() && s.Keys == g.routers
    && forall r {:trigger Settled(g, r, s[r], k)} :: r in s ==> Settled(g, r, s[r], k)
  }

  /** A real lowest cost is never below the distance. */
  lemma LowestNotBelow(g: Topology, r: Name, t: Table, k: nat, d: Name, m: nat)
    requires Normal(t) && RealUpTo(g, r, t, k) && IsDistance(g, r, d, m) && m <= k
    ensures Lowest(t, d) >= m || Lowest(t, d) >= COST_INFINITY
  {
    LowestIsLeast(t, d);
    if Lowest(t, d) < m && Lowest(t, d) < COST_INFINITY {
      WalkViaIsWalk(g, r, NextHop(t, d), d, Lowest(t, d));
    }
  }

  lemma LocalIsSettled(g: Topology, r: Name, t: Table)
    requires g.Valid() && r in g.routers && Local(g, r, t)
    ensures Settled(g, r, t, 0)
  {
    EmptyWalk(g, r);
    forall d, m: nat {:trigger IsDistance(g, r, d, m)} | IsDistance(g, r, d, m) && m == 0
      ensures Lowest(t, d) == 0
    {
      LowestIsLeast(t, d);
      assert Lowest(t, d) <= Cost(t, d, r);
    }
  }

  /** A neighbour that holds its exact distance m - 1 is heard at m: its next hop is not the farther r,
      so poison reverse never hides a shortest path. */
  lemma ShortestIsHeard(g: Topology, r: Name, n: Name, t: Table, k: nat, d: Name, m: nat)
    requires g.Valid() && Normal(t) && RealUpTo(g, n, t, k)
    requires IsDistance(g, r, d, m) && 0 < m <= k + 1 && m < COST_INFINITY
    requires Lowest(t, d) == m - 1
    ensures Heard(r, t, d) == m
  {
    LowestIsLeast(t, d);
    var hop := NextHop(t, d);
    assert HasWalkVia(g, n, hop, d, m - 1);
    WalkViaIsWalk(g, n, hop, d, m - 1);
    if m == 1 {
      assert !HasWalk(g, r, d, 0);
    } else {
      assert !HasWalk(g, r, d, m - 2);
    }
  }

  lemma NeighborCloser(g: Topology, r: Name, n: Name, d: Name, m: nat)
    requires g.Valid() && IsDistance(g, r, d, m) && m > 0
    requires (r, n) in g.links && HasWalk(g, n, d, m - 1)
    ensures IsDistance(g, n, d, m - 1)
  {
    forall k | 0 <= k < m - 1
      ensures !HasWalk(g, n, d, k)
    {
      if HasWalk(g, n, d, k) {
        WalkPrepend(g, r, n, d, k);
      }
    }
  }

  lemma RoundCellReal(g: Topology, s: Tables, k: nat, r: Name, d: Name, n: Name)
    requires SettledNet(g, s, k) && r in g.routers
    ensures var c := RoundCell(g, s, r, d, n);
            c <= k + 1 && c < COST_INFINITY ==> HasWalkVia(g, r, n, d, c)
  {
    if (r, n) in g.links {
      assert Settled(g, n, s[n], k);
      HeardReal(g, r, n, s[n], k, d);
    } else {
      EmptyWalk(g, r);
    }
  }

  lemma RoundReal(g: Topology, s: Tables, k: nat, r: Name, t: Table)
    requires SettledNet(g, s, k) && r in g.routers && IsRoundTable(g, s, r, t)
    ensures RealUpTo(g, r, t, k + 1)
  {
    forall d, n {:trigger Cost(t, d, n)}
      ensures Cost(t, d, n) <= k + 1 && Cost(t, d, n) < COST_INFINITY ==> HasWalkVia(g, r, n, d, Cost(t, d, n))
    {
      RoundCellReal(g, s, k, r, d, n);
    }
  }

  lemma RoundDistance(g: Topology, s: Tables, k: nat, r: Name, t: Table, d: Name, m: nat)
    requires SettledNet(g, s, k) && r in g.routers && IsRoundTable(g, s, r, t)
    requires IsDistance(g, r, d, m) && m <= k + 1 && m < COST_INFINITY
    ensures Lowest(t, d) == m
  {
    RoundIsLocal(g, s, r, t);
    RoundReal(g, s, k, r, t);
    LowestNotBelow(g, r, t, k + 1, d, m);
    LowestIsLeast(t, d);
    if m == 0 {
      assert Lowest(t, d) <= Cost(t, d, r);
    } else {
      var n := WalkSplit(g, r, d, m);
      NeighborCloser(g, r, n, d, m);
      assert Settled(g, n, s[n], k);
      ShortestIsHeard(g, r, n, s[n], k, d, m);
      assert Lowest(t, d) <= Cost(t, d, n);
    }
  }

  /** A table that holds what a router hears from settled neighbours is settled one step further. */
  lemma RoundTableSettles(g: Topology, s: Tables, k: nat, r: Name, t: Table)
    requires SettledNet(g, s, k) && r in g.routers && IsRoundTable(g, s, r, t)
    ensures Settled(g, r, t, k + 1)
  {
    RoundIsLocal(g, s, r, t);
    RoundReal(g, s, k, r, t);
    forall d, m: nat {:trigger IsDistance(g, r, d, m)} | IsDistance(g, r, d, m) && m <= k + 1 && m < COST_INFINITY
      ensures Lowest(t, d) == m
    {
      RoundDistance(g, s, k, r, t, d, m);
    }
  }

  lemma RoundSettles(g: Topology, s: Tables, k: nat, s': Tables)
    requires SettledNet(g, s, k) && IsRound(g, s, s')
    ensures SettledNet(g, s', k + 1)
  {
    forall r | r in g.routers
      ensures Settled(g, r, s'[r], k + 1)
    {
      assert IsRoundTable(g, s, r, s'[r]);
      RoundTableSettles(g, s, k, r, s'[r]);
    }
  }

  lemma LocalNetIsSettled(g: Topology, s: Tables)
    requires LocalNet(g, s)
    ensures SettledNet(g, s, 0)
  {
    forall r | r in g.routers
      ensures Settled(g, r, s[r], 0)
    {
      assert Local(g, r, s[r]);
      LocalIsSettled(g, r, s[r]);
    }
  }

  /** Self-stabilisation: k exchange rounds from any state settle every cost up to k. */
  lemma {:induction false} RunSettles(g: Topology, run: seq<Tables>, k: nat)
    requires IsRun(g, run) && LocalNet(g, run[0]) && k < |run|
    ensures SettledNet(g, run[k], k)
  {
    if k == 0 {
      LocalNetIsSettled(g, run[0]);
    } else {
      RunSettles(g, run, k - 1);
      RoundSettles(g, run[k - 1], k - 1, run[k]);
    }
  }

  // ---------------------------------------------------------------- settled networks

  lemma {:induction false} DistanceExists(g: Topology, r: Name, d: Name, k: nat) returns (m: nat)
    requires HasWalk(g, r, d, k)
    ensures m <= k && IsDistance(g, r, d, m)
  {
    if j: nat :| j < k && HasWalk(g, r, d, j) {
      m := DistanceExists(g, r, d, j);
    } else {
      m := k;
    }
  }

  /** Once all finite costs are settled a router has an entry exactly for the destinations nearer than
      infinity, at their distance; dead and farther destinations have none. */
  lemma SettledTable(g: Topology, r: Name, t: Table, d: Name)
    requires Settled(g, r, t, COST_INFINITY - 1)
    ensures d in t <==> exists m: nat :: m < COST_INFINITY && IsDistance(g, r, d, m)
    ensures d in t ==> IsDistance(g, r, d, Lowest(t, d))
  {
    LowestIsLeast(t, d);
    if d in t {
      assert HasWalkVia(g, r, NextHop(t, d), d, Lowest(t, d));
      WalkViaIsWalk(g, r, NextHop(t, d), d, Lowest(t, d));
      var m := DistanceExists(g, r, d, Lowest(t, d));
    }
  }

  /** Where a packet for d is after k hops, each taken to the best next hop. */
  ghost function Forward(s: Tables, r: Name, d: Name, k: nat): Name
    decreases k
  {
    if k == 0 || r !in s then r else Forward(s, NextHop(s[r], d), d, k - 1)
  }

  /** The best next hop is a neighbour exactly one step closer. */
  lemma NextHopCloser(g: Topology, r: Name, t: Table, d: Name, m: nat)
    requires g.Valid() && Settled(g, r, t, COST_INFINITY - 1)
    requires IsDistance(g, r, d, m) && 0 < m < COST_INFINITY
    ensures (r, NextHop(t, d)) in g.links && IsDistance(g, NextHop(t, d), d, m - 1)
  {
    LowestIsLeast(t, d);
    assert HasWalkVia(g, r, NextHop(t, d), d, m);
    WalkViaIsWalk(g, r, NextHop(t, d), d, m);
    NeighborCloser(g, r, NextHop(t, d), d, m);
  }

  /** Hop-by-hop forwarding in a settled network gets one step closer with every hop, so it visits no
      router twice and arrives after exactly the distance. */
  lemma {:induction false} ForwardArrives(g: Topology, s: Tables, r: Name, d: Name, m: nat, i: nat)
    requires SettledNet(g, s, COST_INFINITY - 1) && r in g.routers
    requires IsDistance(g, r, d, m) && m < COST_INFINITY && i <= m
    ensures IsDistance(g, Forward(s, r, d, i), d, m - i)
    ensures Forward(s, r, d, m) == d
    decreases m
  {
    assert Settled(g, r, s[r], COST_INFINITY - 1);
    if m == 0 {
    } else {
      NextHopCloser(g, r, s[r], d, m);
      ForwardArrives(g, s, NextHop(s[r], d), d, m - 1, if i == 0 then 0 else i - 1);
    }
  }

  // ---------------------------------------------------------------- quiescence

  /** No neighbour's current advertisement would change any table. */
  ghost predicate Quiescent(g: Topology, s: Tables) {
    && LocalNet(g, s)
    && forall r, n :: (r, n) in g.links ==> Hear(r, s[r], n, s[n]) == s[r]
  }

  lemma QuiescentTable(g: Topology, s: Tables, r: Name)
    requires Quiescent(g, s) && r in g.routers
    ensures IsRoundTable(g, s, r, s[r])
  {
    var t := s[r];
    assert Local(g, r, t);
    forall d: Name, n: Name {:trigger Cost(t, d, n)}
      ensures Cost(t, d, n) == RoundCell(g, s, r, d, n)
    {
      if (r, n) in g.links {
        HearCost(r, t, n, s[n], d, n);
      }
    }
  }

  /** In every quiescent state, whatever failed before, every cost is real and every distance exact. */
  lemma QuiescentIsSettled(g: Topology, s: Tables, k: nat)
    requires Quiescent(g, s)
    ensures SettledNet(g, s, k)
  {
    var run := seq(k + 1, _ => s);
    forall r | r in g.routers
      ensures IsRoundTable(g, s, r, s[r])
    {
      QuiescentTable(g, s, r);
    }
    assert IsRound(g, s, s);
    RunSettles(g, run, k);
  }

  // ---------------------------------------------------------------- convergence to one state

  /** The two rows hold the same costs up to k. */
  ghost predicate RowsAgree(row: Row, row': Row, k: nat) {
    forall h :: (h in row && row[h] <= k) || (h in row' && row'[h] <= k) ==>
      h in row && h in row' && row[h] == row'[h]
  }

  /** Rows that agree up to k are heard alike up to k + 1. */
  lemma AgreeingOffers(r: Name, d: Name, row: Row, row': Row, k: nat)
    requires RowsAgree(row, row', k) && k + 1 < COST_INFINITY
    requires Offer(r, EntryOf(d, BestOf(row))) <= k + 1
    ensures Offer(r, EntryOf(d, BestOf(row'))) == Offer(r, EntryOf(d, BestOf(row)))
  {
    var b, b' := BestOf(row), BestOf(row');
    assert b.low1 <= b.low2;
    assert b.hop1 in row' && row'[b.hop1] == b.low1;
    assert b'.hop1 in row && row[b'.hop1] == b'.low1;
    assert b.hop1 == b'.hop1;
    if b.hop1 == r {
      assert b.hop2 in row' && row'[b.hop2] == b.low2;
      assert b'.hop2 in row && row[b'.hop2] == b'.low2;
    }
  }

  ghost predicate TablesAgree(t: Table, t': Table, k: nat) {
    forall d, n {:trigger Cost(t, d, n)} {:trigger Cost(t', d, n)} ::
      Cost(t, d, n) <= k || Cost(t', d, n) <= k ==> Cost(t, d, n) == Cost(t', d, n)
  }

  lemma AgreeingHeard(r: Name, t: Table, t': Table, d: Name, k: nat)
    requires Normal(t) && Normal(t') && TablesAgree(t, t', k) && k + 1 < COST_INFINITY
    requires Heard(r, t, d) <= k + 1
    ensures Heard(r, t', d) == Heard(r, t, d)
  {
    forall h | (h in Get(t, d) && Get(t, d)[h] <= k) || (h in Get(t', d) && Get(t', d)[h] <= k)
      ensures h in Get(t, d) && h in Get(t', d) && Get(t, d)[h] == Get(t', d)[h]
    {
      assert Cost(t, d, h) == Cost(t', d, h);
    }
    AgreeingOffers(r, d, Get(t, d), Get(t', d), k);
  }

  ghost predicate NetsAgree(g: Topology, s: Tables, s': Tables, k: nat) {
    match g
    case Topology(routers, _) =>
      && LocalNet(g, s) && LocalNet(g, s')
      && forall r {:trigger TablesAgree(s[r], s'[r], k)} :: r in routers ==> TablesAgree(s[r], s'[r], k)
  }

  lemma RoundAgreesAt(g: Topology, s: Tables, s': Tables, k: nat, r: Name, t: Table, t': Table)
    requires NetsAgree(g, s, s', k) && k + 1 < COST_INFINITY && r in g.routers
    requires IsRoundTable(g, s, r, t) && IsRoundTable(g, s', r, t')
    ensures TablesAgree(t, t', k + 1)
  {
    forall d, n | Cost(t, d, n) <= k + 1 || Cost(t', d, n) <= k + 1
      ensures Cost(t, d, n) == Cost(t', d, n)
    {
      if (r, n) in g.links {
        assert Local(g, n, s[n]) && Local(g, n, s'[n]) && TablesAgree(s[n], s'[n], k);
        if Heard(r, s[n], d) <= k + 1 {
          AgreeingHeard(r, s[n], s'[n], d, k);
        } else {
          AgreeingHeard(r, s'[n], s[n], d, k);
        }
      }
    }
  }

  lemma RoundAgrees(g: Topology, s: Tables, s': Tables, k: nat, s1: Tables, s1': Tables)
    requires NetsAgree(g, s, s', k) && k + 1 < COST_INFINITY
    requires IsRound(g, s, s1) && IsRound(g, s', s1')
    ensures NetsAgree(g, s1, s1', k + 1)
  {
    forall r | r in g.routers
      ensures Local(g, r, s1[r]) && Local(g, r, s1'[r]) && TablesAgree(s1[r], s1'[r], k + 1)
    {
      assert IsRoundTable(g, s, r, s1[r]) && IsRoundTable(g, s', r, s1'[r]);
      RoundIsLocal(g, s, r, s1[r]);
      RoundIsLocal(g, s', r, s1'[r]);
      RoundAgreesAt(g, s, s', k, r, s1[r], s1'[r]);
    }
  }

  lemma LocalNetsAgree(g: Topology, s: Tables, s': Tables)
    requires LocalNet(g, s) && LocalNet(g, s')
    ensures NetsAgree(g, s, s', 0)
  {
    forall r | r in g.routers
      ensures TablesAgree(s[r], s'[r], 0)
    {
      assert Local(g, r, s[r]) && Local(g, r, s'[r]);
    }
  }

  lemma {:induction false} RunsAgree(g: Topology, run: seq<Tables>, run': seq<Tables>, k: nat)
    requires IsRun(g, run) && IsRun(g, run') && LocalNet(g, run[0]) && LocalNet(g, run'[0])
    requires k < |run| && k < |run'| && k < COST_INFINITY
    ensures NetsAgree(g, run[k], run'[k], k)
  {
    if k == 0 {
      LocalNetsAgree(g, run[0], run'[0]);
    } else {
      RunsAgree(g, run, run', k - 1);
      RoundAgrees(g, run[k - 1], run'[k - 1], k - 1, run[k], run'[k]);
    }
  }

  lemma AgreeingNetsAreEqual(g: Topology, s: Tables, s': Tables)
    requires NetsAgree(g, s, s', COST_INFINITY - 1)
    ensures s == s'
  {
    forall r | r in g.routers
      ensures s[r] == s'[r]
    {
      var t, t' := s[r], s'[r];
      assert Local(g, r, t) && Local(g, r, t') && TablesAgree(t, t', COST_INFINITY - 1);
      forall d, n
        ensures Cost(t, d, n) == Cost(t', d, n)
      {
        CostBounded(t, d, n);
        CostBounded(t', d, n);
      }
      TableExtensional(t, t');
    }
  }

  lemma CostBounded(t: Table, d: Name, n: Name)
    requires Normal(t)
    ensures Cost(t, d, n) <= COST_INFINITY
  {
  }

  /** Fifteen rounds lead every network with the given links to the same state, whatever it held before,
      and further rounds do not change it. */
  lemma RunsConverge(g: Topology, run: seq<Tables>, k: nat, run': seq<Tables>, k': nat)
    requires IsRun(g, run) && LocalNet(g, run[0]) && COST_INFINITY - 1 <= k < |run|
    requires IsRun(g, run') && LocalNet(g, run'[0]) && COST_INFINITY - 1 <= k' < |run'|
    ensures run[k] == run'[k']
  {
    var last := COST_INFINITY - 1;
    var tail := RunSuffix(g, run, k - last);
    var tail' := RunSuffix(g, run', k' - last);
    RunsAgree(g, tail, tail', last);
    AgreeingNetsAreEqual(g, tail[last], tail'[last]);
  }

  lemma RunSuffix(g: Topology, run: seq<Tables>, first: nat) returns (tail: seq<Tables>)
    requires IsRun(g, run) && LocalNet(g, run[0]) && first < |run|
    ensures tail == run[first..] && IsRun(g, tail) && LocalNet(g, tail[0])
  {
    tail := run[first..];
    RunStaysLocal(g, run, first);
    forall i, j | 0 <= i && j == i + 1 && j < |tail|
      ensures IsRound(g, tail[i], tail[j])
    {
      assert tail[i] == run[first + i] && tail[j] == run[first + j];
    }
  }

  lemma RunStaysLocal(g: Topology, run: seq<Tables>, k: nat)
    requires IsRun(g, run) && LocalNet(g, run[0]) && k < |run|
    ensures LocalNet(g, run[k])
  {
    RunSettles(g, run, k);
    forall r | r in g.routers
      ensures Local(g, r, run[k][r])
    {
      assert Settled(g, r, run[k][r], k);
    }
  }

  /** From the fifteenth round on the state is quiescent. */
  lemma ConvergedIsQuiescent(g: Topology, run: seq<Tables>, k: nat)
    requires IsRun(g, run) && LocalNet(g, run[0]) && COST_INFINITY - 1 <= k && k + 1 < |run|
    ensures Quiescent(g, run[k])
  {
    RunsConverge(g, run, k, run, k + 1);
    RunStaysLocal(g, run, k);
    FixpointIsQuiescent(g, run[k], run[k + 1]);
  }

  lemma FixpointIsQuiescent(g: Topology, s: Tables, s': Tables)
    requires LocalNet(g, s) && IsRound(g, s, s') && s == s'
    ensures Quiescent(g, s)
  {
    forall r, n | (r, n) in g.links
      ensures Hear(r, s[r], n, s[n]) == s[r]
    {
      assert Local(g, r, s[r]) && IsRoundTable(g, s, r, s[r]);
      ReceiveSame(g, s, r, n);
    }
  }

  lemma ReceiveSame(g: Topology, s: Tables, r: Name, n: Name)
    requires s.Keys == g.routers && g.Valid() && (r, n) in g.links
    requires Normal(s[r]) && IsRoundTable(g, s, r, s[r])
    ensures Hear(r, s[r], n, s[n]) == s[r]
  {
    var t := Hear(r, s[r], n, s[n]);
    HearCost(r, s[r], n, s[n], 0, 0);
    forall d: Name, m: Name
      ensures Cost(t, d, m) == Cost(s[r], d, m)
    {
      HearCost(r, s[r], n, s[n], d, m);
    }
    TableExtensional(t, s[r]);
  }

  // ---------------------------------------------------------------- rounds are what routers do

  /** Receive the current advertisements of the listed neighbours one after the other. */
  ghost function ReceiveAll(t: Table, order: seq<Name>, r: Name, s: Tables): Table
    requires forall i :: 0 <= i < |order| ==> order[i] in s
    decreases |order|
  {
    if order == [] then t
    else ReceiveAll(Hear(r, t, order[0], s[order[0]]), order[1..], r, s)
  }

  lemma {:induction false} ReceiveAllCost(t: Table, order: seq<Name>, r: Name, s: Tables, d: Name, n: Name)
    requires Normal(t) && forall i :: 0 <= i < |order| ==> order[i] in s
    ensures Normal(ReceiveAll(t, order, r, s))
    ensures Cost(ReceiveAll(t, order, r, s), d, n) == if n in order then Heard(r, s[n], d) else Cost(t, d, n)
    decreases |order|
  {
    if order == [] {
    } else {
      var first, rest := order[0], order[1..];
      HearCost(r, t, first, s[first], d, n);
      ReceiveAllCost(Hear(r, t, first, s[first]), rest, r, s, d, n);
      assert n in order <==> n == first || n in rest by {
        assert order == [first] + rest;
      }
    }
  }

  /** Receiving the advertisement of every neighbour, in any order and any number of times each, is a round. */
  lemma AnyOrderIsRound(g: Topology, s: Tables, r: Name, order: seq<Name>)
    requires LocalNet(g, s) && r in g.routers
    requires forall i :: 0 <= i < |order| ==> order[i] in s
    requires forall n :: n in order <==> (r, n) in g.links
    ensures IsRoundTable(g, s, r, ReceiveAll(s[r], order, r, s))
  {
    assert Local(g, r, s[r]);
    var t := ReceiveAll(s[r], order, r, s);
    ReceiveAllCost(s[r], order, r, s, 0, 0);
    forall d: Name, n: Name {:trigger Cost(t, d, n)}
      ensures Cost(t, d, n) == RoundCell(g, s, r, d, n)
    {
      ReceiveAllCost(s[r], order, r, s, d, n);
      CostBounded(s[r], d, n);
    }
  }

  // ---------------------------------------------------------------- start-up

  ghost predicate CostsWithin(t: Table, k: nat) {
    forall d, n {:trigger Cost(t, d, n)} :: Cost(t, d, n) < COST_INFINITY ==> Cost(t, d, n) <= k
  }

  lemma HeardWithin(r: Name, t: Table, d: Name, k: nat)
    requires Normal(t) && CostsWithin(t, k) && Heard(r, t, d) < COST_INFINITY
    ensures Heard(r, t, d) <= k + 1
  {
    var b := BestOf(t[d]);
    assert b.low1 < COST_INFINITY ==> Cost(t, d, b.hop1) == b.low1;
    assert b.low2 < COST_INFINITY ==> Cost(t, d, b.hop2) == b.low2;
  }

  lemma {:induction false} StartupCosts(g: Topology, run: seq<Tables>, k: nat, r: Name)
    requires g.Valid() && IsRun(g, run) && run[0] == InitialNet(g) && k < |run| && r in g.routers
    ensures run[k].Keys == g.routers && CostsWithin(run[k][r], k)
  {
    InitialIsLocal(g);
    RunStaysLocal(g, run, k);
    if k == 0 {
    } else {
      RunStaysLocal(g, run, k - 1);
      forall n | n in g.routers
        ensures CostsWithin(run[k - 1][n], k - 1)
      {
        StartupCosts(g, run, k - 1, n);
      }
      assert IsRoundTable(g, run[k - 1], r, run[k][r]);
      RoundWithin(g, run[k - 1], k - 1, r, run[k][r]);
    }
  }

  lemma RoundWithin(g: Topology, s: Tables, k: nat, r: Name, t: Table)
    requires LocalNet(g, s) && r in g.routers && IsRoundTable(g, s, r, t)
    requires forall n {:trigger CostsWithin(s[n], k)} :: n in g.routers ==> CostsWithin(s[n], k)
    ensures CostsWithin(t, k + 1)
  {
    forall d: Name, n: Name {:trigger Cost(t, d, n)} | Cost(t, d, n) < COST_INFINITY
      ensures Cost(t, d, n) <= k + 1
    {
      if (r, n) in g.links {
        assert Local(g, n, s[n]) && CostsWithin(s[n], k);
        HeardWithin(r, s[n], d, k);
      }
    }
  }

  /** After k < 16 rounds from start-up a router has an entry exactly for the destinations within k hops,
      at their distance. */
  lemma StartupExact(g: Topology, run: seq<Tables>, k: nat, r: Name, d: Name)
    requires g.Valid() && IsRun(g, run) && run[0] == InitialNet(g)
    requires k < |run| && k < COST_INFINITY && r in g.routers
    ensures run[k].Keys == g.routers
    ensures d in run[k][r] <==> exists m: nat :: m <= k && IsDistance(g, r, d, m)
    ensures forall m: nat :: m <= k && IsDistance(g, r, d, m) ==> Lowest(run[k][r], d) == m
  {
    InitialIsLocal(g);
    RunSettles(g, run, k);
    StartupCosts(g, run, k, r);
    var t := run[k][r];
    assert Settled(g, r, t, k);
    LowestIsLeast(t, d);
    if d in t {
      assert HasWalkVia(g, r, NextHop(t, d), d, Lowest(t, d));
      WalkViaIsWalk(g, r, NextHop(t, d), d, Lowest(t, d));
      var m := DistanceExists(g, r, d, Lowest(t, d));
    }
  }

  // ---------------------------------------------------------------- link changes

  /** When the links of r change, dropping the columns of the neighbours it lost makes its table local again. */
  lemma LinkLossRepaired(g: Topology, g': Topology, r: Name, t: Table, n: Name)
    requires Local(g, r, t) && n != r
    requires forall m :: (r, m) in g.links && m != n ==> (r, m) in g'.links
    ensures Local(g', r, Receive(t, n, map[]))
  {
    ReceiveCost(t, n, map[]);
    forall d, m {:trigger Cost(Receive(t, n, map[]), d, m)}
      ensures Cost(Receive(t, n, map[]), d, m) == if m == n then COST_INFINITY else Cost(t, d, m)
    {
    }
  }

  // ---------------------------------------------------------------- asynchronous runs

  /** The tables, and for each router every advertisement it has ever produced: each may arrive late,
      several times, out of order, or never. */
  datatype Net = Net(tables: Tables, sent: map<Name, set<Advert>>)

  datatype Action =
    | Generate(r: Name)                            // r advertises its current table
    | Deliver(r: Name, n: Name, adv: Advert)       // an advertisement of n reaches r
    | Lose(r: Name, n: Name)                       // r declares its neighbour n dead

  ghost predicate Enabled(g: Topology, net: Net, a: Action) {
    && a.r in net.tables && a.r in net.sent
    && match a
       case Generate(_) => true
       case Deliver(r, n, adv) => (r, n) in g.links && n in net.sent && adv in net.sent[n]
       case Lose(r, n) => n != r
  }

  ghost function Act(net: Net, a: Action): Net
    requires a.r in net.tables && a.r in net.sent
  {
    match a
    case Generate(r) => net.(sent := net.sent[r := net.sent[r] + {AdvertOf(net.tables[r])}])
    case Deliver(r, n, adv) => net.(tables := net.tables[r := Receive(net.tables[r], n, ColumnOf(r, adv))])
    case Lose(r, n) => net.(tables := net.tables[r := Receive(net.tables[r], n, map[])])
  }

  ghost predicate Step(g: Topology, net: Net, a: Action, net': Net) {
    Enabled(g, net, a) && net' == Act(net, a)
  }

  ghost predicate IsAsyncRun(g: Topology, nets: seq<Net>, actions: seq<Action>) {
    && |nets| == |actions| + 1
    && nets[0] == Net(InitialNet(g), map r | r in g.routers :: {})
    && forall i, j :: 0 <= i < |actions| && j == i + 1 ==>
         Step(g, nets[i], actions[i], nets[j])
  }

  const ALL: nat := COST_INFINITY - 1

  /** All information in the network is real: in the tables and in every advertisement, however old. */
  ghost predicate Sound(g: Topology, net: Net) {
    && net.tables.Keys == g.routers && net.sent.Keys == g.routers
    && (forall r {:trigger SoundTable(g, r, net.tables[r])} :: r in g.routers ==> SoundTable(g, r, net.tables[r]))
    && (forall r {:trigger SoundAdverts(g, r, net.sent[r])} :: r in g.routers ==> SoundAdverts(g, r, net.sent[r]))
  }

  ghost predicate SoundAdverts(g: Topology, r: Name, advs: set<Advert>) {
    forall adv {:trigger AdvertRealUpTo(g, r, adv, ALL)} :: adv in advs ==> AdvertRealUpTo(g, r, adv, ALL)
  }

  ghost predicate SoundTable(g: Topology, r: Name, t: Table) {
    Local(g, r, t) && RealUpTo(g, r, t, ALL)
  }

  lemma ReceiveSound(g: Topology, r: Name, t: Table, n: Name, adv: Advert)
    requires g.Valid() && SoundTable(g, r, t) && (r, n) in g.links && AdvertRealUpTo(g, n, adv, ALL)
    ensures SoundTable(g, r, Receive(t, n, ColumnOf(r, adv)))
  {
    var t' := Receive(t, n, ColumnOf(r, adv));
    ReceiveCost(t, n, ColumnOf(r, adv));
    forall d: Name, m: Name {:trigger Cost(t', d, m)} | Cost(t', d, m) < COST_INFINITY
      ensures HasWalkVia(g, r, m, d, Cost(t', d, m)) && (m != r ==> (r, m) in g.links && Cost(t', d, m) > 0)
    {
      if m == n {
        OfferReal(g, r, n, d, adv[d], ALL);
      } else {
        assert Cost(t', d, m) == Cost(t, d, m);
      }
    }
  }

  lemma LoseSound(g: Topology, r: Name, t: Table, n: Name)
    requires SoundTable(g, r, t) && n != r
    ensures SoundTable(g, r, Receive(t, n, map[]))
  {
    LinkLossRepaired(g, g, r, t, n);
    var t' := Receive(t, n, map[]);
    ReceiveCost(t, n, map[]);
    forall d: Name, m: Name {:trigger Cost(t', d, m)} | Cost(t', d, m) < COST_INFINITY
      ensures HasWalkVia(g, r, m, d, Cost(t', d, m))
    {
      assert Cost(t', d, m) == Cost(t, d, m);
    }
  }

  lemma UpdateSound(g: Topology, net: Net, r: Name, t: Table)
    requires Sound(g, net) && r in g.routers && SoundTable(g, r, t)
    ensures Sound(g, net.(tables := net.tables[r := t]))
  {
    forall x | x in g.routers
      ensures SoundTable(g, x, net.tables[r := t][x])
    {
      assert SoundTable(g, x, net.tables[x]);
    }
  }

  lemma AdvertiseSound(g: Topology, net: Net, r: Name, adv: Advert)
    requires Sound(g, net) && r in g.routers && AdvertRealUpTo(g, r, adv, ALL)
    ensures Sound(g, net.(sent := net.sent[r := net.sent[r] + {adv}]))
  {
    forall x | x in g.routers
      ensures SoundAdverts(g, x, net.sent[r := net.sent[r] + {adv}][x])
    {
      assert SoundAdverts(g, x, net.sent[x]);
    }
  }

  lemma ActSound(g: Topology, net: Net, a: Action)
    requires g.Valid() && Sound(g, net) && Enabled(g, net, a)
    ensures Sound(g, Act(net, a))
  {
    var t := net.tables[a.r];
    assert SoundTable(g, a.r, t);
    match a {
      case Generate(r) =>
        AdvertReal(g, r, t, ALL);
        AdvertiseSound(g, net, r, AdvertOf(t));
      case Deliver(r, n, adv) =>
        assert SoundAdverts(g, n, net.sent[n]) && AdvertRealUpTo(g, n, adv, ALL);
        ReceiveSound(g, r, t, n, adv);
        UpdateSound(g, net, r, Receive(t, n, ColumnOf(r, adv)));
      case Lose(r, n) =>
        LoseSound(g, r, t, n);
        UpdateSound(g, net, r, Receive(t, n, map[]));
    }
  }

  lemma InitialSound(g: Topology)
    requires g.Valid()
    ensures Sound(g, Net(InitialNet(g), map r | r in g.routers :: {}))
  {
    InitialIsLocal(g);
    forall r | r in g.routers
      ensures SoundTable(g, r, InitialTable(r))
    {
      assert Local(g, r, InitialNet(g)[r]);
      EmptyWalk(g, r);
    }
  }

  /** Over every asynchronous run, each finite cost is the length of a walk to the destination that leaves
      through that neighbour and never doubles back. */
  lemma {:induction false} AsyncRunSound(g: Topology, nets: seq<Net>, actions: seq<Action>, k: nat)
    requires g.Valid() && IsAsyncRun(g, nets, actions) && k < |nets|
    ensures Sound(g, nets[k])
  {
    if k == 0 {
      InitialSound(g);
    } else {
      AsyncRunSound(g, nets, actions, k - 1);
      assert Step(g, nets[k - 1], actions[k - 1], nets[k]);
      ActSound(g, nets[k - 1], actions[k - 1]);
    }
  }
}
