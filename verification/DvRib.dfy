/**
 The routing information base of one router: cost tables that are updated in
 place, cached best hops, dirty bits, and the two handlers that change them.
 */
module DvRib {
  import opened Common
  import opened DvTable

  /** The value of an entry: its cost table, the cached best hops, and whether it awaits a refresh. */
  datatype Value = Value(costs: Row, best: Best, dirty: bool) {

    /** The cached pair is that of the cost table, unless the entry is marked for a refresh. */
    ghost predicate Agrees() {
      dirty || best == BestOf(costs)
    }

    ghost function Refreshed(): Value {
      Value(costs, BestOf(costs), false)
    }

    /** One cost set; a cost that is known already changes nothing. */
    ghost function WithCost(hop: Name, cost: nat): Value {
      if hop in costs && costs[hop] == cost then this else Value(costs[hop := cost], best, dirty).Refreshed()
    }

    function Reset(hop: Name): Value {
      Value(costs[hop := COST_INFINITY], best, true)
    }

    ghost function Removed(hop: Name): Value {
      if hop in costs then Value(costs - {hop}, best, dirty).Refreshed() else this
    }

    ghost function Pruned(): Value {
      if dirty then Refreshed() else this
    }
  }

  const NewValue := Value(map[], Best(0, 0, 0, 0), false)

  type Values = map<Name, Value>

  /** The abstract table: finite costs only, no empty rows. */
  ghost function TableOf(vals: Values): (t: Table)
    ensures Normal(t)
  {
    map d | d in vals && Finite(vals[d].costs) != map[] :: Finite(vals[d].costs)
  }

  /** The cost an entry holds for one next hop, infinity if none. */
  ghost function CellOf(v: Value, hop: Name): nat {
    if hop in v.costs && v.costs[hop] < COST_INFINITY then v.costs[hop] else COST_INFINITY
  }

  lemma TableOfCost(vals: Values, d: Name, hop: Name)
    ensures Cost(TableOf(vals), d, hop) == if d in vals then CellOf(vals[d], hop) else COST_INFINITY
  {
    if d in vals && hop in Finite(vals[d].costs) {
      assert Finite(vals[d].costs) != map[];
    }
  }

  ghost function SetOne(vals: Values, dest: Name, hop: Name, cost: nat): Values {
    vals[dest := (if dest in vals then vals[dest] else NewValue).WithCost(hop, cost)]
  }

  ghost function ResetAll(vals: Values, hop: Name): Values {
    map d | d in vals :: vals[d].Reset(hop)
  }

  ghost function RemoveAll(vals: Values, hop: Name): Values {
    map d | d in vals :: vals[d].Removed(hop)
  }

  ghost function RefreshAll(vals: Values): Values {
    map d | d in vals :: vals[d].Pruned()
  }

  ghost function PruneAll(vals: Values): Values {
    map d | d in vals && vals[d].Pruned().best.low1 != COST_INFINITY :: vals[d].Pruned()
  }

  lemma RefreshedAll(vals: Values)
    ensures RefreshAll(vals) - Unreachable(RefreshAll(vals), {}) == PruneAll(vals)
  {
  }

  /** What the cached fields advertise. */
  ghost function Advertised(vals: Values): Advert {
    map d | d in vals :: EntryOf(d, vals[d].best)
  }

  /** The cached pairs. */
  ghost function Bests(vals: Values): map<Name, Best> {
    map d | d in vals :: vals[d].best
  }

  lemma SameBests(vals: Values, vals': Values)
    requires vals.Keys == vals'.Keys
    ensures Bests(vals) == Bests(vals') <==> forall d :: d in vals ==> vals[d].best == vals'[d].best
  {
    assert forall d :: d in vals ==> Bests(vals)[d] == vals[d].best && Bests(vals')[d] == vals'[d].best;
  }

  lemma DroppedBests(vals: Values, dead: set<Name>)
    requires dead <= vals.Keys
    ensures if dead == {} then Bests(vals - dead) == Bests(vals)
            else exists d :: d in dead && d in Bests(vals) && d !in Bests(vals - dead)
  {
    if dead == {} {
      assert vals - dead == vals;
    } else {
      var d :| d in dead;
      assert d in Bests(vals) && d !in Bests(vals - dead);
    }
  }

  /** The entries that are done and have no way to their destination. */
  ghost function Unreachable(vals: Values, todo: set<Name>): set<Name> {
    set d | d in vals && d !in todo && vals[d].best.low1 == COST_INFINITY
  }

  lemma UnreachableNext(vals: Values, todo: set<Name>, d: Name)
    requires d in vals && d in todo
    ensures Unreachable(vals, todo - {d}) ==
            Unreachable(vals, todo) + (if vals[d].best.low1 == COST_INFINITY then {d} else {})
  {
  }

  /** Some entry that is done has another cached pair than before. */
  ghost predicate Differ(before: Values, after: Values, todo: set<Name>) {
    exists d :: d in before && d in after && d !in todo && before[d].best != after[d].best
  }

  /** The values while a scan is under way. */
  ghost function Mixed(before: Values, after: Values, todo: set<Name>): Values
    requires before.Keys == after.Keys
  {
    map d | d in before :: if d in todo then before[d] else after[d]
  }

  lemma MixedNext(before: Values, after: Values, todo: set<Name>, d: Name)
    requires before.Keys == after.Keys && d in before && d in todo
    ensures Mixed(before, after, todo)[d] == before[d]
    ensures Mixed(before, after, todo - {d}) == Mixed(before, after, todo)[d := after[d]]
    ensures Differ(before, after, todo - {d}) <==> Differ(before, after, todo) || before[d].best != after[d].best
  {
    if e :| e in before && e in after && e !in todo && before[e].best != after[e].best {
      assert e !in todo - {d};
    }
    assert d !in todo - {d};
  }

  lemma MixedEnds(before: Values, after: Values)
    requires before.Keys == after.Keys
    ensures Mixed(before, after, before.Keys) == before && !Differ(before, after, before.Keys)
    ensures Mixed(before, after, {}) == after
    ensures Differ(before, after, {}) <==> Bests(before) != Bests(after)
  {
    SameBests(before, after);
  }

  lemma AdvertisedBests(vals: Values, vals': Values)
    requires Bests(vals) == Bests(vals')
    ensures Advertised(vals) == Advertised(vals')
  {
    assert vals.Keys == Bests(vals).Keys && vals'.Keys == Bests(vals').Keys;
    assert forall d :: d in vals ==> Bests(vals)[d] == vals[d].best && Bests(vals')[d] == vals'[d].best;
  }

  ghost predicate AllAgree(vals: Values) {
    forall d :: d in vals ==> vals[d].Agrees()
  }

  ghost predicate AllSettled(vals: Values) {
    forall d :: d in vals ==> Settled(vals[d])
  }

  ghost predicate Settled(v: Value) {
    !v.dirty && v.Agrees() && v.best.low1 < COST_INFINITY
  }

  lemma Overwritten(vals: Values, d: Name, v: Value, w: Value)
    ensures vals[d := v][d := w] == vals[d := w]
  {
  }

  class RibEntry {
    const name: Name
    var costs: Row
    var nextHop1: Name
    var nextHop2: Name
    var lowest1: nat
    var lowest2: nat
    var dirty: bool

    constructor (name: Name)
      ensures this.name == name && Val() == NewValue
    {
      this.name := name;
      costs := map[];
      nextHop1, nextHop2, lowest1, lowest2 := 0, 0, 0, 0;
      dirty := false;
    }

    function Val(): Value
      reads this
    {
      Value(costs, Best(nextHop1, lowest1, nextHop2, lowest2), dirty)
    }

    /** Recomputes the cached hops, visiting the costs in any order. */
    method Refresh() returns (changed: bool)
      modifies this
      ensures Val() == old(Val()).Refreshed()
      ensures changed <==> Val().best != old(Val()).best
    {
      dirty := false;
      var low1, low2 := COST_INFINITY, COST_INFINITY;
      var hop1: Name, hop2: Name := 0, 0;
      var todo := costs.Keys;
      ghost var seen: Row := map[];
      while todo != {}
        invariant todo <= costs.Keys && seen == costs - todo
        invariant IsBest(seen, Best(hop1, low1, hop2, low2))
        invariant Val() == old(Val()).(dirty := false)
        decreases todo
      {
        var hop :| hop in todo;
        var cost := costs[hop];
        ScanKeepsBest(seen, Best(hop1, low1, hop2, low2), hop, cost);
        todo, seen := todo - {hop}, seen[hop := cost];
        if cost < low1 || (cost == low1 && hop < hop1) {
          low2, hop2 := low1, hop1;
          low1, hop1 := cost, hop;
        } else if cost < low2 || (cost == low2 && hop < hop2) {
          low2, hop2 := cost, hop;
        }
      }
      assert seen == costs;
      BestUnique(costs, Best(hop1, low1, hop2, low2), BestOf(costs));
      if lowest1 != low1 || lowest2 != low2 || nextHop1 != hop1 || nextHop2 != hop2 {
        lowest1, lowest2, nextHop1, nextHop2 := low1, low2, hop1, hop2;
        return true;
      }
      return false;
    }

    /** Drops one cost, if there is one. */
    method Forget(hop: Name) returns (changed: bool)
      modifies this
      ensures Val() == old(Val()).Removed(hop) && (changed <==> Val().best != old(Val()).best)
    {
      changed := false;
      if hop in costs {
        costs := costs - {hop};
        changed := Refresh();
      }
    }

    method RefreshIfDirty() returns (changed: bool)
      modifies this
      ensures Val() == old(Val()).Pruned() && (changed <==> Val().best != old(Val()).best)
    {
      changed := false;
      if dirty {
        changed := Refresh();
      }
    }

    /** Sets one cost; refreshes only when the cost is new. */
    method Set(hop: Name, cost: nat) returns (changed: bool)
      modifies this
      ensures Val() == old(Val()).WithCost(hop, cost)
      ensures changed <==> Val().best != old(Val()).best
    {
      if hop !in costs || costs[hop] != cost {
        costs := costs[hop := cost];
        changed := Refresh();
      } else {
        changed := false;
      }
    }
  }

  /** A row of one cost never has a second hop, so a new entry always changes what is cached. */
  lemma SingleBest(hop: Name, cost: nat)
    ensures BestOf(map[hop := cost]).low2 == COST_INFINITY
    ensures NewValue.WithCost(hop, cost).best != NewValue.best
  {
    var b := BestOf(map[hop := cost]);
    assert b.hop2 == hop ==> b.low2 == COST_INFINITY;
    var none: Row := map[];
    assert none[hop := cost] == map[hop := cost];
  }

  class Rib {
    var entries: map<Name, RibEntry>

    constructor ()
      ensures entries == map[]
    {
      entries := map[];
    }

    /** Entries are filed under their own names, so no two share an object. */
    ghost predicate Filed()
      reads this, entries.Values
    {
      forall d :: d in entries ==> entries[d].name == d
    }

    /** Every entry object is an old one or a new one. */
    twostate predicate Owned(before: map<Name, RibEntry>)
      reads this
    {
      forall d :: d in entries ==> entries[d] in before.Values || fresh(entries[d])
    }

    /** The values of the entries. */
    ghost function Vals(): Values
      reads this, entries.Values
    {
      map d | d in entries :: entries[d].Val()
    }

    /** The advertisement, listed in any order. */
    method Advert() returns (list: seq<AdvEntry>)
      requires Filed()
      ensures Lists(list, Advertised(Vals())) && |list| == |entries|
    {
      list := [];
      ghost var adv := Advertised(Vals());
      var todo := entries.Keys;
      while todo != {}
        invariant todo <= entries.Keys
        invariant forall i :: 0 <= i < |list| ==> list[i].destination in adv && adv[list[i].destination] == list[i]
        invariant forall d :: d in adv && d !in todo ==> adv[d] in list
        invariant |list| + |todo| == |entries.Keys|
        decreases todo
      {
        var d :| d in todo;
        todo := todo - {d};
        var entry := entries[d];
        list := list + [AdvEntry(entry.name, entry.nextHop1, entry.lowest1, entry.lowest2)];
        assert list[|list| - 1] == adv[d];
      }
    }

    /** The entry of a destination, created if there is none. */
    method Find(dest: Name) returns (entry: RibEntry)
      requires Filed()
      modifies this
      ensures Filed() && Owned(old(entries)) && dest in entries && entries[dest] == entry
      ensures dest in old(entries) ==> entries == old(entries)
      ensures dest !in old(entries) ==> fresh(entry) && entry.Val() == NewValue
      ensures Vals() == old(Vals())[dest := entry.Val()]
    {
      if dest in entries {
        entry := entries[dest];
        assert Vals() == Vals()[dest := entry.Val()];
      } else {
        entry := new RibEntry(dest);
        entries := entries[dest := entry];
      }
    }

    method Set(dest: Name, hop: Name, cost: nat) returns (changed: bool)
      requires Filed()
      modifies this, entries.Values
      ensures Filed() && Owned(old(entries))
      ensures Vals() == SetOne(old(Vals()), dest, hop, cost)
      ensures changed <==> dest !in old(Vals()) || Vals()[dest].best != old(Vals())[dest].best
    {
      var entry := Find(dest);
      ghost var prior := entry.Val();
      changed := SetAt(dest, hop, cost);
      Overwritten(old(Vals()), dest, prior, prior.WithCost(hop, cost));
      SingleBest(hop, cost);
    }

    method SetAt(d: Name, hop: Name, cost: nat) returns (changed: bool)
      requires Filed() && d in entries
      modifies entries[d]
      ensures Filed() && Vals() == old(Vals())[d := old(Vals())[d].WithCost(hop, cost)]
      ensures changed <==> Vals()[d].best != old(Vals())[d].best
    {
      assert forall e :: e in entries && e != d ==> entries[e] != entries[d];
      changed := entries[d].Set(hop, cost);
    }

    /** Sets every cost of one next hop to infinity and leaves the refreshing for later. */
    method DirtyResetNextHop(hop: Name)
      requires Filed()
      modifies entries.Values
      ensures Filed()
      ensures Vals() == ResetAll(old(Vals()), hop)
    {
      var todo := entries.Keys;
      while todo != {}
        invariant todo <= entries.Keys && Filed()
        invariant forall d :: d in entries ==>
                    entries[d].Val() == (if d in todo then old(entries[d].Val()) else old(entries[d].Val()).Reset(hop))
        decreases todo
      {
        var d :| d in todo;
        todo := todo - {d};
        var entry := entries[d];
        entry.costs := entry.costs[hop := COST_INFINITY];
        entry.dirty := true;
      }
    }

    /** One step of RemoveNextHop. */
    method ForgetAt(d: Name, hop: Name) returns (changed: bool)
      requires Filed() && d in entries
      modifies entries[d]
      ensures Filed() && Vals() == old(Vals())[d := old(Vals())[d].Removed(hop)]
      ensures changed <==> Vals()[d].best != old(Vals())[d].best
    {
      assert forall e :: e in entries && e != d ==> entries[e] != entries[d];
      changed := entries[d].Forget(hop);
    }

    /** Forgets one next hop everywhere. */
    method RemoveNextHop(hop: Name) returns (changed: bool)
      requires Filed()
      modifies entries.Values
      ensures Filed()
      ensures Vals() == RemoveAll(old(Vals()), hop)
      ensures changed <==> Bests(old(Vals())) != Bests(Vals())
    {
      changed := false;
      ghost var before, after := Vals(), RemoveAll(Vals(), hop);
      var todo := entries.Keys;
      MixedEnds(before, after);
      while todo != {}
        invariant todo <= entries.Keys && Filed()
        invariant Vals() == Mixed(before, after, todo)
        invariant changed <==> Differ(before, after, todo)
        decreases todo
      {
        var d :| d in todo;
        MixedNext(before, after, todo, d);
        todo := todo - {d};
        var c := ForgetAt(d, hop);
        changed := c || changed;
      }
    }

    /** One step of the scan of Prune. */
    method RefreshAt(d: Name) returns (changed: bool, dead: bool)
      requires Filed() && d in entries
      modifies entries[d]
      ensures Filed() && Vals() == old(Vals())[d := old(Vals())[d].Pruned()]
      ensures changed <==> dead || Vals()[d].best != old(Vals())[d].best
      ensures dead <==> Vals()[d].best.low1 == COST_INFINITY
    {
      assert forall e :: e in entries && e != d ==> entries[e] != entries[d];
      changed := entries[d].RefreshIfDirty();
      dead := entries[d].lowest1 == COST_INFINITY;
      if dead {
        changed := true;
      }
    }

    /** The scan of Prune: refreshes the marked entries and collects the unreachable ones. */
    method RefreshMarked() returns (changed: bool, dead: set<Name>)
      requires Filed()
      modifies entries.Values
      ensures Filed()
      ensures Vals() == RefreshAll(old(Vals())) && dead == Unreachable(Vals(), {})
      ensures !changed <==> dead == {} && Bests(old(Vals())) == Bests(Vals())
    {
      changed, dead := false, {};
      ghost var before, after := Vals(), RefreshAll(Vals());
      var todo := entries.Keys;
      MixedEnds(before, after);
      while todo != {}
        invariant todo <= entries.Keys && Filed()
        invariant Vals() == Mixed(before, after, todo) && dead == Unreachable(after, todo)
        invariant changed <==> dead != {} || Differ(before, after, todo)
        decreases todo
      {
        var d :| d in todo;
        MixedNext(before, after, todo, d);
        UnreachableNext(after, todo, d);
        todo := todo - {d};
        var c, unreachable := RefreshAt(d);
        changed := c || changed;
        if unreachable {
          dead := dead + {d};
        }
      }
    }

    /** Refreshes the marked entries and removes the unreachable ones. The removals are applied after the
        scan, which is what deleting map keys while ranging over them amounts to. */
    method Prune() returns (changed: bool)
      requires Filed()
      modifies this, entries.Values
      ensures Filed() && Owned(old(entries))
      ensures Vals() == PruneAll(old(Vals()))
      ensures changed <==> Bests(old(Vals())) != Bests(Vals())
    {
      var dead;
      changed, dead := RefreshMarked();
      ghost var scanned := Vals();
      entries := entries - dead;
      assert Vals() == scanned - dead;
      RefreshedAll(old(Vals()));
      DroppedBests(scanned, dead);
    }
  }

  // ---------------------------------------------------------------- the handlers of a router

  /** vals is `before` with the column of n reset and refilled from the offers in col. Entries that got an offer are
      refreshed, the others still have their old cache and are marked. */
  ghost predicate Refilled(before: Values, n: Name, col: map<Name, nat>, vals: Values) {
    forall d {:trigger RefilledAt(before, n, col, vals, d)} :: RefilledAt(before, n, col, vals, d)
  }

  ghost predicate RefilledAt(before: Values, n: Name, col: map<Name, nat>, vals: Values, d: Name) {
    && (d in vals <==> d in before || d in col)
    && (d in vals ==> vals[d] == RefilledValue(before, n, col, d))
  }

  ghost function RefilledValue(before: Values, n: Name, col: map<Name, nat>, d: Name): Value
    requires d in before || d in col
  {
    var row := RefilledRow(before, n, col, d);
    if d in col then Value(row, BestOf(row), false) else Value(row, before[d].best, true)
  }

  ghost function RefilledRow(before: Values, n: Name, col: map<Name, nat>, d: Name): Row {
    var row := if d in before then before[d].costs[n := COST_INFINITY] else map[];
    if d in col then row[n := col[d]] else row
  }

  /** What is cached for a destination, if there is an entry. */
  ghost function CachedAt(before: Values, n: Name, col: map<Name, nat>, d: Name): Option<Best> {
    if d in before || d in col then Some(RefilledValue(before, n, col, d).best) else None
  }

  /** One step of Column. */
  function AddOffer(self: Name, col: map<Name, nat>, e: AdvEntry): map<Name, nat> {
    if Offer(self, e) < COST_INFINITY then col[e.destination := Offer(self, e)] else col
  }

  lemma RefilledStep(before: Values, n: Name, col: map<Name, nat>, vals: Values, dest: Name, cost: nat)
    requires Refilled(before, n, col, vals) && cost < COST_INFINITY
    ensures Refilled(before, n, col[dest := cost], SetOne(vals, dest, n, cost))
  {
    var vals' := SetOne(vals, dest, n, cost);
    forall d {:trigger RefilledAt(before, n, col[dest := cost], vals', d)}
      ensures RefilledAt(before, n, col[dest := cost], vals', d)
    {
      assert RefilledAt(before, n, col, vals, d);
      if d == dest {
        StepDest(before, n, col, dest, cost);
      } else if d in vals {
        StepOther(before, n, col, dest, cost, d);
      }
    }
  }

  lemma StepOther(before: Values, n: Name, col: map<Name, nat>, dest: Name, cost: nat, d: Name)
    requires d != dest && (d in before || d in col)
    ensures RefilledValue(before, n, col[dest := cost], d) == RefilledValue(before, n, col, d)
  {
  }

  lemma StepDest(before: Values, n: Name, col: map<Name, nat>, dest: Name, cost: nat)
    requires cost < COST_INFINITY
    ensures RefilledValue(before, n, col[dest := cost], dest) ==
            (if dest in before || dest in col then RefilledValue(before, n, col, dest) else NewValue).WithCost(n, cost)
  {
    var row: Row := if dest in before then before[dest].costs[n := COST_INFINITY] else map[];
    RowOverwritten(row, n, if dest in col then col[dest] else COST_INFINITY, cost);
    if dest in before {
      RowOverwritten(before[dest].costs, n, COST_INFINITY, cost);
    }
  }

  lemma RowOverwritten(row: Row, n: Name, a: nat, b: nat)
    ensures row[n := a][n := b] == row[n := b]
  {
  }

  // --------------------------------------------------------------- what is dirty

  /** Considering entry i of the advertisement moves the cached pair of its destination. */
  ghost predicate Moves(before: Values, n: Name, self: Name, advert: seq<AdvEntry>, i: nat)
    requires i < |advert|
  {
    var col, e := Column(self, advert[..i]), advert[i];
    Offer(self, e) < COST_INFINITY
    && CachedAt(before, n, AddOffer(self, col, e), e.destination) != CachedAt(before, n, col, e.destination)
  }

  ghost predicate SomeMove(before: Values, n: Name, self: Name, advert: seq<AdvEntry>, k: nat)
    requires k <= |advert|
  {
    exists i: nat :: i < k && Moves(before, n, self, advert, i)
  }

  lemma MoveNext(before: Values, n: Name, self: Name, advert: seq<AdvEntry>, i: nat)
    requires i < |advert|
    ensures SomeMove(before, n, self, advert, i + 1) <==>
            SomeMove(before, n, self, advert, i) || Moves(before, n, self, advert, i)
  {
  }

  /** A destination that is listed more than once is offered at one cost. */
  ghost predicate OneOffer(self: Name, advert: seq<AdvEntry>) {
    forall i, j :: 0 <= i < |advert| && 0 <= j < |advert| && advert[i].destination == advert[j].destination ==>
      Offer(self, advert[i]) == Offer(self, advert[j])
  }

  lemma {:induction false} ColumnHolds(self: Name, advert: seq<AdvEntry>, k: nat, i: nat)
    requires OneOffer(self, advert) && i < |advert| && k <= |advert|
    ensures advert[i].destination in Column(self, advert[..k]) ==>
              Column(self, advert[..k])[advert[i].destination] == Offer(self, advert[i])
    ensures i < k && Offer(self, advert[i]) < COST_INFINITY ==> advert[i].destination in Column(self, advert[..k])
  {
    if k == 0 {
    } else {
      ColumnHolds(self, advert, k - 1, i);
      assert advert[..k][..k - 1] == advert[..k - 1];
    }
  }

  /** If no entry moves a cached pair, all stay as they were. */
  lemma {:induction false} NoMove(before: Values, n: Name, self: Name, advert: seq<AdvEntry>, k: nat, d: Name)
    requires k <= |advert| && !SomeMove(before, n, self, advert, k)
    ensures CachedAt(before, n, Column(self, advert[..k]), d) == CachedAt(before, n, map[], d)
  {
    if k == 0 {
    } else {
      MoveNext(before, n, self, advert, k - 1);
      NoMove(before, n, self, advert, k - 1, d);
      assert advert[..k][..k - 1] == advert[..k - 1];
      var col, e := Column(self, advert[..k - 1]), advert[k - 1];
      if d != e.destination && (d in before || d in col) && Offer(self, e) < COST_INFINITY {
        StepOther(before, n, col, e.destination, Offer(self, e), d);
      }
    }
  }

  lemma NoMoveSame(before: Values, n: Name, self: Name, advert: seq<AdvEntry>, filled: Values)
    requires !SomeMove(before, n, self, advert, |advert|) && Refilled(before, n, Column(self, advert), filled)
    ensures Bests(filled) == Bests(before)
  {
    assert advert[..|advert|] == advert;
    forall d: Name
      ensures d in Bests(filled) <==> d in Bests(before)
      ensures d in Bests(filled) ==> Bests(filled)[d] == Bests(before)[d]
    {
      NoMove(before, n, self, advert, |advert|, d);
      assert RefilledAt(before, n, Column(self, advert), filled, d);
    }
  }

  /** A cached pair that has moved stays moved. */
  lemma MovesShow(before: Values, n: Name, self: Name, advert: seq<AdvEntry>, filled: Values, i: nat)
    requires OneOffer(self, advert) && i < |advert| && Moves(before, n, self, advert, i)
    requires Refilled(before, n, Column(self, advert), filled)
    ensures Bests(before) != Bests(PruneAll(filled))
  {
    var col, all, e := Column(self, advert[..i]), Column(self, advert), advert[i];
    var d, c := e.destination, Offer(self, e);
    ColumnHolds(self, advert, i, i);
    ColumnHolds(self, advert, |advert|, i);
    assert advert[..|advert|] == advert;
    SameColumnSameRow(before, n, AddOffer(self, col, e), all, d);
    assert RefilledAt(before, n, all, filled, d);
    HasFinite(filled[d].costs);
    assert d in PruneAll(filled) && PruneAll(filled)[d] == filled[d];
    assert Bests(PruneAll(filled))[d] == filled[d].best && (d in before ==> Bests(before)[d] == before[d].best);
    assert CachedAt(before, n, AddOffer(self, col, e), d) == Some(filled[d].best);
    assert d !in col by {
      assert d in col ==> AddOffer(self, col, e) == col;
    }
    assert CachedAt(before, n, col, d) == if d in before then Some(before[d].best) else None;
    assert d in Bests(before) <==> d in before;
  }

  lemma SameColumnSameRow(before: Values, n: Name, col: map<Name, nat>, col': map<Name, nat>, d: Name)
    requires d in col && d in col' && col[d] == col'[d]
    ensures RefilledRow(before, n, col, d) == RefilledRow(before, n, col', d)
    ensures n in RefilledRow(before, n, col, d) && RefilledRow(before, n, col, d)[n] == col[d]
  {
  }

  /** The cached pairs of a clean entry are the two best of its row in the abstract table. */
  lemma CachedBest(vals: Values, d: Name)
    requires AllSettled(vals)
    ensures d in vals <==> d in TableOf(vals)
    ensures d in vals ==> vals[d].best == BestOf(TableOf(vals)[d])
  {
    if d in vals {
      BestOfFinite(vals[d].costs);
      HasFinite(vals[d].costs);
    }
  }

  /** What is cached in a clean table are the best hops of the abstract table. */
  lemma BestsAreHops(vals: Values)
    requires AllSettled(vals)
    ensures Bests(vals) == BestHops(TableOf(vals))
  {
    forall d: Name
      ensures d in Bests(vals) <==> d in BestHops(TableOf(vals))
      ensures d in Bests(vals) ==> Bests(vals)[d] == BestHops(TableOf(vals))[d]
    {
      CachedBest(vals, d);
    }
  }

  /** Forgetting a next hop changes the best two exactly if it is one of them. */
  lemma RemovedBest(row: Row, n: Name)
    ensures BestOf(row - {n}) == BestOf(row) <==> !Uses(BestOf(row), n)
  {
    var b := BestOf(row);
    if !Uses(b, n) {
      assert IsBest(row - {n}, b);
      BestUnique(row - {n}, b, BestOf(row - {n}));
    }
  }

  /** Forgetting a neighbour changes some cached pair exactly if some cached pair uses it. */
  lemma ForgetSame(before: Values, n: Name)
    requires AllSettled(before)
    ensures Bests(before) == Bests(RemoveAll(before, n)) <==> !UsedIn(Bests(before), n)
    ensures Bests(before) == Bests(PruneAll(RemoveAll(before, n))) <==> !UsedIn(Bests(before), n)
  {
    if UsedIn(Bests(before), n) {
      var d :| d in Bests(before) && Uses(Bests(before)[d], n);
      UsedChanges(before, n, d);
    } else {
      UnusedStays(before, n);
    }
  }

  lemma UsedChanges(before: Values, n: Name, d: Name)
    requires d in before && Settled(before[d]) && Uses(before[d].best, n)
    ensures Bests(before) != Bests(RemoveAll(before, n)) && Bests(before) != Bests(PruneAll(RemoveAll(before, n)))
  {
    ForgottenValue(before[d], n);
    var removed := RemoveAll(before, n);
    assert Bests(removed)[d] == before[d].Removed(n).best != Bests(before)[d];
    assert d in Bests(PruneAll(removed)) ==> Bests(PruneAll(removed))[d] == removed[d].best;
  }

  lemma UnusedStays(before: Values, n: Name)
    requires AllSettled(before) && !UsedIn(Bests(before), n)
    ensures PruneAll(RemoveAll(before, n)) == RemoveAll(before, n) && Bests(RemoveAll(before, n)) == Bests(before)
  {
    var removed := RemoveAll(before, n);
    forall d | d in before
      ensures removed[d].best == before[d].best && !removed[d].dirty && removed[d].best.low1 != COST_INFINITY
    {
      assert Settled(before[d]) && d in Bests(before) && !Uses(Bests(before)[d], n);
      ForgottenValue(before[d], n);
    }
    SameBests(before, removed);
  }

  lemma ForgottenValue(v: Value, n: Name)
    requires Settled(v)
    ensures !v.Removed(n).dirty && (v.Removed(n).best == v.best <==> !Uses(v.best, n))
    ensures v.Removed(n).best.low1 == COST_INFINITY ==> Uses(v.best, n)
  {
    RemovedBest(v.costs, n);
    if n !in v.costs {
      assert v.costs - {n} == v.costs;
    }
  }

  /** Some cached pair uses the neighbour. */
  ghost predicate UsedIn(bests: map<Name, Best>, n: Name) {
    exists d :: d in bests && Uses(bests[d], n)
  }

  /** Resetting, refilling and pruning amounts to replacing the column. */
  lemma RefilledIsReceive(before: Values, n: Name, col: map<Name, nat>, vals: Values)
    requires forall d :: d in col ==> col[d] < COST_INFINITY
    requires Refilled(before, n, col, vals)
    ensures TableOf(PruneAll(vals)) == Receive(TableOf(before), n, col)
  {
    var t, t' := TableOf(PruneAll(vals)), Receive(TableOf(before), n, col);
    ReceiveCost(TableOf(before), n, col);
    forall d: Name, m: Name
      ensures Cost(t, d, m) == Cost(t', d, m)
    {
      RefilledCost(before, n, col, vals, d, m);
    }
    TableExtensional(t, t');
  }

  lemma RefilledCost(before: Values, n: Name, col: map<Name, nat>, vals: Values, d: Name, m: Name)
    requires (forall k :: k in col ==> col[k] < COST_INFINITY) && Refilled(before, n, col, vals)
    ensures Cost(TableOf(PruneAll(vals)), d, m) ==
            if m != n then Cost(TableOf(before), d, m) else if d in col then col[d] else COST_INFINITY
  {
    RefilledAgrees(before, n, col, vals);
    PruneAllCost(vals, d, m);
    TableOfCost(vals, d, m);
    TableOfCost(before, d, m);
    assert RefilledAt(before, n, col, vals, d);
  }

  /** Forgetting a next hop and pruning empties its column. */
  lemma RemovedIsReceive(before: Values, n: Name)
    requires AllSettled(before)
    ensures TableOf(PruneAll(RemoveAll(before, n))) == Receive(TableOf(before), n, map[])
  {
    var vals := RemoveAll(before, n);
    var t, t' := TableOf(PruneAll(vals)), Receive(TableOf(before), n, map[]);
    ReceiveCost(TableOf(before), n, map[]);
    forall d: Name, m: Name
      ensures Cost(t, d, m) == Cost(t', d, m)
    {
      RemovedCost(before, n, d, m);
    }
    TableExtensional(t, t');
  }

  lemma RemovedCost(before: Values, n: Name, d: Name, m: Name)
    requires AllSettled(before)
    ensures Cost(TableOf(PruneAll(RemoveAll(before, n))), d, m) == if m != n then Cost(TableOf(before), d, m)
            else COST_INFINITY
  {
    var vals := RemoveAll(before, n);
    PruneAllCost(vals, d, m);
    TableOfCost(vals, d, m);
    TableOfCost(before, d, m);
  }

  /** Pruning leaves every finite cost as it was. */
  lemma PruneAllCost(vals: Values, d: Name, m: Name)
    requires d in vals ==> vals[d].Agrees()
    ensures Cost(TableOf(PruneAll(vals)), d, m) == Cost(TableOf(vals), d, m)
  {
    TableOfCost(vals, d, m);
    TableOfCost(PruneAll(vals), d, m);
    if d in vals {
      HasFinite(vals[d].costs);
      assert vals[d].Pruned().costs == vals[d].costs && vals[d].Pruned().best == BestOf(vals[d].costs);
    }
  }

  lemma HasFinite(row: Row)
    ensures BestOf(row).low1 <= COST_INFINITY
    ensures BestOf(row).low1 < COST_INFINITY <==> exists h :: h in row && row[h] < COST_INFINITY
  {
  }

  lemma PruneAllSettles(vals: Values)
    requires AllAgree(vals)
    ensures AllSettled(PruneAll(vals))
  {
    forall d | d in vals
      ensures vals[d].Pruned().best.low1 <= COST_INFINITY
    {
      HasFinite(vals[d].costs);
    }
  }

  /** What a clean table advertises is what its abstract table advertises. */
  lemma SettledAdvert(vals: Values)
    requires AllSettled(vals)
    ensures Advertised(vals) == AdvertOf(TableOf(vals))
  {
    forall d | d in vals
      ensures Finite(vals[d].costs) != map[] && BestOf(Finite(vals[d].costs)) == vals[d].best
    {
      BestOfFinite(vals[d].costs);
      HasFinite(vals[d].costs);
    }
  }

  lemma {:induction false} ColumnFinite(self: Name, entries: seq<AdvEntry>)
    ensures forall d :: d in Column(self, entries) ==> Column(self, entries)[d] < COST_INFINITY
  {
    if entries == [] {
    } else {
      ColumnFinite(self, entries[..|entries| - 1]);
    }
  }

  class Router {
    const name: Name
    const rib: Rib

    /** A started router knows itself at cost 0. */
    constructor (name: Name)
      ensures this.name == name && fresh(rib) && fresh(rib.entries.Values)
      ensures Clean() && Table() == map[name := map[name := 0]]
    {
      this.name := name;
      rib := new Rib();
      new;
      var _ := rib.Set(name, name, 0);
      assert rib.Vals()[name].costs == map[name := 0];
      assert rib.Vals()[name].best.low1 == 0;
      assert Finite(map[name := 0]) == map[name := 0];
    }

    /** Nothing awaits a refresh, every cached pair is that of its cost table, and no entry is unreachable. */
    ghost predicate Clean()
      reads rib, rib.entries.Values
    {
      rib.Filed() && AllSettled(rib.Vals())
    }

    /** The abstract table: finite costs only. */
    ghost function Table(): Table
      reads rib, rib.entries.Values
    {
      TableOf(rib.Vals())
    }

    /** The cost derived from one entry of an advertisement. */
    method Derive(entry: AdvEntry) returns (cost: nat)
      ensures cost == Offer(name, entry)
      ensures Min(cost, COST_INFINITY) == Min(OwnCost(name, entry) + 1, COST_INFINITY)
              || (entry.nextHop != name && entry.cost == WORD - 1)
    {
      // Use the advertised cost by default
      cost := if entry.cost == WORD - 1 then 0 else entry.cost + 1;
      // Poison reverse: try the other cost if the next hop is us
      if entry.nextHop == name {
        if entry.otherCost < COST_INFINITY {
          cost := entry.otherCost + 1;
        } else {
          cost := COST_INFINITY;
        }
      }
    }

    /** Handles one entry of an advertisement. */
    method Consider(neighbor: Name, entry: AdvEntry, ghost before: Values, ghost col: map<Name, nat>)
      returns (changed: bool)
      requires rib.Filed() && Refilled(before, neighbor, col, rib.Vals())
      modifies rib, rib.entries.Values
      ensures rib.Filed() && rib.Owned(old(rib.entries))
      ensures Refilled(before, neighbor, AddOffer(name, col, entry), rib.Vals())
      ensures changed <==> Offer(name, entry) < COST_INFINITY
                           && CachedAt(before, neighbor, AddOffer(name, col, entry), entry.destination) !=
                              CachedAt(before, neighbor, col, entry.destination)
    {
      changed := false;
      var cost := Derive(entry);
      if cost < COST_INFINITY {
        ghost var vals, d := rib.Vals(), entry.destination;
        changed := rib.Set(entry.destination, neighbor, cost);
        RefilledStep(before, neighbor, col, vals, entry.destination, cost);
        assert RefilledAt(before, neighbor, col[d := cost], rib.Vals(), d);
        assert RefilledAt(before, neighbor, col, vals, d);
      }
    }

    /** Resets the column of a neighbour and refills it from its advertisement. */
    method Refill(neighbor: Name, advert: seq<AdvEntry>) returns (changed: bool)
      requires Clean()
      modifies rib, rib.entries.Values
      ensures rib.Filed() && rib.Owned(old(rib.entries))
      ensures Refilled(old(rib.Vals()), neighbor, Column(name, advert), rib.Vals())
      ensures changed <==> SomeMove(old(rib.Vals()), neighbor, name, advert, |advert|)
    {
      changed := false;
      ghost var before := rib.Vals();
      rib.DirtyResetNextHop(neighbor);
      ResetRefilled(before, neighbor);
      ghost var col: map<Name, nat> := map[];
      for i := 0 to |advert|
        invariant rib.Filed() && rib.Owned(old(rib.entries))
        invariant col == Column(name, advert[..i]) && Refilled(before, neighbor, col, rib.Vals())
        invariant changed <==> SomeMove(before, neighbor, name, advert, i)
      {
        var c := Consider(neighbor, advert[i], before, col);
        MoveNext(before, neighbor, name, advert, i);
        changed := c || changed;
        col := AddOffer(name, col, advert[i]);
        assert advert[..i + 1][..i] == advert[..i];
      }
      assert advert[..|advert|] == advert;
    }

    /** The handler of a neighbour's advertisement. The result says whether a cached pair has changed, provided that no
        destination is offered at two costs; otherwise it also tells of a pair that moved and moved back. */
    method UpdateRib(neighbor: Name, advert: seq<AdvEntry>) returns (dirty: bool)
      requires Clean()
      modifies rib, rib.entries.Values
      ensures Clean()
      ensures Table() == Receive(old(Table()), neighbor, Column(name, advert))
      ensures !dirty ==> Advertised(rib.Vals()) == Advertised(old(rib.Vals()))
      ensures dirty <==> BestHops(old(Table())) != BestHops(Table())
                         || SomeMove(old(rib.Vals()), neighbor, name, advert, |advert|)
      ensures OneOffer(name, advert) ==> (dirty <==> BestHops(old(Table())) != BestHops(Table()))
    {
      ghost var before := rib.Vals();
      dirty := Refill(neighbor, advert);
      ghost var filled := rib.Vals();
      var c := rib.Prune();
      UpdateMeaning(before, neighbor, name, advert, filled, rib.Vals());
      UpdateDirty(before, neighbor, name, advert, filled, rib.Vals(), dirty, c);
      dirty := c || dirty;
    }

    /** Forgets one dead neighbour. */
    method Forget(neighbor: Name) returns (dirty: bool)
      requires Clean()
      modifies rib, rib.entries.Values
      ensures Clean() && rib.Owned(old(rib.entries)) && Table() == Receive(old(Table()), neighbor, map[])
      ensures dirty <==> UsedIn(Bests(old(rib.Vals())), neighbor)
      ensures dirty <==> Bests(old(rib.Vals())) != Bests(rib.Vals())
    {
      ghost var before := rib.Vals();
      dirty := rib.RemoveNextHop(neighbor);
      ghost var removed := rib.Vals();
      var c := rib.Prune();
      ForgetMeaning(before, neighbor, rib.Vals());
      ForgetSame(before, neighbor);
      dirty := c || dirty;
    }

    /** The periodic check: forgets the neighbours found dead. The result says whether a cached pair used one of them,
        which is whether a cached pair has changed. */
    method CheckDeadNeighbors(dead: seq<Name>) returns (dirty: bool)
      requires Clean()
      modifies rib, rib.entries.Values
      ensures Clean() && Table() == ForgetAll(old(Table()), dead)
      ensures !dirty ==> Advertised(rib.Vals()) == Advertised(old(rib.Vals()))
      ensures dirty <==> SomeUsed(Bests(old(rib.Vals())), dead, |dead|)
      ensures dirty <==> BestHops(old(Table())) != BestHops(Table())
    {
      dirty := false;
      ghost var before := rib.Vals();
      for i := 0 to |dead|
        invariant Clean() && rib.Owned(old(rib.entries)) && Forgotten(before, rib.Vals(), dead, i, dirty)
      {
        ghost var vals := rib.Vals();
        var c := Forget(dead[i]);
        ForgottenNext(before, vals, rib.Vals(), dead, i, dirty, c);
        dirty := c || dirty;
      }
      DeadMeaning(before, rib.Vals(), dead, dirty);
    }
  }

  lemma UpdateMeaning(before: Values, n: Name, self: Name, advert: seq<AdvEntry>, filled: Values, after: Values)
    requires Refilled(before, n, Column(self, advert), filled) && after == PruneAll(filled)
    ensures AllSettled(after) && TableOf(after) == Receive(TableOf(before), n, Column(self, advert))
  {
    ColumnFinite(self, advert);
    RefilledAgrees(before, n, Column(self, advert), filled);
    PruneAllSettles(filled);
    RefilledIsReceive(before, n, Column(self, advert), filled);
  }

  lemma ForgetMeaning(before: Values, n: Name, after: Values)
    requires AllSettled(before) && after == PruneAll(RemoveAll(before, n))
    ensures AllSettled(after) && TableOf(after) == Receive(TableOf(before), n, map[])
  {
    RemovedAgree(before, n);
    PruneAllSettles(RemoveAll(before, n));
    RemovedIsReceive(before, n);
  }

  lemma ResetRefilled(before: Values, n: Name)
    requires AllSettled(before)
    ensures Refilled(before, n, map[], ResetAll(before, n)) && Bests(before) == Bests(ResetAll(before, n))
  {
    forall d {:trigger RefilledAt(before, n, map[], ResetAll(before, n), d)}
      ensures RefilledAt(before, n, map[], ResetAll(before, n), d)
    {
    }
    SameBests(before, ResetAll(before, n));
  }

  lemma RefilledAgrees(before: Values, n: Name, col: map<Name, nat>, vals: Values)
    requires Refilled(before, n, col, vals)
    ensures AllAgree(vals)
  {
    forall d | d in vals
      ensures vals[d].Agrees()
    {
      assert RefilledAt(before, n, col, vals, d);
    }
  }

  /** Some cached pair uses one of the first i neighbours listed. */
  ghost predicate SomeUsed(bests: map<Name, Best>, dead: seq<Name>, i: nat)
    requires i <= |dead|
  {
    exists k: nat :: k < i && UsedIn(bests, dead[k])
  }

  lemma SomeUsedNext(bests: map<Name, Best>, dead: seq<Name>, i: nat)
    requires i < |dead|
    ensures SomeUsed(bests, dead, i + 1) <==> SomeUsed(bests, dead, i) || UsedIn(bests, dead[i])
  {
  }

  /** What the result of an update says. */
  lemma UpdateDirty(before: Values, n: Name, self: Name, advert: seq<AdvEntry>, filled: Values, after: Values,
                    moved: bool, pruned: bool)
    requires AllSettled(before) && AllSettled(after) && after == PruneAll(filled)
    requires Refilled(before, n, Column(self, advert), filled)
    requires (moved <==> SomeMove(before, n, self, advert, |advert|)) && (pruned <==> Bests(filled) != Bests(after))
    ensures !moved && !pruned ==> Advertised(after) == Advertised(before)
    ensures moved || pruned <==> BestHops(TableOf(before)) != BestHops(TableOf(after)) || moved
    ensures OneOffer(self, advert) ==> (moved || pruned <==> BestHops(TableOf(before)) != BestHops(TableOf(after)))
  {
    BestsAreHops(before);
    BestsAreHops(after);
    if !moved {
      NoMoveSame(before, n, self, advert, filled);
      if !pruned {
        AdvertisedBests(before, after);
      }
    }
    if moved && OneOffer(self, advert) {
      var i: nat :| i < |advert| && Moves(before, n, self, advert, i);
      MovesShow(before, n, self, advert, filled, i);
    }
  }

  /** The first i dead neighbours are forgotten. */
  ghost predicate Forgotten(before: Values, now: Values, dead: seq<Name>, i: nat, dirty: bool)
    requires i <= |dead|
  {
    && TableOf(now) == ForgetAll(TableOf(before), dead[..i])
    && (!dirty ==> Bests(before) == Bests(now))
    && (dirty <==> SomeUsed(Bests(before), dead, i))
  }

  lemma ForgottenNext(before: Values, now: Values, next: Values, dead: seq<Name>, i: nat, dirty: bool, c: bool)
    requires i < |dead| && Forgotten(before, now, dead, i, dirty)
    requires TableOf(next) == Receive(TableOf(now), dead[i], map[])
    requires (c <==> UsedIn(Bests(now), dead[i])) && (c <==> Bests(now) != Bests(next))
    ensures Forgotten(before, next, dead, i + 1, c || dirty)
  {
    assert dead[..i + 1][..i] == dead[..i];
    SomeUsedNext(Bests(before), dead, i);
  }

  /** What the result of the periodic check says. */
  lemma DeadMeaning(before: Values, after: Values, dead: seq<Name>, dirty: bool)
    requires AllSettled(before) && AllSettled(after) && Forgotten(before, after, dead, |dead|, dirty)
    ensures TableOf(after) == ForgetAll(TableOf(before), dead)
    ensures dirty <==> SomeUsed(Bests(before), dead, |dead|)
    ensures !dirty ==> Advertised(after) == Advertised(before)
    ensures dirty <==> BestHops(TableOf(before)) != BestHops(TableOf(after))
  {
    assert dead[..|dead|] == dead;
    BestsAreHops(before);
    BestsAreHops(after);
    if dirty {
      var k: nat :| k < |dead| && UsedIn(Bests(before), dead[k]);
      DeadDirty(before, after, dead, k);
    } else {
      AdvertisedBests(before, after);
    }
  }

  /** A cached pair that used a dead neighbour has changed for good. */
  lemma DeadDirty(before: Values, after: Values, dead: seq<Name>, k: nat)
    requires AllSettled(before) && AllSettled(after) && TableOf(after) == ForgetAll(TableOf(before), dead)
    requires k < |dead| && UsedIn(Bests(before), dead[k])
    ensures Bests(before) != Bests(after)
  {
    var d :| d in Bests(before) && Uses(Bests(before)[d], dead[k]);
    ForgetAllCost(TableOf(before), dead, d, dead[k]);
    TableOfCost(after, d, dead[k]);
    if d in after {
      InfiniteUnused(after[d], dead[k]);
      assert Bests(after)[d] == after[d].best;
    }
  }

  lemma InfiniteUnused(v: Value, n: Name)
    requires Settled(v) && CellOf(v, n) == COST_INFINITY
    ensures !Uses(v.best, n)
  {
  }

  lemma RemovedAgree(vals: Values, hop: Name)
    requires AllSettled(vals)
    ensures AllAgree(RemoveAll(vals, hop))
  {
  }

  /** Empties the columns of the listed neighbours one after the other. */
  function ForgetAll(t: Table, dead: seq<Name>): Table {
    if dead == [] then t else Receive(ForgetAll(t, dead[..|dead| - 1]), dead[|dead| - 1], map[])
  }

  /** Exactly the costs through the listed neighbours are gone. */
  lemma {:induction false} ForgetAllCost(t: Table, dead: seq<Name>, d: Name, n: Name)
    requires Normal(t)
    ensures Normal(ForgetAll(t, dead))
    ensures Cost(ForgetAll(t, dead), d, n) == if n in dead then COST_INFINITY else Cost(t, d, n)
  {
    if dead == [] {
    } else {
      var front, last := dead[..|dead| - 1], dead[|dead| - 1];
      ForgetAllCost(t, front, d, n);
      ReceiveCost(ForgetAll(t, front), last, map[]);
      assert n in dead <==> n in front || n == last by {
        assert dead == front + [last];
      }
    }
  }
}
