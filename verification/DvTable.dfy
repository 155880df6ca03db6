/**
 The distance-vector table of one NDN router as a value: what a row of costs
 means, which two next hops are cached for it, what is advertised, and what a
 received advertisement does to the table.
 */
module DvTable {
  import opened Common

  /** A router name, identified with its 64-bit hash (the hash is taken to be injective). */
  type Name = nat

  const COST_INFINITY: nat := 16

  /** Costs towards one destination, by next hop. */
  type Row = map<Name, nat>

  /** Rows by destination. An abstract table keeps finite costs only and no empty row. */
  type Table = map<Name, Row>

  /** The two cached next hops of a row; an unused slot holds hop 0 at cost infinity. */
  datatype Best = Best(hop1: Name, low1: nat, hop2: Name, low2: nat)

  datatype AdvEntry = AdvEntry(destination: Name, nextHop: Name, cost: nat, otherCost: nat)

  /** An advertisement, by destination. */
  type Advert = map<Name, AdvEntry>

  // ---------------------------------------------------------------- best two hops

  predicate LexLess(c1: nat, h1: Name, c2: nat, h2: Name) {
    c1 < c2 || (c1 == c2 && h1 < h2)
  }

  /** (hop, low) is the lexicographically least finite (cost, hop) pair of the row outside `but`. */
  ghost predicate IsLeast(row: Row, but: set<Name>, hop: Name, low: nat) {
    if low >= COST_INFINITY then
      low == COST_INFINITY && hop == 0 && forall h :: h in row && h !in but ==> row[h] >= COST_INFINITY
    else
      && hop in row && hop !in but && row[hop] == low
      && forall h :: h in row && h !in but && h != hop ==> LexLess(low, hop, row[h], h)
  }

  ghost predicate IsBest(row: Row, b: Best) {
    && IsLeast(row, {}, b.hop1, b.low1)
    && IsLeast(row, {b.hop1}, b.hop2, b.low2)
  }

  /** One iteration of the scan that looks for the two least pairs. */
  function Scan(b: Best, hop: Name, cost: nat): Best {
    if cost < b.low1 || (cost == b.low1 && hop < b.hop1) then Best(hop, cost, b.hop1, b.low1)
    else if cost < b.low2 || (cost == b.low2 && hop < b.hop2) then b.(hop2 := hop, low2 := cost)
    else b
  }

  lemma ScanKeepsBest(row: Row, b: Best, hop: Name, cost: nat)
    requires IsBest(row, b) && hop !in row
    ensures IsBest(row[hop := cost], Scan(b, hop, cost))
  {
  }

  lemma BestUnique(row: Row, b: Best, b': Best)
    requires IsBest(row, b) && IsBest(row, b')
    ensures b == b'
  {
    if b.low1 < COST_INFINITY || b'.low1 < COST_INFINITY {
      assert b.hop1 == b'.hop1;
    }
    if b.low2 < COST_INFINITY || b'.low2 < COST_INFINITY {
      assert b.hop2 == b'.hop2;
    }
  }

  lemma {:induction false} BestExists(row: Row) returns (b: Best)
    ensures IsBest(row, b)
    decreases |row|
  {
    if row == map[] {
      b := Best(0, COST_INFINITY, 0, COST_INFINITY);
    } else {
      var hop :| hop in row;
      var rest := row - {hop};
      assert row == rest[hop := row[hop]];
      assert |rest| < |row| by { assert row.Keys == rest.Keys + {hop}; }
      var b0 := BestExists(rest);
      ScanKeepsBest(rest, b0, hop, row[hop]);
      b := Scan(b0, hop, row[hop]);
    }
  }

  ghost function BestOf(row: Row): (b: Best)
    ensures IsBest(row, b)
  {
    assert exists b :: IsBest(row, b) by { var b := BestExists(row); }
    var b :| IsBest(row, b);
    b
  }

  /** The finite part of a row decides its best two. */
  function Finite(row: Row): Row {
    map h | h in row && row[h] < COST_INFINITY :: row[h]
  }

  lemma BestOfFinite(row: Row)
    ensures BestOf(Finite(row)) == BestOf(row)
  {
    assert IsBest(row, BestOf(Finite(row)));
    BestUnique(row, BestOf(Finite(row)), BestOf(row));
  }

  /** One of the two is reached through the neighbour. */
  predicate Uses(b: Best, n: Name) {
    (b.low1 < COST_INFINITY && b.hop1 == n) || (b.low2 < COST_INFINITY && b.hop2 == n)
  }

  // ---------------------------------------------------------------- tables

  /** The two best hops of every destination. */
  ghost function BestHops(t: Table): map<Name, Best> {
    map d | d in t :: BestOf(t[d])
  }

  function Get(t: Table, d: Name): Row {
    if d in t then t[d] else map[]
  }

  /** The cost of reaching d through n, infinity when there is none. */
  function Cost(t: Table, d: Name, n: Name): nat {
    if d in t && n in t[d] then t[d][n] else COST_INFINITY
  }

  /** Only finite costs, no empty rows. */
  ghost predicate Normal(t: Table) {
    forall d :: d in t ==> t[d] != map[] && forall h :: h in t[d] ==> t[d][h] < COST_INFINITY
  }

  /** A normal table is decided by its costs. */
  lemma TableExtensional(t: Table, t': Table)
    requires Normal(t) && Normal(t')
    requires forall d, n :: Cost(t, d, n) == Cost(t', d, n)
    ensures t == t'
  {
    RowsIncluded(t, t');
    RowsIncluded(t', t);
    assert t.Keys == t'.Keys;
  }

  lemma RowsIncluded(t: Table, t': Table)
    requires Normal(t) && Normal(t')
    requires forall d, n :: Cost(t, d, n) == Cost(t', d, n)
    ensures forall d :: d in t ==> d in t' && t[d] == t'[d]
  {
    forall d | d in t
      ensures d in t' && t[d] == t'[d]
    {
      var h :| h in t[d];
      assert Cost(t, d, h) == Cost(t', d, h);
      forall h
        ensures h in t[d] <==> h in t'[d]
        ensures h in t[d] ==> t[d][h] == t'[d][h]
      {
        assert Cost(t, d, h) == Cost(t', d, h);
      }
    }
  }

  // ---------------------------------------------------------------- adverts

  /** One more hop, in unsigned 64-bit arithmetic. */
  function AddHop(cost: nat): nat {
    if cost == WORD - 1 then 0 else cost + 1
  }

  /** The cost a receiver `self` derives from one entry: one more hop, with poison reverse. */
  function Offer(self: Name, e: AdvEntry): nat {
    if e.nextHop == self then
      if e.otherCost < COST_INFINITY then AddHop(e.otherCost) else COST_INFINITY
    else
      AddHop(e.cost)
  }

  /** What the sender would pay without going back through the receiver. */
  function OwnCost(self: Name, e: AdvEntry): nat {
    if e.nextHop == self then e.otherCost else e.cost
  }

  /** The offer is one more than what the sender pays without the receiver, where all costs from 16 on stand for
      infinity. The one exception is the highest number, which wraps to 0 unless the sender routes through the
      receiver. */
  lemma OfferExact(self: Name, e: AdvEntry)
    requires e.cost < WORD && e.otherCost < WORD
    ensures Min(Offer(self, e), COST_INFINITY) == Min(OwnCost(self, e) + 1, COST_INFINITY) <==>
              e.nextHop == self || e.cost != WORD - 1
    ensures Offer(self, e) < WORD
  {
  }

  /** The finite offers of an advertisement. */
  function ColumnOf(self: Name, adv: Advert): map<Name, nat> {
    map d | d in adv && Offer(self, adv[d]) < COST_INFINITY :: Offer(self, adv[d])
  }

  /** The finite offers of an entry list, read in order: a later finite offer replaces an earlier one. */
  function Column(self: Name, entries: seq<AdvEntry>): map<Name, nat> {
    if entries == [] then map[]
    else
      var e := entries[|entries| - 1];
      var col := Column(self, entries[..|entries| - 1]);
      if Offer(self, e) < COST_INFINITY then col[e.destination := Offer(self, e)] else col
  }

  /** `entries` lists the advertisement in some order. */
  ghost predicate Lists(entries: seq<AdvEntry>, adv: Advert) {
    && (forall i :: 0 <= i < |entries| ==> entries[i].destination in adv && adv[entries[i].destination] == entries[i])
    && (forall d :: d in adv ==> adv[d] in entries && adv[d].destination == d)
  }

  /** The order of the entries does not matter to the receiver. */
  lemma ColumnIgnoresOrder(self: Name, entries: seq<AdvEntry>, adv: Advert)
    requires Lists(entries, adv)
    ensures Column(self, entries) == ColumnOf(self, adv)
  {
    ColumnOfPrefix(self, entries, adv, |entries|);
    assert entries[..|entries|] == entries;
  }

  lemma {:induction false} ColumnOfPrefix(self: Name, entries: seq<AdvEntry>, adv: Advert, k: nat)
    requires Lists(entries, adv) && k <= |entries|
    ensures forall d :: d in Column(self, entries[..k]) <==> d in ColumnOf(self, adv) && adv[d] in entries[..k]
    ensures forall d :: d in Column(self, entries[..k]) ==> Column(self, entries[..k])[d] == ColumnOf(self, adv)[d]
  {
    if k == 0 {
    } else {
      ColumnOfPrefix(self, entries, adv, k - 1);
      assert entries[..k][..k - 1] == entries[..k - 1];
      assert entries[..k] == entries[..k - 1] + [entries[k - 1]];
    }
  }

  ghost function EntryOf(d: Name, b: Best): AdvEntry {
    AdvEntry(d, b.hop1, b.low1, b.low2)
  }

  /** What a router whose table is t advertises. */
  ghost function AdvertOf(t: Table): Advert {
    map d | d in t :: EntryOf(d, BestOf(t[d]))
  }

  /** The table after the column of neighbour n has been replaced. */
  function Receive(t: Table, n: Name, col: map<Name, nat>): Table {
    map d | d in t.Keys + col.Keys && ReceiveRow(t, n, col, d) != map[] :: ReceiveRow(t, n, col, d)
  }

  function ReceiveRow(t: Table, n: Name, col: map<Name, nat>, d: Name): Row {
    (Get(t, d) - {n}) + (if d in col then map[n := col[d]] else map[])
  }

  /** Replacing a column changes that column and nothing else. */
  lemma ReceiveCost(t: Table, n: Name, col: map<Name, nat>)
    requires Normal(t)
    requires forall d :: d in col ==> col[d] < COST_INFINITY
    ensures Normal(Receive(t, n, col))
    ensures forall d, m :: Cost(Receive(t, n, col), d, m) ==
                           if m != n then Cost(t, d, m) else if d in col then col[d] else COST_INFINITY
  {
    forall d, m
      ensures Cost(Receive(t, n, col), d, m) ==
              if m != n then Cost(t, d, m) else if d in col then col[d] else COST_INFINITY
    {
      var row := ReceiveRow(t, n, col, d);
      if m in row {
        assert row != map[];
      }
    }
  }
}
