/**
 The forwarding table synchroniser: it compares the routes wanted with the
 routes installed, and sends the forwarder only the difference. Names stand
 for their hashes.
 */
module FibSync {
  import opened Common
  import opened DvTable

  const COST_PFX_INFINITY: nat := 0xFFFF_FFFF

  type Face = nat

  datatype FibEntry = FibEntry(face: Face, cost: nat, prevCost: nat)

  type Entries = seq<FibEntry>

  datatype Command = Register(name: Name, face: Face, cost: nat) | Unregister(name: Name, face: Face)

  // ------------------------------------------------------------------- rows

  /** The first entry for the face, or one past the last. */
  ghost function FaceIndex(row: Entries, face: Face): (k: nat)
    ensures k <= |row| && (k < |row| ==> row[k].face == face)
    ensures forall i :: 0 <= i < k ==> row[i].face != face
  {
    if row == [] then 0 else if row[0].face == face then 0 else 1 + FaceIndex(row[1..], face)
  }

  ghost function RowCost(row: Entries, face: Face): nat {
    var k := FaceIndex(row, face);
    if k < |row| then row[k].cost else COST_PFX_INFINITY
  }

  ghost function RowPrev(row: Entries, face: Face): nat {
    var k := FaceIndex(row, face);
    if k < |row| then row[k].prevCost else COST_PFX_INFINITY
  }

  ghost predicate Apart(row: Entries, i: nat, j: nat)
    requires i < |row| && j < |row|
  {
    row[i].face != row[j].face
  }

  ghost predicate Distinct(row: Entries) {
    forall i: nat, j: nat {:trigger Apart(row, i, j)} :: i < j < |row| ==> Apart(row, i, j)
  }

  lemma IndexUnique(row: Entries, i: nat)
    requires Distinct(row) && i < |row|
    ensures FaceIndex(row, row[i].face) == i
  {
    var k := FaceIndex(row, row[i].face);
    assert k < i ==> Apart(row, k, i);
  }

  // ---------------------------------------------------------------- merging

  /** The least usable cost offered for the face. */
  ghost function Cheapest(offers: Entries, face: Face): nat {
    if offers == [] then COST_PFX_INFINITY
    else
      var rest, e := Cheapest(offers[..|offers| - 1], face), offers[|offers| - 1];
      if e.face == face && e.cost < rest then e.cost else rest
  }

  /** It is the least offer below infinity, whatever the order. */
  lemma {:induction false} CheapestIsLeast(offers: Entries, face: Face)
    ensures Cheapest(offers, face) <= COST_PFX_INFINITY
    ensures forall i :: 0 <= i < |offers| && offers[i].face == face && offers[i].cost < COST_PFX_INFINITY ==>
                          Cheapest(offers, face) <= offers[i].cost
    ensures Cheapest(offers, face) < COST_PFX_INFINITY ==>
              exists i :: 0 <= i < |offers| && offers[i].face == face && offers[i].cost == Cheapest(offers, face)
  {
    if offers == [] {
    } else {
      var n := |offers| - 1;
      CheapestIsLeast(offers[..n], face);
      assert forall i :: 0 <= i < n ==> offers[..n][i] == offers[i];
    }
  }

  /** All costs become infinite; the old ones are kept aside. */
  ghost function ResetRow(row: Entries): Entries {
    if row == [] then [] else
      var e := row[|row| - 1];
      ResetRow(row[..|row| - 1]) + [e.(prevCost := e.cost, cost := COST_PFX_INFINITY)]
  }

  ghost function MergeOne(row: Entries, e: FibEntry): Entries {
    if e.cost >= COST_PFX_INFINITY then row
    else
      var k := FaceIndex(row, e.face);
      if k < |row| then row[k := row[k].(cost := Min(e.cost, row[k].cost))]
      else row + [e.(prevCost := COST_PFX_INFINITY)]
  }

  ghost function MergeAll(row: Entries, offers: Entries): Entries {
    if offers == [] then row else MergeOne(MergeAll(row, offers[..|offers| - 1]), offers[|offers| - 1])
  }

  lemma {:induction false} ResetRowFacts(row: Entries)
    ensures |ResetRow(row)| == |row|
    ensures forall i :: 0 <= i < |row| ==>
              ResetRow(row)[i] == row[i].(prevCost := row[i].cost, cost := COST_PFX_INFINITY)
  {
    if row == [] {
    } else {
      ResetRowFacts(row[..|row| - 1]);
    }
  }

  lemma ResetCost(row: Entries, face: Face)
    requires Distinct(row)
    ensures Distinct(ResetRow(row)) && RowCost(ResetRow(row), face) == COST_PFX_INFINITY
    ensures RowPrev(ResetRow(row), face) == RowCost(row, face)
  {
    ResetRowFacts(row);
    var r := ResetRow(row);
    forall i: nat, j: nat | i < j < |r|
      ensures Apart(r, i, j)
    {
      assert Apart(row, i, j);
    }
    var k := FaceIndex(row, face);
    if k < |row| {
      IndexUnique(r, k);
    }
  }

  lemma MergeOneCost(row: Entries, e: FibEntry, face: Face)
    requires Distinct(row)
    ensures Distinct(MergeOne(row, e)) && RowPrev(MergeOne(row, e), face) == RowPrev(row, face)
    ensures RowCost(MergeOne(row, e), face) ==
            if e.face == face && e.cost < COST_PFX_INFINITY then Min(e.cost, RowCost(row, face)) else RowCost(row, face)
  {
    var r := MergeOne(row, e);
    forall i: nat, j: nat | i < j < |r|
      ensures Apart(r, i, j)
    {
      assert j < |row| ==> Apart(row, i, j);
    }
    var k := FaceIndex(row, face);
    if k < |row| {
      IndexUnique(r, k);
    } else if e.face == face && e.cost < COST_PFX_INFINITY {
      IndexUnique(r, |row|);
    }
  }

  /** Merging gives every face the least cost offered for it, and keeps the previous costs. */
  lemma {:induction false} MergeAllCost(row: Entries, offers: Entries, face: Face)
    requires Distinct(row) && RowCost(row, face) == COST_PFX_INFINITY
    ensures Distinct(MergeAll(row, offers)) && RowPrev(MergeAll(row, offers), face) == RowPrev(row, face)
    ensures RowCost(MergeAll(row, offers), face) == Cheapest(offers, face)
  {
    if offers == [] {
    } else {
      var n := |offers| - 1;
      MergeAllCost(row, offers[..n], face);
      MergeOneCost(MergeAll(row, offers[..n]), offers[n], face);
      CheapestIsLeast(offers[..n], face);
    }
  }

  // --------------------------------------------------------------- commands

  /** The cost that the forwarder has for a face of a name after the commands, in order. */
  ghost function Replayed(cmds: seq<Command>, name: Name, face: Face): nat {
    if cmds == [] then COST_PFX_INFINITY
    else
      var last := cmds[|cmds| - 1];
      if last.name == name && last.face == face then (if last.Register? then last.cost else COST_PFX_INFINITY)
      else Replayed(cmds[..|cmds| - 1], name, face)
  }

  ghost function Unregisters(name: Name, row: Entries): seq<Command> {
    if row == [] then []
    else
      var e := row[|row| - 1];
      Unregisters(name, row[..|row| - 1]) + if e.cost >= COST_PFX_INFINITY then [Unregister(name, e.face)] else []
  }

  ghost function Registers(name: Name, row: Entries): seq<Command> {
    if row == [] then []
    else
      var e := row[|row| - 1];
      Registers(name, row[..|row| - 1]) + if e.cost != e.prevCost then [Register(name, e.face, e.cost)] else []
  }

  /** The entries that can still be reached. */
  ghost function Live(row: Entries): Entries {
    if row == [] then []
    else
      var e := row[|row| - 1];
      Live(row[..|row| - 1]) + if e.cost >= COST_PFX_INFINITY then [] else [e]
  }

  ghost function RowOf(prefixes: map<Name, Entries>, name: Name): Entries {
    if name in prefixes then prefixes[name] else []
  }

  /** The commands so far have made the forwarder's routes those in the table. */
  ghost predicate Mirrors(cmds: seq<Command>, prefixes: map<Name, Entries>) {
    forall n: Name, f: Face :: Replayed(cmds, n, f) == RowCost(RowOf(prefixes, n), f)
  }

  lemma ReplayedPush(cmds: seq<Command>, c: Command, name: Name, face: Face)
    ensures Replayed(cmds + [c], name, face) ==
            if c.name == name && c.face == face then (if c.Register? then c.cost else COST_PFX_INFINITY)
            else Replayed(cmds, name, face)
  {
    assert (cmds + [c])[..|cmds|] == cmds;
  }

  ghost predicate HasFace(row: Entries, face: Face) {
    exists i :: 0 <= i < |row| && row[i].face == face
  }

  /** Unregistering leaves every other face, and every other name, as it was. */
  lemma {:induction false} ReplayedUnregisters(cmds: seq<Command>, name: Name, row: Entries, n: Name, f: Face)
    requires Distinct(row)
    ensures Replayed(cmds + Unregisters(name, row), n, f) ==
            if n == name && HasFace(row, f) && RowCost(row, f) >= COST_PFX_INFINITY then COST_PFX_INFINITY
            else Replayed(cmds, n, f)
  {
    if row == [] {
      assert cmds + Unregisters(name, row) == cmds;
    } else {
      var front, e := row[..|row| - 1], row[|row| - 1];
      FrontRow(row, f);
      ReplayedUnregisters(cmds, name, front, n, f);
      if e.cost >= COST_PFX_INFINITY {
        assert cmds + Unregisters(name, row) == cmds + Unregisters(name, front) + [Unregister(name, e.face)];
        ReplayedPush(cmds + Unregisters(name, front), Unregister(name, e.face), n, f);
      } else {
        assert Unregisters(name, row) == Unregisters(name, front);
      }
    }
  }

  /** The last entry is the only one for its face. */
  lemma FrontRow(row: Entries, face: Face)
    requires row != [] && Distinct(row)
    ensures var front, e := row[..|row| - 1], row[|row| - 1];
            && Distinct(front) && !HasFace(front, e.face)
            && (HasFace(row, face) <==> HasFace(front, face) || face == e.face)
            && RowCost(row, face) == (if face == e.face then e.cost else RowCost(front, face))
            && RowPrev(row, face) == (if face == e.face then e.prevCost else RowPrev(front, face))
  {
    var n := |row| - 1;
    var front := row[..n];
    forall i: nat, j: nat | i < j < |front|
      ensures Apart(front, i, j)
    {
      assert Apart(row, i, j);
    }
    forall i: nat | i < n
      ensures row[i].face != row[n].face
    {
      assert Apart(row, i, n);
    }
    IndexUnique(row, n);
    if HasFace(front, face) {
      var i :| 0 <= i < n && front[i].face == face;
      IndexUnique(front, i);
      IndexUnique(row, i);
    }
  }

  lemma {:induction false} ReplayedRegisters(cmds: seq<Command>, name: Name, row: Entries, n: Name, f: Face)
    requires Distinct(row)
    ensures Replayed(cmds + Registers(name, row), n, f) ==
            if n == name && HasFace(row, f) && RowCost(row, f) != RowPrev(row, f) then RowCost(row, f)
            else Replayed(cmds, n, f)
  {
    if row == [] {
      assert cmds + Registers(name, row) == cmds;
    } else {
      var front, e := row[..|row| - 1], row[|row| - 1];
      FrontRow(row, f);
      ReplayedRegisters(cmds, name, front, n, f);
      if e.cost != e.prevCost {
        assert cmds + Registers(name, row) == cmds + Registers(name, front) + [Register(name, e.face, e.cost)];
        ReplayedPush(cmds + Registers(name, front), Register(name, e.face, e.cost), n, f);
      } else {
        assert Registers(name, row) == Registers(name, front);
      }
    }
  }

  lemma {:induction false} LiveCost(row: Entries, face: Face)
    requires Distinct(row)
    ensures Distinct(Live(row)) && (HasFace(Live(row), face) <==>
                                    HasFace(row, face) && RowCost(row, face) < COST_PFX_INFINITY)
    ensures HasFace(Live(row), face) ==>
              RowCost(Live(row), face) == RowCost(row, face) && RowPrev(Live(row), face) == RowPrev(row, face)
    ensures forall i :: 0 <= i < |Live(row)| ==> Live(row)[i].cost < COST_PFX_INFINITY
  {
    if row == [] {
    } else {
      var front, e := row[..|row| - 1], row[|row| - 1];
      FrontRow(row, face);
      FrontRow(row, e.face);
      LiveCost(front, face);
      LiveCost(front, e.face);
      if e.cost < COST_PFX_INFINITY {
        PushRow(Live(front), e, face);
      } else {
        assert Live(row) == Live(front);
      }
    }
  }

  lemma PushRow(row: Entries, e: FibEntry, face: Face)
    requires Distinct(row) && !HasFace(row, e.face)
    ensures Distinct(row + [e]) && (HasFace(row + [e], face) <==> HasFace(row, face) || face == e.face)
    ensures RowCost(row + [e], face) == (if face == e.face then e.cost else RowCost(row, face))
    ensures RowPrev(row + [e], face) == (if face == e.face then e.prevCost else RowPrev(row, face))
  {
    var r := row + [e];
    forall i: nat, j: nat | i < j < |r|
      ensures Apart(r, i, j)
    {
      assert j < |row| ==> Apart(row, i, j);
    }
    assert r[..|r| - 1] == row;
    FrontRow(r, face);
  }

  /** What an update does to one name: its new row, and the commands that take the forwarder there. */
  ghost function Merged(row: Entries, offers: Entries): Entries {
    MergeAll(ResetRow(row), offers)
  }

  ghost function Difference(name: Name, row: Entries, offers: Entries): seq<Command> {
    Unregisters(name, Merged(row, offers)) + Registers(name, Live(Merged(row, offers)))
  }

  lemma NoFace(row: Entries, face: Face)
    requires !HasFace(row, face)
    ensures RowCost(row, face) == COST_PFX_INFINITY == RowPrev(row, face)
  {
  }

  lemma NewRow(row: Entries, offers: Entries, face: Face)
    requires Distinct(row)
    ensures Distinct(Live(Merged(row, offers))) && RowCost(Live(Merged(row, offers)), face) == Cheapest(offers, face)
  {
    ResetCost(row, face);
    MergeAllCost(ResetRow(row), offers, face);
    LiveCost(Merged(row, offers), face);
    CheapestIsLeast(offers, face);
    if !HasFace(Merged(row, offers), face) {
      NoFace(Merged(row, offers), face);
    }
    if !HasFace(Live(Merged(row, offers)), face) {
      NoFace(Live(Merged(row, offers)), face);
    }
  }

  /** The difference brings the forwarder from the old row to the new one, and touches no other name. */
  lemma DifferenceReplayed(cmds: seq<Command>, name: Name, row: Entries, offers: Entries, n: Name, f: Face)
    requires Distinct(row) && (n == name ==> Replayed(cmds, n, f) == RowCost(row, f))
    ensures Replayed(cmds + Difference(name, row, offers), n, f) ==
            if n == name then Cheapest(offers, f) else Replayed(cmds, n, f)
  {
    var merged := Merged(row, offers);
    ResetCost(row, f);
    MergeAllCost(ResetRow(row), offers, f);
    LiveCost(merged, f);
    CheapestIsLeast(offers, f);
    ReplayedUnregisters(cmds, name, merged, n, f);
    ReplayedRegisters(cmds + Unregisters(name, merged), name, Live(merged), n, f);
    assert cmds + Difference(name, row, offers) == cmds + Unregisters(name, merged) + Registers(name, Live(merged));
    if !HasFace(merged, f) {
      NoFace(merged, f);
    }
  }

  /** One entry per face, and only usable costs. */
  ghost predicate InOrder(row: Entries) {
    Distinct(row) && forall i :: 0 <= i < |row| ==> row[i].cost < COST_PFX_INFINITY
  }

  class Fib {
    var prefixes: map<Name, Entries>
    var names: set<Name>
    var mark: set<Name>
    var commands: seq<Command>

    constructor ()
      ensures Valid() && prefixes == map[] && commands == []
    {
      prefixes, names, mark, commands := map[], {}, {}, [];
    }

    ghost predicate Valid()
      reads this
    {
      && names == prefixes.Keys && Mirrors(commands, prefixes)
      && forall n :: n in prefixes ==> InOrder(prefixes[n])
    }

    /** Makes the routes of one name those offered. A false result says that no route is left. */
    method UpdateH(name: Name, newEntries: Entries) returns (ok: bool)
      requires Valid()
      modifies this
      ensures Valid() && commands == old(commands) + Difference(name, RowOf(old(prefixes), name), newEntries)
      ensures ok == (name in prefixes) && mark == (if ok then old(mark) else old(mark) - {name})
      ensures prefixes == Replaced(old(prefixes), name, Live(Merged(RowOf(old(prefixes), name), newEntries)))
      ensures (forall f: Face :: RowCost(RowOf(old(prefixes), name), f) == Cheapest(newEntries, f)) ==>
                commands == old(commands)
    {
      var row := if name in prefixes then prefixes[name] else [];
      var merged := Merge(row, newEntries);
      var cmds, final := Diff(name, merged);
      names := names + {name};
      commands := commands + cmds;
      ok := |final| > 0;
      if ok {
        prefixes := prefixes[name := final];
      } else {
        prefixes := prefixes - {name};
        mark := mark - {name};
        names := names - {name};
      }
      ReplacedMirrors(old(commands), old(prefixes), name, newEntries);
      if forall f: Face :: RowCost(RowOf(old(prefixes), name), f) == Cheapest(newEntries, f) {
        QuietRow(name, row, newEntries);
      }
    }

    method MarkH(name: Name)
      modifies `mark
      ensures mark == old(mark) + {name}
    {
      mark := mark + {name};
    }

    method UnmarkAll()
      modifies `mark
      ensures mark == {}
    {
      mark := {};
    }

    /** Removes all routes of the names that are not marked. */
    method RemoveUnmarked()
      requires Valid()
      modifies this
      ensures Valid() && forall n :: RowOf(prefixes, n) == if n in old(mark) then RowOf(old(prefixes), n) else []
    {
      var todo := prefixes.Keys;
      while todo != {}
        invariant Valid() && todo <= old(prefixes).Keys && forall n :: n in mark <==> n in old(mark)
        invariant forall n :: n in todo ==> n in prefixes && prefixes[n] == old(prefixes)[n]
        invariant forall n :: n !in todo ==>
                    RowOf(prefixes, n) == if n in old(mark) then RowOf(old(prefixes), n) else []
        decreases |todo|
      {
        var nh :| nh in todo;
        if nh !in mark {
          if nh in names {
            EmptyRow(prefixes[nh]);
            var ok := UpdateH(nh, []);
          }
        }
        todo := todo - {nh};
      }
    }

    /** Installs exactly the cheapest offers, whatever was installed before. */
    method UpdateFib(wanted: map<Name, Entries>)
      requires Valid()
      modifies this
      ensures Valid() && forall n :: Installed(prefixes, wanted, n)
    {
      UnmarkAll();
      var todo := wanted.Keys;
      while todo != {}
        invariant Valid() && todo <= wanted.Keys
        invariant forall n :: n in wanted && n !in todo ==> Installed(prefixes, wanted, n)
        invariant forall n :: n in mark <==> n in prefixes && n in wanted && n !in todo
        decreases |todo|
      {
        var n :| n in todo;
        InstalledRow(prefixes, wanted, n);
        var ok := UpdateH(n, wanted[n]);
        if ok {
          MarkH(n);
        }
        todo := todo - {n};
      }
      RemoveUnmarked();
    }
  }

  /** The installed costs of a name are the cheapest that are wanted. */
  ghost predicate Installed(prefixes: map<Name, Entries>, wanted: map<Name, Entries>, n: Name) {
    forall f: Face :: RowCost(RowOf(prefixes, n), f) == Cheapest(RowOf(wanted, n), f)
  }

  lemma InstalledRow(prefixes: map<Name, Entries>, wanted: map<Name, Entries>, n: Name)
    requires n in wanted && Distinct(RowOf(prefixes, n))
    ensures Installed(Replaced(prefixes, n, Live(Merged(RowOf(prefixes, n), wanted[n]))), wanted, n)
  {
    forall f: Face
      ensures RowCost(Live(Merged(RowOf(prefixes, n), wanted[n])), f) == Cheapest(wanted[n], f)
    {
      NewRow(RowOf(prefixes, n), wanted[n], f);
    }
  }

  /** With no offers nothing is left. */
  lemma EmptyRow(row: Entries)
    requires Distinct(row)
    ensures Live(Merged(row, [])) == []
  {
    var final := Live(Merged(row, []));
    NewRow(row, [], 0);
    ResetCost(row, 0);
    MergeAllCost(ResetRow(row), [], 0);
    LiveCost(Merged(row, []), 0);
    if final != [] {
      NewRow(row, [], final[0].face);
    }
  }

  ghost function Replaced(prefixes: map<Name, Entries>, name: Name, row: Entries): map<Name, Entries> {
    if row == [] then prefixes - {name} else prefixes[name := row]
  }

  lemma ReplacedMirrors(cmds: seq<Command>, prefixes: map<Name, Entries>, name: Name, offers: Entries)
    requires Mirrors(cmds, prefixes) && forall n :: n in prefixes ==> InOrder(prefixes[n])
    ensures var row := RowOf(prefixes, name);
            Mirrors(cmds + Difference(name, row, offers), Replaced(prefixes, name, Live(Merged(row, offers))))
    ensures InOrder(Live(Merged(RowOf(prefixes, name), offers)))
  {
    var row := RowOf(prefixes, name);
    var after := Replaced(prefixes, name, Live(Merged(row, offers)));
    NewRow(row, offers, 0);
    ResetCost(row, 0);
    MergeAllCost(ResetRow(row), offers, 0);
    LiveCost(Merged(row, offers), 0);
    forall n: Name, f: Face
      ensures Replayed(cmds + Difference(name, row, offers), n, f) == RowCost(RowOf(after, n), f)
    {
      assert Replayed(cmds, n, f) == RowCost(RowOf(prefixes, n), f);
      DifferenceReplayed(cmds, name, row, offers, n, f);
      NewRow(row, offers, f);
    }
  }

  method Merge(installed: Entries, newEntries: Entries) returns (row: Entries)
    ensures row == Merged(installed, newEntries)
  {
    row := installed;
    var i := 0;
    ResetRowFacts(installed);
    while i < |row|
      invariant 0 <= i <= |row| == |installed|
      invariant forall j :: 0 <= j < i ==> row[j] == ResetRow(installed)[j]
      invariant forall j :: i <= j < |row| ==> row[j] == installed[j]
    {
      row := row[i := row[i].(prevCost := row[i].cost, cost := COST_PFX_INFINITY)];
      i := i + 1;
    }
    assert row == ResetRow(installed);
    i := 0;
    while i < |newEntries|
      invariant 0 <= i <= |newEntries| && row == MergeAll(ResetRow(installed), newEntries[..i])
    {
      assert newEntries[..i + 1][..i] == newEntries[..i];
      var e := newEntries[i];
      i := i + 1;
      if e.cost >= COST_PFX_INFINITY {
        continue;
      }
      var k := FindFace(row, e.face);
      if k < |row| {
        row := row[k := row[k].(cost := Min(e.cost, row[k].cost))];
      } else {
        row := row + [e.(prevCost := COST_PFX_INFINITY)];
      }
    }
    assert newEntries[..i] == newEntries;
  }

  method FindFace(row: Entries, face: Face) returns (k: nat)
    ensures k == FaceIndex(row, face)
  {
    k := 0;
    while k < |row| && row[k].face != face
      invariant 0 <= k <= |row| && forall i :: 0 <= i < k ==> row[i].face != face
    {
      k := k + 1;
    }
  }

  /** Unregisters what cannot be reached, registers what has changed. */
  method Diff(name: Name, row: Entries) returns (cmds: seq<Command>, final: Entries)
    ensures final == Live(row) && cmds == Unregisters(name, row) + Registers(name, Live(row))
  {
    cmds, final := [], [];
    for i := 0 to |row|
      invariant final == Live(row[..i]) && cmds == Unregisters(name, row[..i])
    {
      assert row[..i + 1][..i] == row[..i];
      if row[i].cost >= COST_PFX_INFINITY {
        cmds := cmds + [Unregister(name, row[i].face)];
      } else {
        final := final + [row[i]];
      }
    }
    assert row[..|row|] == row;
    for i := 0 to |final|
      invariant cmds == Unregisters(name, row) + Registers(name, final[..i])
    {
      assert final[..i + 1][..i] == final[..i];
      if final[i].cost != final[i].prevCost {
        cmds := cmds + [Register(name, final[i].face, final[i].cost)];
      }
    }
    assert final[..|final|] == final;
  }

  // ------------------------------------------------------ nothing to be done

  /** Merging keeps the faces of the old entries; entries added have usable costs. */
  lemma {:induction false} MergeAllShape(row: Entries, offers: Entries)
    ensures var m := MergeAll(row, offers);
            && |m| >= |row| && (forall i :: 0 <= i < |row| ==> m[i].face == row[i].face)
            && forall i :: |row| <= i < |m| ==> m[i].cost < COST_PFX_INFINITY
  {
    if offers == [] {
    } else {
      MergeAllShape(row, offers[..|offers| - 1]);
    }
  }

  ghost predicate Steady(row: Entries) {
    forall i :: 0 <= i < |row| ==> row[i].cost == row[i].prevCost && row[i].cost < COST_PFX_INFINITY
  }

  lemma {:induction false} NoUnregisters(name: Name, row: Entries)
    requires Steady(row)
    ensures Unregisters(name, row) == []
  {
    if row == [] {
    } else {
      NoUnregisters(name, row[..|row| - 1]);
    }
  }

  lemma {:induction false} NoRegisters(name: Name, row: Entries)
    requires Steady(row)
    ensures Registers(name, row) == []
  {
    if row == [] {
    } else {
      NoRegisters(name, row[..|row| - 1]);
    }
  }

  lemma {:induction false} AllLive(row: Entries)
    requires Steady(row)
    ensures Live(row) == row
  {
    if row == [] {
    } else {
      AllLive(row[..|row| - 1]);
      assert row == row[..|row| - 1] + [row[|row| - 1]];
    }
  }

  /** If the cheapest offers are installed already, no command is sent. */
  lemma QuietRow(name: Name, row: Entries, offers: Entries)
    requires InOrder(row) && forall f: Face :: RowCost(row, f) == Cheapest(offers, f)
    ensures Difference(name, row, offers) == []
  {
    var merged := Merged(row, offers);
    ResetRowFacts(row);
    MergeAllShape(ResetRow(row), offers);
    forall i | 0 <= i < |merged|
      ensures merged[i].cost == merged[i].prevCost && merged[i].cost < COST_PFX_INFINITY
    {
      var f := merged[i].face;
      ResetCost(row, f);
      MergeAllCost(ResetRow(row), offers, f);
      IndexUnique(merged, i);
      if i < |row| {
        IndexUnique(row, i);
      }
    }
    NoUnregisters(name, merged);
    NoRegisters(name, merged);
    AllLive(merged);
  }

  // ------------------------------------------------------------- the routes

  /** The face leads to the neighbour, which is live, at a finite cost. */
  ghost predicate Through(hop: Name, low: nat, faces: map<Name, Face>, f: Face, cost: nat) {
    hop in faces && faces[hop] == f && low == cost < COST_INFINITY
  }

  /** The face leads to one of the two best next hops. */
  ghost predicate HopOn(best: Best, faces: map<Name, Face>, f: Face, cost: nat) {
    Through(best.hop1, best.low1, faces, f, cost) || Through(best.hop2, best.low2, faces, f, cost)
  }

  function HopEntry(hop: Name, low: nat, faces: map<Name, Face>): (row: Entries)
    ensures |row| <= 1 && forall f: Face, cost: nat :: RowHas(row, f, cost) <==> Through(hop, low, faces, f, cost)
  {
    if hop in faces && low < COST_INFINITY then
      var e := FibEntry(faces[hop], low, 0);
      assert [e][0] == e;
      [e]
    else []
  }

  /** The next hops to a router: exactly those of the two best that are live and at a finite cost. */
  function NextHops(best: Best, faces: map<Name, Face>): (hops: Entries)
    ensures |hops| <= 2 && forall f: Face, cost: nat :: RowHas(hops, f, cost) <==> HopOn(best, faces, f, cost)
  {
    var first, second := HopEntry(best.hop1, best.low1, faces), HopEntry(best.hop2, best.low2, faces);
    assert forall f: Face, cost: nat :: RowHas(first + second, f, cost) <==> HopOn(best, faces, f, cost) by {
      forall f: Face, cost: nat {
        RowHasConcat(first, second, f, cost);
      }
    }
    first + second
  }

  datatype Announced = Announced(name: Name, cost: nat)

  /** A router in the routing table: the group prefix of its prefix table, the next hops to it, and what it
      announces. */
  datatype Exit = Exit(router: Name, group: Name, hops: Entries, announced: seq<Announced>)

  /** The sum of two 64-bit words. */
  function AddWord(a: nat, b: nat): nat {
    (a + b) % WORD
  }

  ghost function Shifted(hops: Entries, cost: nat): Entries {
    if hops == [] then []
    else
      var h := hops[|hops| - 1];
      Shifted(hops[..|hops| - 1], cost) + [h.(cost := AddWord(h.cost, cost))]
  }

  ghost function AnnouncedOffers(hops: Entries, announced: seq<Announced>, n: Name): Entries {
    if announced == [] then []
    else
      var a := announced[|announced| - 1];
      AnnouncedOffers(hops, announced[..|announced| - 1], n) + if a.name == n then Shifted(hops, a.cost) else []
  }

  ghost function ExitOffers(self: Name, x: Exit, n: Name): Entries {
    if x.router == self then []
    else (if x.group == n then Shifted(x.hops, 0) else []) + AnnouncedOffers(x.hops, x.announced, n)
  }

  /** All offers for a name. */
  ghost function Offers(self: Name, exits: seq<Exit>, n: Name): Entries {
    if exits == [] then [] else Offers(self, exits[..|exits| - 1], n) + ExitOffers(self, exits[|exits| - 1], n)
  }

  ghost predicate RowHas(row: Entries, f: Face, c: nat) {
    exists i :: 0 <= i < |row| && row[i].face == f && row[i].cost == c
  }

  /** A next hop on the face leads to another router that announces the name, and the two costs add up to c. */
  ghost predicate ExitOffered(self: Name, x: Exit, n: Name, f: Face, c: nat) {
    && x.router != self
    && ((x.group == n && HopOffered(x.hops, 0, f, c))
        || exists i ::
             0 <= i < |x.announced| && x.announced[i].name == n && HopOffered(x.hops, x.announced[i].cost, f, c))
  }

  ghost predicate HopOffered(hops: Entries, cost: nat, f: Face, c: nat) {
    exists i :: 0 <= i < |hops| && hops[i].face == f && c == AddWord(hops[i].cost, cost)
  }

  ghost predicate Offered(self: Name, exits: seq<Exit>, n: Name, f: Face, c: nat) {
    exists i :: 0 <= i < |exits| && ExitOffered(self, exits[i], n, f, c)
  }

  lemma RowHasConcat(a: Entries, b: Entries, f: Face, c: nat)
    ensures RowHas(a + b, f, c) <==> RowHas(a, f, c) || RowHas(b, f, c)
  {
    if RowHas(a, f, c) {
      var i :| 0 <= i < |a| && a[i].face == f && a[i].cost == c;
      assert (a + b)[i] == a[i];
    }
    if RowHas(b, f, c) {
      var i :| 0 <= i < |b| && b[i].face == f && b[i].cost == c;
      assert (a + b)[|a| + i] == b[i];
    }
  }

  lemma {:induction false} ShiftedHas(hops: Entries, cost: nat, f: Face, c: nat)
    ensures RowHas(Shifted(hops, cost), f, c) <==> HopOffered(hops, cost, f, c)
  {
    if hops == [] {
    } else {
      var front, h := hops[..|hops| - 1], hops[|hops| - 1];
      ShiftedHas(front, cost, f, c);
      var e := h.(cost := AddWord(h.cost, cost));
      RowHasConcat(Shifted(front, cost), [e], f, c);
      assert RowHas([e], f, c) <==> e.face == f && e.cost == c by {
        assert [e][0] == e;
      }
      assert forall i :: 0 <= i < |front| ==> front[i] == hops[i];
    }
  }

  lemma {:induction false} AnnouncedHas(hops: Entries, announced: seq<Announced>, n: Name, f: Face, c: nat)
    ensures RowHas(AnnouncedOffers(hops, announced, n), f, c) <==>
            exists i :: 0 <= i < |announced| && announced[i].name == n && HopOffered(hops, announced[i].cost, f, c)
  {
    if announced == [] {
    } else {
      var front, a := announced[..|announced| - 1], announced[|announced| - 1];
      AnnouncedHas(hops, front, n, f, c);
      ShiftedHas(hops, a.cost, f, c);
      RowHasConcat(AnnouncedOffers(hops, front, n), if a.name == n then Shifted(hops, a.cost) else [], f, c);
      assert forall i :: 0 <= i < |front| ==> front[i] == announced[i];
    }
  }

  lemma ExitHas(self: Name, x: Exit, n: Name, f: Face, c: nat)
    ensures RowHas(ExitOffers(self, x, n), f, c) <==> ExitOffered(self, x, n, f, c)
  {
    ShiftedHas(x.hops, 0, f, c);
    AnnouncedHas(x.hops, x.announced, n, f, c);
    RowHasConcat(if x.group == n then Shifted(x.hops, 0) else [], AnnouncedOffers(x.hops, x.announced, n), f, c);
  }

  lemma {:induction false} OffersHas(self: Name, exits: seq<Exit>, n: Name, f: Face, c: nat)
    ensures RowHas(Offers(self, exits, n), f, c) <==> Offered(self, exits, n, f, c)
  {
    if exits == [] {
    } else {
      var front, x := exits[..|exits| - 1], exits[|exits| - 1];
      OffersHas(self, front, n, f, c);
      ExitHas(self, x, n, f, c);
      RowHasConcat(Offers(self, front, n), ExitOffers(self, x, n), f, c);
      assert forall i :: 0 <= i < |front| ==> front[i] == exits[i];
      if ExitOffered(self, x, n, f, c) {
        assert exits[|exits| - 1] == x;
      }
    }
  }

  // ------------------------------------------------------------ what they cost

  /** The ways to a name through a face: what the next hop costs, and what the name costs behind the exit router. */
  type Routes = iset<(nat, nat)>

  ghost predicate Announces(x: Exit, n: Name, cost: nat) {
    (x.group == n && cost == 0) || exists i :: 0 <= i < |x.announced| && x.announced[i] == Announced(n, cost)
  }

  ghost predicate LeadsTo(self: Name, x: Exit, n: Name, f: Face, hop: nat, cost: nat) {
    x.router != self && Announces(x, n, cost) && RowHas(x.hops, f, hop)
  }

  ghost function RoutesOf(self: Name, exits: seq<Exit>, n: Name, f: Face): Routes {
    iset hop: nat, cost: nat | exists i :: 0 <= i < |exits| && LeadsTo(self, exits[i], n, f, hop, cost) :: (hop, cost)
  }

  /** What a route costs: the sum, or the sum as the program adds words. */
  ghost function Price(route: (nat, nat), wrapped: bool): nat {
    if wrapped then AddWord(route.0, route.1) else route.0 + route.1
  }

  /** Some route costs that much, and no usable one costs less; or there is no usable one. */
  ghost predicate IsLeastPrice(routes: Routes, wrapped: bool, cost: nat) {
    && cost <= COST_PFX_INFINITY && (cost < COST_PFX_INFINITY ==> exists r :: r in routes && Price(r, wrapped) == cost)
    && forall r :: r in routes && Price(r, wrapped) < COST_PFX_INFINITY ==> cost <= Price(r, wrapped)
  }

  /** Costs are words. */
  ghost predicate Words(routes: Routes) {
    forall r :: r in routes ==> r.0 < WORD && r.1 < WORD
  }

  /** Every route whose sum wraps to a usable cost is matched by one that truly costs no more. */
  ghost predicate Matched(routes: Routes) {
    forall r :: r in routes && r.0 + r.1 >= WORD && Price(r, true) < COST_PFX_INFINITY ==>
          MatchedBy(routes, Price(r, true))
  }

  ghost predicate MatchedBy(routes: Routes, cost: nat) {
    exists r :: r in routes && Price(r, false) <= cost
  }

  /** The unchecked sum does no harm exactly if every wrapping route is matched. */
  lemma TrueLeast(routes: Routes, cost: nat)
    requires Words(routes) && IsLeastPrice(routes, true, cost)
    ensures IsLeastPrice(routes, false, cost) <==> Matched(routes)
  {
    forall r | r in routes
      ensures Price(r, true) == if Price(r, false) < WORD then Price(r, false) else Price(r, false) - WORD
    {
    }
    if IsLeastPrice(routes, false, cost) {
      forall r | r in routes && r.0 + r.1 >= WORD && Price(r, true) < COST_PFX_INFINITY
        ensures MatchedBy(routes, Price(r, true))
      {
        assert cost <= Price(r, true);
        var s :| s in routes && Price(s, false) == cost;
      }
    }
    if Matched(routes) && cost < COST_PFX_INFINITY {
      var r :| r in routes && Price(r, true) == cost;
      if r.0 + r.1 >= WORD {
        assert MatchedBy(routes, cost);
        var s :| s in routes && Price(s, false) <= cost;
        assert cost <= Price(s, true) == Price(s, false);
      }
    }
  }

  /** No sum wraps if next hops cost less than infinity and names no more than theirs. */
  lemma ModestMatched(routes: Routes)
    requires forall r :: r in routes ==> r.0 < COST_INFINITY && r.1 <= COST_PFX_INFINITY
    ensures Words(routes) && Matched(routes)
  {
  }

  /** The sum may wrap, and then it does harm: a name announced at the highest cost there is, one hop away, and by
      nobody else, is installed at no cost, while in truth it is of no use. */
  lemma WrappedRoute(routes: Routes)
    requires routes == iset{(1, WORD - 1)}
    ensures Words(routes) && IsLeastPrice(routes, true, 0) && !Matched(routes)
            && IsLeastPrice(routes, false, COST_PFX_INFINITY)
  {
    assert (1, WORD - 1) in routes && Price((1, WORD - 1), true) == 0;
  }

  lemma OfferedRoute(self: Name, exits: seq<Exit>, n: Name, f: Face, c: nat)
    ensures Offered(self, exits, n, f, c) <==> exists r :: r in RoutesOf(self, exits, n, f) && Price(r, true) == c
  {
    var routes := RoutesOf(self, exits, n, f);
    if Offered(self, exits, n, f, c) {
      var i :| 0 <= i < |exits| && ExitOffered(self, exits[i], n, f, c);
      var cost, k := OfferParts(self, exits[i], n, f, c);
      assert LeadsTo(self, exits[i], n, f, exits[i].hops[k].cost, cost);
      assert (exits[i].hops[k].cost, cost) in routes && Price((exits[i].hops[k].cost, cost), true) == c;
    }
    if r :| r in routes && Price(r, true) == c {
      var i :| 0 <= i < |exits| && LeadsTo(self, exits[i], n, f, r.0, r.1);
      var k :| 0 <= k < |exits[i].hops| && exits[i].hops[k].face == f && exits[i].hops[k].cost == r.0;
      assert HopOffered(exits[i].hops, r.1, f, c);
      assert ExitOffered(self, exits[i], n, f, c);
    }
  }

  lemma OfferParts(self: Name, x: Exit, n: Name, f: Face, c: nat) returns (cost: nat, k: nat)
    requires ExitOffered(self, x, n, f, c)
    ensures Announces(x, n, cost) && k < |x.hops| && x.hops[k].face == f && AddWord(x.hops[k].cost, cost) == c
  {
    if x.group == n && HopOffered(x.hops, 0, f, c) {
      cost := 0;
    } else {
      var i :| 0 <= i < |x.announced| && x.announced[i].name == n && HopOffered(x.hops, x.announced[i].cost, f, c);
      cost := x.announced[i].cost;
      assert x.announced[i] == Announced(n, cost);
    }
    assert HopOffered(x.hops, cost, f, c);
    k :| 0 <= k < |x.hops| && x.hops[k].face == f && c == AddWord(x.hops[k].cost, cost);
  }

  /** Which routers come first does not matter. */
  lemma CheapestOffer(self: Name, exits: seq<Exit>, n: Name, f: Face)
    ensures IsLeastPrice(RoutesOf(self, exits, n, f), true, Cheapest(Offers(self, exits, n), f))
  {
    var routes, offers := RoutesOf(self, exits, n, f), Offers(self, exits, n);
    var best := Cheapest(offers, f);
    CheapestIsLeast(offers, f);
    OffersHas(self, exits, n, f, best);
    OfferedRoute(self, exits, n, f, best);
    forall r | r in routes && Price(r, true) < COST_PFX_INFINITY
      ensures best <= Price(r, true)
    {
      OffersHas(self, exits, n, f, Price(r, true));
      OfferedRoute(self, exits, n, f, Price(r, true));
    }
  }

  // ---------------------------------------------------------- collecting them

  method RegisterOffers(wanted: map<Name, Entries>, name: Name, hops: Entries, cost: nat)
    returns (more: map<Name, Entries>)
    ensures RowOf(more, name) == RowOf(wanted, name) + Shifted(hops, cost)
    ensures forall n :: n != name ==> RowOf(more, n) == RowOf(wanted, n)
  {
    more := wanted;
    for i := 0 to |hops|
      invariant RowOf(more, name) == RowOf(wanted, name) + Shifted(hops[..i], cost)
      invariant forall n :: n != name ==> RowOf(more, n) == RowOf(wanted, n)
    {
      assert hops[..i + 1][..i] == hops[..i];
      var row := if name in more then more[name] else [];
      more := more[name := row + [hops[i].(cost := AddWord(hops[i].cost, cost))]];
    }
    assert hops[..|hops|] == hops;
  }

  method CollectExit(wanted: map<Name, Entries>, self: Name, x: Exit) returns (more: map<Name, Entries>)
    ensures forall n :: RowOf(more, n) == RowOf(wanted, n) + ExitOffers(self, x, n)
  {
    if x.router == self {
      assert forall n :: RowOf(wanted, n) + [] == RowOf(wanted, n);
      return wanted;
    }
    var grouped := RegisterOffers(wanted, x.group, x.hops, 0);
    more := CollectAnnounced(grouped, x.hops, x.announced);
    forall n
      ensures RowOf(more, n) == RowOf(wanted, n) + ExitOffers(self, x, n)
    {
      Regroup(RowOf(wanted, n), Shifted(x.hops, 0), AnnouncedOffers(x.hops, x.announced, n));
      assert [] + AnnouncedOffers(x.hops, x.announced, n) == AnnouncedOffers(x.hops, x.announced, n);
    }
  }

  method CollectAnnounced(wanted: map<Name, Entries>, hops: Entries, announced: seq<Announced>)
    returns (more: map<Name, Entries>)
    ensures forall n :: RowOf(more, n) == RowOf(wanted, n) + AnnouncedOffers(hops, announced, n)
  {
    more := wanted;
    for i := 0 to |announced|
      invariant forall n :: RowOf(more, n) == RowOf(wanted, n) + AnnouncedOffers(hops, announced[..i], n)
    {
      AnnouncedNext(hops, announced, i);
      more := RegisterOffers(more, announced[i].name, hops, announced[i].cost);
    }
    assert announced[..|announced|] == announced;
  }

  lemma AnnouncedNext(hops: Entries, announced: seq<Announced>, i: nat)
    requires i < |announced|
    ensures forall n: Name {:trigger AnnouncedOffers(hops, announced[..i + 1], n)} ::
              AnnouncedOffers(hops, announced[..i + 1], n) ==
              if announced[i].name == n then AnnouncedOffers(hops, announced[..i], n) + Shifted(hops, announced[i].cost)
              else AnnouncedOffers(hops, announced[..i], n)
  {
    assert announced[..i + 1][..i] == announced[..i];
  }

  method Collect(self: Name, exits: seq<Exit>) returns (wanted: map<Name, Entries>)
    ensures forall n :: RowOf(wanted, n) == Offers(self, exits, n)
  {
    wanted := map[];
    for i := 0 to |exits|
      invariant forall n :: RowOf(wanted, n) == Offers(self, exits[..i], n)
    {
      assert exits[..i + 1][..i] == exits[..i];
      wanted := CollectExit(wanted, self, exits[i]);
    }
    assert exits[..|exits|] == exits;
  }

  /** A full synchronisation: for every name and face the forwarder ends up with the cheapest route through any
      router, and with none where there is none, whatever it had before and in whatever order routers and names are
      visited. Costs are added as words; the outcome is the cheapest by the true sum exactly if every wrapping route
      is matched. */
  method Synchronise(fib: Fib, self: Name, exits: seq<Exit>)
    requires fib.Valid()
    modifies fib
    ensures fib.Valid()
    ensures forall n: Name, f: Face :: IsLeastPrice(RoutesOf(self, exits, n, f), true, Replayed(fib.commands, n, f))
    ensures forall n: Name, f: Face :: Words(RoutesOf(self, exits, n, f)) ==>
              (IsLeastPrice(RoutesOf(self, exits, n, f), false, Replayed(fib.commands, n, f)) <==>
               Matched(RoutesOf(self, exits, n, f)))
  {
    var wanted := Collect(self, exits);
    fib.UpdateFib(wanted);
    forall n: Name, f: Face
      ensures IsLeastPrice(RoutesOf(self, exits, n, f), true, Replayed(fib.commands, n, f))
    {
      assert Installed(fib.prefixes, wanted, n);
      assert Replayed(fib.commands, n, f) == RowCost(RowOf(fib.prefixes, n), f);
      CheapestOffer(self, exits, n, f);
    }
    forall n: Name, f: Face | Words(RoutesOf(self, exits, n, f))
      ensures IsLeastPrice(RoutesOf(self, exits, n, f), false, Replayed(fib.commands, n, f)) <==>
                Matched(RoutesOf(self, exits, n, f))
    {
      TrueLeast(RoutesOf(self, exits, n, f), Replayed(fib.commands, n, f));
    }
  }
}
