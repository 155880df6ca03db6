/**
 Reassembly of link-layer fragments in a ring of sixteen buffers, and what it
 promises for a sender whose fragments may be lost, repeated and interleaved.
 */
module LpReassembly {
  import opened Common

  const BUFFERS: nat := 16

  /** A fragment of the packet whose first fragment has sequence number base. */
  datatype Fragment = Fragment(base: nat, index: nat, count: nat, data: Bytes)

  /** The fragments of one packet, empty where nothing arrived. A free slot has sequence 0. */
  datatype Slot = Slot(sequence: nat, buffer: Option<seq<Bytes>>)

  datatype Ring = Ring(slots: seq<Slot>, index: nat)

  const FREE: Slot := Slot(0, None)

  predicate Complete(buffer: seq<Bytes>) {
    forall i :: 0 <= i < |buffer| ==> buffer[i] != []
  }

  function Blank(n: nat): (b: seq<Bytes>)
    ensures |b| == n && forall i :: 0 <= i < n ==> b[i] == []
  {
    if n == 0 then [] else Blank(n - 1) + [[]]
  }

  // ------------------------------------------------------ what reassembly does

  /** The first slot with the sequence number, or one past the last. */
  function Find(slots: seq<Slot>, base: nat): (k: nat)
    ensures k <= |slots| && (k < |slots| ==> slots[k].sequence == base)
    ensures forall i :: 0 <= i < k ==> slots[i].sequence != base
  {
    if slots == [] then 0 else if slots[0].sequence == base then 0 else 1 + Find(slots[1..], base)
  }

  ghost predicate Shaped(r: Ring) {
    |r.slots| == BUFFERS && r.index < BUFFERS
  }

  ghost predicate Allocates(r: Ring, f: Fragment) {
    var k := Find(r.slots, f.base);
    k == |r.slots| || r.slots[k].buffer.None?
  }

  /** The fragment is one of as many as its packet's buffer holds. */
  ghost predicate Fits(r: Ring, f: Fragment) {
    exists k :: 0 <= k < |r.slots| && k == Find(r.slots, f.base) && r.slots[k].buffer.Some?
                && f.index < f.count == |r.slots[k].buffer.value|
  }

  function NextIndex(i: nat): nat {
    if i + 1 < BUFFERS then i + 1 else 0
  }

  /** A fresh buffer takes over the slot after the last one handed out. */
  ghost function Allocate(r: Ring, f: Fragment): Ring
    requires Shaped(r)
  {
    var k := NextIndex(r.index);
    Ring(r.slots[k := Slot(f.base, Some(Blank(f.count)))], k)
  }

  ghost function Store(r: Ring, k: nat, f: Fragment): (Ring, Option<seq<Bytes>>)
    requires Shaped(r) && k < BUFFERS && r.slots[k].buffer.Some?
  {
    var buffer := r.slots[k].buffer.value;
    if f.count != |buffer| || f.index >= |buffer| then (r, None)
    else
      var full := buffer[f.index := f.data];
      if Complete(full) then (r.(slots := r.slots[k := FREE]), Some(full))
      else (r.(slots := r.slots[k := Slot(r.slots[k].sequence, Some(full))]), None)
  }

  ghost function Step(r: Ring, f: Fragment): (Ring, Option<seq<Bytes>>)
    requires Shaped(r)
  {
    if Allocates(r, f) then Store(Allocate(r, f), NextIndex(r.index), f)
    else Store(r, Find(r.slots, f.base), f)
  }

  class Reassembler {
    const reassemblyBuffers: array<Slot>
    var reassemblyIndex: nat

    constructor ()
      ensures fresh(reassemblyBuffers) && Shaped(Contents()) && reassemblyIndex == 0
      ensures forall i :: 0 <= i < BUFFERS ==> Contents().slots[i] == FREE
    {
      reassemblyBuffers := new Slot[BUFFERS](i => FREE);
      reassemblyIndex := 0;
    }

    ghost function Contents(): Ring
      reads this, reassemblyBuffers
    {
      Ring(reassemblyBuffers[..], reassemblyIndex)
    }

    /** Stores a fragment, and returns the packet's fragments when all are there. */
    method Reassemble(f: Fragment) returns (res: Option<seq<Bytes>>)
      requires Shaped(Contents())
      modifies `reassemblyIndex, reassemblyBuffers
      ensures (Contents(), res) == Step(old(Contents()), f)
      // one that does not fit the buffer of its packet is dropped
      ensures !Allocates(old(Contents()), f) && !Fits(old(Contents()), f) ==>
                Contents() == old(Contents()) && res.None?
    {
      ghost var r := Contents();
      var bufIndex := FindBuffer(f.base);
      if bufIndex == BUFFERS || reassemblyBuffers[bufIndex].buffer.None? {
        bufIndex := NextIndex(reassemblyIndex);
        reassemblyIndex := bufIndex;
        reassemblyBuffers[bufIndex] := Slot(f.base, Some(Blank(f.count)));
        r := Allocate(r, f);
        assert Contents() == r;
      }
      var buffer := reassemblyBuffers[bufIndex].buffer.value;
      if f.count != |buffer| || f.index >= |buffer| {
        return None;
      }
      buffer := buffer[f.index := f.data];
      reassemblyBuffers[bufIndex] := Slot(reassemblyBuffers[bufIndex].sequence, Some(buffer));
      var full := AllReceived(buffer);
      if !full {
        assert Contents() == Store(r, bufIndex, f).0;
        return None;
      }
      reassemblyBuffers[bufIndex] := FREE;
      assert Contents() == Store(r, bufIndex, f).0;
      return Some(buffer);
    }

    method FindBuffer(base: nat) returns (k: nat)
      requires Shaped(Contents())
      ensures k == Find(reassemblyBuffers[..], base)
    {
      k := 0;
      while k < BUFFERS && reassemblyBuffers[k].sequence != base
        invariant 0 <= k <= BUFFERS && forall i :: 0 <= i < k ==> reassemblyBuffers[i].sequence != base
      {
        k := k + 1;
      }
    }
  }

  method AllReceived(buffer: seq<Bytes>) returns (b: bool)
    ensures b == Complete(buffer)
  {
    var i := 0;
    while i < |buffer|
      invariant 0 <= i <= |buffer| && forall j :: 0 <= j < i ==> buffer[j] != []
    {
      if |buffer[i]| == 0 {
        return false;
      }
      i := i + 1;
    }
    return true;
  }

  // --------------------------------------------------------------- soundness

  /** A fragment of one of the packets sent, each known by its first sequence number. */
  ghost predicate Genuine(f: Fragment, sent: map<nat, seq<Bytes>>) {
    && f.base in sent && f.base > 0 && f.count == |sent[f.base]| && f.index < f.count
    && f.data == sent[f.base][f.index] && f.data != []
  }

  /** Every fragment stored so far is the right one, and at least one is missing. */
  ghost predicate Partial(buffer: seq<Bytes>, parts: seq<Bytes>) {
    |buffer| == |parts| && !Complete(buffer) && forall i :: 0 <= i < |buffer| ==>
          buffer[i] == [] || buffer[i] == parts[i]
  }

  ghost predicate SlotOk(slots: seq<Slot>, k: nat, sent: map<nat, seq<Bytes>>)
    requires k < |slots|
  {
    var s := slots[k];
    if s.sequence == 0 then s.buffer.None?
    else s.buffer.Some? && s.sequence in sent && Partial(s.buffer.value, sent[s.sequence])
  }

  ghost predicate Apart(slots: seq<Slot>, i: nat, j: nat)
    requires i < |slots| && j < |slots|
  {
    slots[i].sequence == slots[j].sequence ==> slots[i].sequence == 0
  }

  /** Each buffer in use belongs to one packet sent, and no packet has two. */
  ghost predicate Tracks(r: Ring, sent: map<nat, seq<Bytes>>) {
    && Shaped(r)
    && (forall k: nat {:trigger SlotOk(r.slots, k, sent)} :: k < BUFFERS ==> SlotOk(r.slots, k, sent))
    && (forall i: nat, j: nat {:trigger Apart(r.slots, i, j)} :: i < j < BUFFERS ==> Apart(r.slots, i, j))
  }

  /** Putting a slot that is in order, and whose number is nowhere else, keeps the ring in order. */
  lemma PutTracks(r: Ring, k: nat, s: Slot, index: nat, sent: map<nat, seq<Bytes>>)
    requires Tracks(r, sent) && k < BUFFERS && index < BUFFERS && SlotOk([s], 0, sent)
    requires s.sequence != 0 ==> forall i :: 0 <= i < BUFFERS && i != k ==> r.slots[i].sequence != s.sequence
    ensures Tracks(Ring(r.slots[k := s], index), sent)
  {
    var slots := r.slots[k := s];
    forall i: nat | i < BUFFERS
      ensures SlotOk(slots, i, sent)
    {
      assert SlotOk(r.slots, i, sent);
    }
    forall i: nat, j: nat | i < j < BUFFERS
      ensures Apart(slots, i, j)
    {
      assert Apart(r.slots, i, j);
    }
  }

  /** The slot in which a packet's buffer is. */
  ghost predicate Holds(r: Ring, k: nat, base: nat)
    requires Shaped(r)
  {
    k < BUFFERS && r.slots[k].sequence == base && r.slots[k].buffer.Some?
  }

  lemma HoldsFound(r: Ring, k: nat, base: nat, sent: map<nat, seq<Bytes>>)
    requires Tracks(r, sent) && Holds(r, k, base)
    ensures Find(r.slots, base) == k && base in sent && base > 0 && Partial(r.slots[k].buffer.value, sent[base])
    ensures forall i :: 0 <= i < BUFFERS && i != k ==> r.slots[i].sequence != base
  {
    assert SlotOk(r.slots, k, sent);
    forall i | 0 <= i < BUFFERS && i != k
      ensures r.slots[i].sequence != base
    {
      assert if i < k then Apart(r.slots, i, k) else Apart(r.slots, k, i);
    }
  }

  /** Storing a genuine fragment in its packet's buffer. */
  lemma StoreTracks(r: Ring, k: nat, f: Fragment, sent: map<nat, seq<Bytes>>)
    requires Tracks(r, sent) && Holds(r, k, f.base) && Genuine(f, sent)
    ensures Tracks(Store(r, k, f).0, sent)
    ensures Store(r, k, f).1.Some? ==> Store(r, k, f).1.value == sent[f.base]
  {
    HoldsFound(r, k, f.base, sent);
    var full := r.slots[k].buffer.value[f.index := f.data];
    if Complete(full) {
      assert full == sent[f.base];
      PutTracks(r, k, FREE, r.index, sent);
    } else {
      PutTracks(r, k, Slot(f.base, Some(full)), r.index, sent);
    }
  }

  lemma AllocateTracks(r: Ring, f: Fragment, sent: map<nat, seq<Bytes>>)
    requires Tracks(r, sent) && Genuine(f, sent) && Allocates(r, f)
    ensures Tracks(Allocate(r, f), sent) && Holds(Allocate(r, f), NextIndex(r.index), f.base)
  {
    var k := NextIndex(r.index);
    var s := Slot(f.base, Some(Blank(f.count)));
    assert Partial(s.buffer.value, sent[f.base]) by { assert Blank(f.count)[f.index] == []; }
    var found := Find(r.slots, f.base);
    assert found < BUFFERS ==> SlotOk(r.slots, found, sent);
    PutTracks(r, k, s, k, sent);
  }

  /** Whatever arrives, in whatever order and however often: a packet is returned only as it was sent. */
  lemma StepTracks(r: Ring, f: Fragment, sent: map<nat, seq<Bytes>>)
    requires Tracks(r, sent) && Genuine(f, sent)
    ensures Tracks(Step(r, f).0, sent)
    ensures Step(r, f).1.Some? ==> Step(r, f).1.value == sent[f.base]
  {
    if Allocates(r, f) {
      AllocateTracks(r, f, sent);
      StoreTracks(Allocate(r, f), NextIndex(r.index), f, sent);
    } else {
      StoreTracks(r, Find(r.slots, f.base), f, sent);
    }
  }

  // ---------------------------------------------------------------- progress

  ghost predicate AllGenuine(fs: seq<Fragment>, sent: map<nat, seq<Bytes>>) {
    forall i :: 0 <= i < |fs| ==> Genuine(fs[i], sent)
  }

  /** How many buffers are handed out while the fragments arrive. */
  ghost function Allocations(r: Ring, fs: seq<Fragment>, sent: map<nat, seq<Bytes>>): nat
    requires Tracks(r, sent) && AllGenuine(fs, sent)
    decreases |fs|
  {
    if fs == [] then 0
    else
      StepTracks(r, fs[0], sent);
      (if Allocates(r, fs[0]) then 1 else 0) + Allocations(Step(r, fs[0]).0, fs[1..], sent)
  }

  /** At some point while the fragments arrive, the packet is returned as it was sent. */
  ghost predicate Delivers(r: Ring, fs: seq<Fragment>, base: nat, sent: map<nat, seq<Bytes>>)
    requires Tracks(r, sent) && AllGenuine(fs, sent) && base in sent
    decreases |fs|
  {
    if fs == [] then false
    else
      StepTracks(r, fs[0], sent);
      (fs[0].base == base && Step(r, fs[0]).1 == Some(sent[base])) || Delivers(Step(r, fs[0]).0, fs[1..], base, sent)
  }

  /** How many buffers were handed out since slot k was. */
  ghost function Age(index: nat, k: nat): nat
    requires index < BUFFERS && k < BUFFERS
  {
    if k <= index then index - k else index + BUFFERS - k
  }

  ghost predicate Arrives(fs: seq<Fragment>, base: nat, index: nat) {
    exists i :: 0 <= i < |fs| && fs[i].base == base && fs[i].index == index
  }

  /** Every fragment that the buffer still lacks is on its way. */
  ghost predicate RestArrives(buffer: seq<Bytes>, fs: seq<Fragment>, base: nat) {
    forall j: nat {:trigger Arrives(fs, base, j)} :: j < |buffer| && buffer[j] == [] ==> Arrives(fs, base, j)
  }

  /** A fragment of another packet leaves the buffer alone, unless it takes the slot over. */
  lemma OtherFragment(r: Ring, k: nat, base: nat, f: Fragment, sent: map<nat, seq<Bytes>>)
    requires Tracks(r, sent) && Holds(r, k, base) && Genuine(f, sent) && f.base != base
    requires Allocates(r, f) ==> Age(r.index, k) < BUFFERS - 1
    ensures var r' := Step(r, f).0;
            && Shaped(r') && r'.slots[k] == r.slots[k]
            && Age(r'.index, k) == Age(r.index, k) + if Allocates(r, f) then 1 else 0
  {
  }

  /** The sixteenth further buffer takes the slot over: the fragments collected so far are lost. */
  lemma SixteenthEvicts(r: Ring, k: nat, base: nat, f: Fragment, sent: map<nat, seq<Bytes>>)
    requires Tracks(r, sent) && Holds(r, k, base) && Genuine(f, sent) && f.base != base
    requires Allocates(r, f) && Age(r.index, k) == BUFFERS - 1
    ensures var r' := Step(r, f).0; Shaped(r') && forall i: nat :: !Holds(r', i, base)
  {
    HoldsFound(r, k, base, sent);
  }

  /** A fragment of the packet completes it, or fills its place in the buffer. */
  lemma OwnFragment(r: Ring, k: nat, f: Fragment, sent: map<nat, seq<Bytes>>)
    requires Tracks(r, sent) && Holds(r, k, f.base) && Genuine(f, sent)
    ensures !Allocates(r, f) && f.index < |r.slots[k].buffer.value|
    ensures var (r', res) := Step(r, f);
            var full := r.slots[k].buffer.value[f.index := f.data];
            res == Some(sent[f.base]) || r' == Ring(r.slots[k := Slot(f.base, Some(full))], r.index)
  {
    HoldsFound(r, k, f.base, sent);
    StepTracks(r, f, sent);
  }

  /** One arrival: the packet is returned, or its buffer is still there and lacks only what is still to arrive. */
  lemma OneArrival(r: Ring, k: nat, fs: seq<Fragment>, base: nat, sent: map<nat, seq<Bytes>>)
    requires Tracks(r, sent) && Holds(r, k, base) && fs != [] && Genuine(fs[0], sent) && base in sent
    requires RestArrives(r.slots[k].buffer.value, fs, base)
    requires Allocates(r, fs[0]) ==> Age(r.index, k) < BUFFERS - 1
    ensures var (r', res) := Step(r, fs[0]);
            || (fs[0].base == base && res == Some(sent[base]))
            || (Shaped(r') && Holds(r', k, base) && RestArrives(r'.slots[k].buffer.value, fs[1..], base)
                && Age(r'.index, k) == Age(r.index, k) + if Allocates(r, fs[0]) then 1 else 0)
  {
    var f := fs[0];
    var buffer := r.slots[k].buffer.value;
    if f.base == base {
      OwnFragment(r, k, f, sent);
      StillArrives(buffer, buffer[f.index := f.data], fs, base);
    } else {
      OtherFragment(r, k, base, f, sent);
      StillArrives(buffer, buffer, fs, base);
    }
  }

  lemma {:induction false} Completes(r: Ring, k: nat, fs: seq<Fragment>, base: nat, sent: map<nat, seq<Bytes>>)
    requires Tracks(r, sent) && Holds(r, k, base) && AllGenuine(fs, sent) && base in sent
    requires RestArrives(r.slots[k].buffer.value, fs, base) && Age(r.index, k) + Allocations(r, fs, sent) < BUFFERS
    ensures Delivers(r, fs, base, sent)
    decreases |fs|
  {
    SomethingArrives(r, k, fs, base, sent);
    OneArrival(r, k, fs, base, sent);
    StepTracks(r, fs[0], sent);
    var (r', res) := Step(r, fs[0]);
    if !(fs[0].base == base && res == Some(sent[base])) {
      Completes(r', k, fs[1..], base, sent);
    }
  }

  lemma SomethingArrives(r: Ring, k: nat, fs: seq<Fragment>, base: nat, sent: map<nat, seq<Bytes>>)
    requires Tracks(r, sent) && Holds(r, k, base) && RestArrives(r.slots[k].buffer.value, fs, base)
    ensures fs != []
  {
    HoldsFound(r, k, base, sent);
    var buffer := r.slots[k].buffer.value;
    var missing :| 0 <= missing < |buffer| && buffer[missing] == [];
    assert Arrives(fs, base, missing);
  }

  lemma StillArrives(buffer: seq<Bytes>, after: seq<Bytes>, fs: seq<Fragment>, base: nat)
    requires fs != [] && RestArrives(buffer, fs, base) && |after| == |buffer|
    requires forall j :: 0 <= j < |after| && after[j] == [] ==>
               buffer[j] == [] && !(fs[0].base == base && fs[0].index == j)
    ensures RestArrives(after, fs[1..], base)
  {
    forall j: nat | j < |after| && after[j] == []
      ensures Arrives(fs[1..], base, j)
    {
      assert Arrives(fs, base, j);
      var i :| 0 <= i < |fs| && fs[i].base == base && fs[i].index == j;
      assert fs[1..][i - 1] == fs[i];
    }
  }

  /** A packet whose fragments all arrive, starting with one for which a buffer is handed out and before sixteen further
      buffers are, is returned as it was sent. */
  lemma ArrivesWhole(r: Ring, fs: seq<Fragment>, base: nat, sent: map<nat, seq<Bytes>>)
    requires Tracks(r, sent) && AllGenuine(fs, sent) && fs != [] && fs[0].base == base && Allocates(r, fs[0])
    requires forall j: nat {:trigger Arrives(fs, base, j)} :: j < |sent[base]| ==> Arrives(fs, base, j)
    requires Allocations(r, fs, sent) <= BUFFERS
    ensures Delivers(r, fs, base, sent)
  {
    var f, rest, k := fs[0], fs[1..], NextIndex(r.index);
    StepTracks(r, f, sent);
    AllocateTracks(r, f, sent);
    var (r', res) := Step(r, f);
    var buffer := Blank(f.count)[f.index := f.data];
    if res != Some(sent[base]) {
      StoreTracks(Allocate(r, f), k, f, sent);
      StillArrives(Blank(f.count), buffer, fs, base);
      Completes(r', k, rest, base, sent);
    }
  }
}
