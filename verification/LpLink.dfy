/**
 One direction of a link: a sender that splits packets into frames, and a
 receiver that puts them together again.
 */
module LpLink {
  import opened Common
  import opened LpReassembly

  datatype LpFrame = LpFrame(fragment: Bytes, sequence: Option<nat>, fragIndex: Option<nat>, fragCount: Option<nat>)

  // --------------------------------------------------------- fragmentation

  /** A packet cut into pieces of the given size, the last one possibly shorter. */
  ghost function Parts(wire: Bytes, size: nat): seq<Bytes>
    requires size > 0
  {
    if |wire| <= size then [wire] else [wire[..size]] + Parts(wire[size..], size)
  }

  function Join(parts: seq<Bytes>): Bytes {
    if parts == [] then [] else parts[0] + Join(parts[1..])
  }

  /** The pieces make up the packet, none is empty and none is too long. */
  lemma {:induction false} PartsJoin(wire: Bytes, size: nat)
    requires size > 0 && wire != []
    ensures Join(Parts(wire, size)) == wire
    ensures forall i :: 0 <= i < |Parts(wire, size)| ==> 0 < |Parts(wire, size)[i]| <= size
  {
    if |wire| > size {
      PartsJoin(wire[size..], size);
      assert Parts(wire, size)[1..] == Parts(wire[size..], size);
    } else {
      assert Parts(wire, size)[1..] == [];
    }
  }

  function FrameOf(part: Bytes, base: nat, i: nat, count: nat): LpFrame {
    LpFrame(part, Some(base + i), Some(i), Some(count))
  }

  /** Consecutive sequence numbers from the base, and the position and number of the pieces. */
  ghost predicate Framed(frames: seq<LpFrame>, parts: seq<Bytes>, base: nat) {
    |frames| <= |parts| && forall i :: 0 <= i < |frames| ==> frames[i] == FrameOf(parts[i], base, i, |parts|)
  }

  /** The number of pieces is the quotient rounded up. */
  lemma {:induction false} PartsCount(wire: Bytes, size: nat)
    requires size > 0 && wire != []
    ensures |Parts(wire, size)| == (|wire| + size - 1) / size
  {
    if |wire| > size {
      PartsCount(wire[size..], size);
      OneMore(|wire| - size, size);
    } else {
      OneOnly(|wire|, size);
    }
  }

  lemma OneMore(n: nat, size: nat)
    requires size > 0
    ensures (n + size + size - 1) / size == (n + size - 1) / size + 1
  {
    var a := n + size - 1;
    assert size * (a / size + 1) == size * (a / size) + size;
    Quotient(a + size, size, a / size + 1, a % size);
  }

  lemma OneOnly(n: nat, size: nat)
    requires 0 < n <= size
    ensures (n + size - 1) / size == 1
  {
    Quotient(n + size - 1, size, 1, n - 1);
  }

  lemma Quotient(a: nat, d: nat, q: nat, r: nat)
    requires a == d * q + r && r < d
    ensures a / d == q
  {
    var q' := a / d;
    assert a == d * q' + a % d && 0 <= a % d < d;
    if q < q' {
      Gap(d, q, q');
    } else if q > q' {
      Gap(d, q', q);
    }
  }

  lemma {:induction false} Gap(d: nat, p: nat, q: nat)
    requires p < q
    ensures d * p + d <= d * q
  {
    assert d * q == d * (q - 1) + d;
    if p < q - 1 {
      Gap(d, p, q - 1);
    }
  }

  class LinkSender {
    const isFragmentationEnabled: bool
    var nextSequence: nat

    constructor (isFragmentationEnabled: bool)
      ensures nextSequence == 0 && this.isFragmentationEnabled == isFragmentationEnabled
    {
      this.isFragmentationEnabled := isFragmentationEnabled;
      nextSequence := 0;
    }

    /** The frames for a packet. The size left for the packet in a frame is positive. */
    method SendPacket(wire: Bytes, effectiveMtu: nat) returns (frames: seq<LpFrame>)
      requires effectiveMtu > 0
      modifies `nextSequence
      ensures |wire| <= effectiveMtu ==>
                frames == [LpFrame(wire, None, None, None)] && nextSequence == old(nextSequence)
      ensures |wire| > effectiveMtu && !isFragmentationEnabled ==> frames == [] && nextSequence == old(nextSequence)
      ensures |wire| > effectiveMtu && isFragmentationEnabled ==>
                && Framed(frames, Parts(wire, effectiveMtu), old(nextSequence) + 1)
                && |frames| == |Parts(wire, effectiveMtu)|
                && nextSequence == old(nextSequence) + |Parts(wire, effectiveMtu)|
    {
      if |wire| <= effectiveMtu {
        return [LpFrame(wire, None, None, None)];
      }
      if !isFragmentationEnabled {
        return [];
      }
      var fragCount := (|wire| + effectiveMtu - 1) / effectiveMtu;
      frames := [];
      var rest := wire;
      ghost var parts := Parts(wire, effectiveMtu);
      PartsCount(wire, effectiveMtu);
      var i := 0;
      while i < fragCount
        invariant 0 <= i <= fragCount == |parts| && |frames| == i
        invariant i < fragCount ==> parts[i..] == Parts(rest, effectiveMtu)
        invariant |rest| == |wire| - effectiveMtu * i || i == fragCount
        invariant nextSequence == old(nextSequence) + i
        invariant Framed(frames, parts, old(nextSequence) + 1)
      {
        var readSize := effectiveMtu;
        assert parts[i..][0] == parts[i] && |parts[i..]| == fragCount - i;
        if i == fragCount - 1 {
          readSize := |wire| - effectiveMtu * (fragCount - 1);
        }
        var frag := rest[..readSize];
        assert parts[i + 1..] == parts[i..][1..];
        assert effectiveMtu * (i + 1) == effectiveMtu * i + effectiveMtu;
        nextSequence := nextSequence + 1;
        frames := frames + [LpFrame(frag, Some(nextSequence), Some(i), Some(fragCount))];
        rest := rest[readSize..];
        i := i + 1;
      }
    }
  }

  // -------------------------------------------------------------- the link

  /** The fragment that a frame with a sequence number carries. Positions count from zero and default to the only one of
      one; the subtraction is that of 64-bit words. */
  function Carried(frame: LpFrame): Fragment
    requires frame.sequence.Some?
  {
    var index := if frame.fragIndex.Some? then frame.fragIndex.value else 0;
    var count := if frame.fragCount.Some? then frame.fragCount.value else 1;
    var number := frame.sequence.value;
    Fragment(if number >= index then number - index else (number - index) % WORD, index, count, frame.fragment)
  }

  /** What comes of a frame: nothing, its own contents, or a packet that it completes. */
  ghost function Handled(r: Ring, isReassemblyEnabled: bool, frame: LpFrame): (Ring, Option<Bytes>)
    requires Shaped(r)
  {
    if frame.fragment == [] then (r, None)
    else if isReassemblyEnabled && frame.sequence.Some? then
      var f := Carried(frame);
      if f.index == 0 && f.count == 1 then (r, Some(frame.fragment))
      else
        var (r', whole) := Step(r, f);
        (r', if whole.Some? then Some(Join(whole.value)) else None)
    else if frame.fragCount.Some? || frame.fragIndex.Some? then (r, None)
    else (r, Some(frame.fragment))
  }

  /** The frame says nothing of pieces. */
  ghost predicate Whole(frame: LpFrame) {
    frame.fragIndex.None? && frame.fragCount.None?
  }

  /** The frame is numbered as the only one of one. */
  ghost predicate OnlyOne(frame: LpFrame) {
    frame.fragIndex in {None, Some(0)} && frame.fragCount in {None, Some(1)}
  }

  /** A packet sent in one frame is passed on, numbered or not. A frame without contents, and a piece that cannot be put
      together, is dropped. Any other piece goes to the receiver's buffers. */
  method HandleIncomingFrame(receiver: Reassembler, isReassemblyEnabled: bool, frame: LpFrame)
    returns (res: Option<Bytes>)
    requires Shaped(receiver.Contents())
    modifies receiver, receiver.reassemblyBuffers
    ensures (receiver.Contents(), res) == Handled(old(receiver.Contents()), isReassemblyEnabled, frame)
    ensures frame.fragment != [] && Whole(frame) ==> res == Some(frame.fragment)
    ensures frame.fragment != [] && isReassemblyEnabled && frame.sequence.Some? && OnlyOne(frame) ==>
              res == Some(frame.fragment)
    ensures frame.fragment == [] || (!(isReassemblyEnabled && frame.sequence.Some?) && !Whole(frame)) ==> res == None
    ensures frame.fragment == [] || !isReassemblyEnabled || frame.sequence.None? || OnlyOne(frame) ==>
              receiver.Contents() == old(receiver.Contents())
    ensures frame.fragment != [] && isReassemblyEnabled && frame.sequence.Some? && !OnlyOne(frame) ==>
              var (r, parts) := Step(old(receiver.Contents()), Carried(frame));
              receiver.Contents() == r && res == if parts.Some? then Some(Join(parts.value)) else None
  {
    if |frame.fragment| == 0 {
      return None;
    }
    if isReassemblyEnabled && frame.sequence.Some? {
      var f := Carried(frame);
      if f.index != 0 || f.count != 1 {
        var whole := receiver.Reassemble(f);
        return if whole.Some? then Some(Join(whole.value)) else None;
      }
    } else if frame.fragCount.Some? || frame.fragIndex.Some? {
      return None;
    }
    return Some(frame.fragment);
  }

  /** A frame that carries a whole packet, or one of several fragments of a packet sent. */
  ghost predicate FromSender(frame: LpFrame, wires: set<Bytes>, sent: map<nat, seq<Bytes>>) {
    if frame.sequence.None? then frame.fragIndex.None? && frame.fragCount.None? && frame.fragment in wires
    else
      && frame.fragIndex.Some? && frame.fragCount.Some? && frame.fragCount.value > 1
      && Genuine(Carried(frame), sent)
  }

  ghost predicate AllFromSender(frames: set<LpFrame>, wires: set<Bytes>, sent: map<nat, seq<Bytes>>) {
    forall f :: f in frames ==> FromSender(f, wires, sent)
  }

  /** The numbers of packets sent so far: none is used again, and each stands for a packet. */
  ghost predicate Sequenced(sent: map<nat, seq<Bytes>>, wires: set<Bytes>, next: nat) {
    forall b :: b in sent ==> 0 < b <= next && Join(sent[b]) in wires
  }

  lemma SameOrMore(frames: set<LpFrame>, wires: set<Bytes>, sent: map<nat, seq<Bytes>>, base: nat, parts: seq<Bytes>,
                   wire: Bytes)
    requires AllFromSender(frames, wires, sent) && base !in sent
    ensures AllFromSender(frames, wires + {wire}, sent[base := parts])
  {
    forall f | f in frames
      ensures FromSender(f, wires + {wire}, sent[base := parts])
    {
      assert FromSender(f, wires, sent);
    }
  }

  /** A buffer in use for a packet stays in order when more packets are sent. */
  lemma TracksMore(r: Ring, sent: map<nat, seq<Bytes>>, base: nat, parts: seq<Bytes>)
    requires Tracks(r, sent) && base !in sent
    ensures Tracks(r, sent[base := parts])
  {
    var more := sent[base := parts];
    forall k: nat | k < BUFFERS
      ensures SlotOk(r.slots, k, more)
    {
      assert SlotOk(r.slots, k, sent);
    }
  }

  lemma FramedGenuine(frames: seq<LpFrame>, parts: seq<Bytes>, base: nat, wires: set<Bytes>, sent: map<nat, seq<Bytes>>)
    requires Framed(frames, parts, base) && base > 0 && base in sent && sent[base] == parts && |parts| > 1
    requires forall i :: 0 <= i < |parts| ==> 0 < |parts[i]|
    ensures forall f :: f in frames ==> FromSender(f, wires, sent)
  {
    forall i | 0 <= i < |frames|
      ensures FromSender(frames[i], wires, sent)
    {
      assert frames[i] == FrameOf(parts[i], base, i, |parts|);
    }
  }

  class Link {
    const sender: LinkSender
    const receiver: Reassembler
    const isReassemblyEnabled: bool
    ghost var wires: set<Bytes>
    ghost var sent: map<nat, seq<Bytes>>
    ghost var frames: set<LpFrame>

    constructor (isFragmentationEnabled: bool, isReassemblyEnabled: bool)
      ensures Valid() && wires == {} && frames == {} && this.isReassemblyEnabled == isReassemblyEnabled
      ensures sender.isFragmentationEnabled == isFragmentationEnabled
    {
      sender := new LinkSender(isFragmentationEnabled);
      receiver := new Reassembler();
      this.isReassemblyEnabled := isReassemblyEnabled;
      wires, sent, frames := {}, map[], {};
    }

    ghost predicate Valid()
      reads this, sender, receiver, receiver.reassemblyBuffers
    {
      && Tracks(receiver.Contents(), sent) && Sequenced(sent, wires, sender.nextSequence)
      && AllFromSender(frames, wires, sent)
    }

    /** A packet is sent, as one frame or several. */
    method Send(wire: Bytes, effectiveMtu: nat) returns (out: seq<LpFrame>)
      requires Valid() && effectiveMtu > 0
      modifies this, sender
      ensures Valid() && wires == old(wires) + {wire} && frames == old(frames) + set f | f in out
      ensures |wire| <= effectiveMtu ==> out == [LpFrame(wire, None, None, None)] && sent == old(sent)
      ensures |wire| > effectiveMtu && !sender.isFragmentationEnabled ==> out == [] && sent == old(sent)
      // otherwise a number never used before stands for the pieces of the packet, and the frames carry them
      ensures |wire| > effectiveMtu && sender.isFragmentationEnabled ==>
                && old(sender.nextSequence) + 1 !in old(sent)
                   && sent == old(sent)[old(sender.nextSequence) + 1 := Parts(wire, effectiveMtu)]
                && Join(Parts(wire, effectiveMtu)) == wire && Framed(out, Parts(wire, effectiveMtu),
                                                                     old(sender.nextSequence) + 1)
                && |out| == |Parts(wire, effectiveMtu)|
    {
      ghost var next, parts := sender.nextSequence, Parts(wire, effectiveMtu);
      out := sender.SendPacket(wire, effectiveMtu);
      wires := wires + {wire};
      if sender.nextSequence > next {
        PartsJoin(wire, effectiveMtu);
        SameOrMore(frames, old(wires), sent, next + 1, parts, wire);
        TracksMore(receiver.Contents(), sent, next + 1, parts);
        sent := sent[next + 1 := parts];
        FramedGenuine(out, parts, next + 1, wires, sent);
      }
      frames := frames + set f | f in out;
    }

    /** Any frame ever sent arrives, now or again: what comes out, if anything, is a packet that was sent; a packet that
        was sent in one frame does come out. */
    method Receive(frame: LpFrame) returns (res: Option<Bytes>)
      requires Valid() && frame in frames
      modifies receiver, receiver.reassemblyBuffers
      ensures Valid() && (res.Some? ==> res.value in wires)
      ensures frame.sequence.None? && frame.fragment != [] ==> res == Some(frame.fragment)
      ensures (receiver.Contents(), res) == Handled(old(receiver.Contents()), isReassemblyEnabled, frame)
    {
      assert FromSender(frame, wires, sent);
      if frame.sequence.Some? {
        StepTracks(receiver.Contents(), Carried(frame), sent);
      }
      res := HandleIncomingFrame(receiver, isReassemblyEnabled, frame);
    }

    /** Frames arrive one after the other. Every packet that was sent in one of the frames comes out. Every packet that
        was cut up comes out whole if all its pieces are among them, the first frame is one of these and makes the
        receiver hand out a buffer, and fewer than sixteen others are handed out. */
    method ReceiveAll(arriving: seq<LpFrame>) returns (res: seq<Bytes>)
      requires Valid() && isReassemblyEnabled && forall i :: 0 <= i < |arriving| ==> arriving[i] in frames
      modifies receiver, receiver.reassemblyBuffers
      ensures Valid() && forall w :: w in res ==> w in wires
      ensures Shaped(old(receiver.Contents())) && res == Outcomes(old(receiver.Contents()), arriving)
      ensures forall i :: 0 <= i < |arriving| && arriving[i].sequence.None? && arriving[i].fragment != [] ==>
                arriving[i].fragment in res
      ensures AllGenuine(Fragments(arriving), sent)
      ensures forall base: nat :: AllArrive(old(receiver.Contents()), Fragments(arriving), base, sent) ==>
                Join(sent[base]) in res
    {
      ghost var r := receiver.Contents();
      FragmentsGenuine(arriving, frames, wires, sent);
      res := ReceiveEach(arriving);
      forall base: nat | AllArrive(r, Fragments(arriving), base, sent)
        ensures Join(sent[base]) in res
      {
        ArrivesWhole(r, Fragments(arriving), base, sent);
      }
    }

    method ReceiveEach(arriving: seq<LpFrame>) returns (res: seq<Bytes>)
      requires Valid() && isReassemblyEnabled && (forall i :: 0 <= i < |arriving| ==> arriving[i] in frames)
      requires AllGenuine(Fragments(arriving), sent)
      modifies receiver, receiver.reassemblyBuffers
      ensures Valid() && forall w :: w in res ==> w in wires
      ensures Shaped(old(receiver.Contents())) && res == Outcomes(old(receiver.Contents()), arriving)
      ensures forall i :: 0 <= i < |arriving| && arriving[i].sequence.None? && arriving[i].fragment != [] ==>
                arriving[i].fragment in res
      ensures forall base :: base in sent && Delivers(old(receiver.Contents()), Fragments(arriving), base, sent) ==>
                Join(sent[base]) in res
      decreases |arriving|
    {
      if |arriving| == 0 {
        return [];
      }
      ghost var r := receiver.Contents();
      assert FromSender(arriving[0], wires, sent);
      FragmentsFirst(arriving, sent);
      var first := Receive(arriving[0]);
      var rest := ReceiveEach(arriving[1..]);
      res := (if first.Some? then [first.value] else []) + rest;
      assert forall i :: 0 < i < |arriving| ==> arriving[i] == arriving[1..][i - 1];
    }
  }

  /** What comes of the frames, in order. */
  ghost function Outcomes(r: Ring, arriving: seq<LpFrame>): seq<Bytes>
    requires Shaped(r)
    decreases |arriving|
  {
    if arriving == [] then []
    else
      var (r', first) := Handled(r, true, arriving[0]);
      (if first.Some? then [first.value] else []) + Outcomes(r', arriving[1..])
  }

  /** The fragments that the frames carry. */
  ghost function Fragments(arriving: seq<LpFrame>): seq<Fragment> {
    if arriving == [] then []
    else (if arriving[0].sequence.Some? then [Carried(arriving[0])] else []) + Fragments(arriving[1..])
  }

  lemma {:induction false} FragmentsGenuine(arriving: seq<LpFrame>, frames: set<LpFrame>, wires: set<Bytes>,
                                            sent: map<nat, seq<Bytes>>)
    requires AllFromSender(frames, wires, sent) && forall i :: 0 <= i < |arriving| ==> arriving[i] in frames
    ensures AllGenuine(Fragments(arriving), sent)
  {
    if arriving == [] {
    } else {
      FragmentsGenuine(arriving[1..], frames, wires, sent);
      assert FromSender(arriving[0], wires, sent);
    }
  }

  lemma FragmentsFirst(arriving: seq<LpFrame>, sent: map<nat, seq<Bytes>>)
    requires arriving != [] && AllGenuine(Fragments(arriving), sent)
    ensures AllGenuine(Fragments(arriving[1..]), sent)
    ensures if arriving[0].sequence.Some?
            then Fragments(arriving) == [Carried(arriving[0])] + Fragments(arriving[1..])
                 && Fragments(arriving)[0] == Carried(arriving[0])
                    && Fragments(arriving)[1..] == Fragments(arriving[1..])
            else Fragments(arriving) == Fragments(arriving[1..])
  {
    var fs, rest := Fragments(arriving), Fragments(arriving[1..]);
    forall i | 0 <= i < |rest|
      ensures Genuine(rest[i], sent)
    {
      assert rest[i] == fs[|fs| - |rest| + i];
    }
  }

  /** All pieces of the packet are among the fragments, the first of which makes the receiver hand out a buffer for
      it, and not more than sixteen buffers are handed out in all. */
  ghost predicate AllArrive(r: Ring, fs: seq<Fragment>, base: nat, sent: map<nat, seq<Bytes>>)
    requires Tracks(r, sent) && AllGenuine(fs, sent)
  {
    && base in sent && fs != [] && fs[0].base == base && Allocates(r, fs[0])
    && (forall j: nat {:trigger Arrives(fs, base, j)} :: j < |sent[base]| ==> Arrives(fs, base, j))
    && Allocations(r, fs, sent) <= BUFFERS
  }
}
