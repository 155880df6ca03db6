/**
 Sender and receiver of one path, with a network between them that loses,
 repeats and reorders packets and acknowledgements at will.
 */
module AckPath {
  import opened Common
  import opened AckHistory
  import opened SentPackets
  import opened SentPacketBooks
  import opened SentPacketHandling

  ghost predicate OnlyReceived(ranges: seq<Interval>, received: set<nat>) {
    forall x: nat {:trigger Has(ranges, x)} :: Has(ranges, x) ==> x in received
  }

  /** A frame of the right shape that names only numbers the receiver got. */
  ghost predicate Honest(f: AckFrame, received: set<nat>) {
    WellShaped(f) && forall n: nat {:trigger f.AcksPacket(n)} :: f.AcksPacket(n) ==> n in received
  }

  ghost predicate AllHonest(acks: set<AckFrame>, received: set<nat>) {
    forall f :: f in acks ==> Honest(f, received)
  }

  /** Packets counted as acknowledged. */
  ghost predicate AckedReceived(l: Ledger, received: set<nat>) {
    forall p :: p in l.acked ==> p.number in received
  }

  ghost predicate Named(acks: set<AckFrame>, n: nat) {
    exists f :: f in acks && f.AcksPacket(n)
  }

  /** Every packet that asks for an acknowledgement, and is still in the receiver's history, is named by one. */
  ghost predicate AllNamed(ranges: seq<Interval>, frames: map<nat, seq<Frame>>, acks: set<AckFrame>) {
    forall n: nat {:trigger Has(ranges, n)} :: Has(ranges, n) && n in frames && Asks(frames[n]) ==> Named(acks, n)
  }

  /** A stop-waiting frame releases only numbers below that of the packet that carries it. */
  ghost predicate StopsBelow(stops: map<nat, nat>) {
    forall n :: n in stops ==> 0 < stops[n] <= n
  }

  lemma LargestNamed(f: AckFrame)
    requires WellShaped(f)
    ensures f.AcksPacket(f.largestAcked)
  {
    if f.HasMissingRanges() {
      var top := f.ackRanges[0];
      assert top.first <= f.largestAcked <= top.last;
    }
  }

  lemma AckedStays(l: Books, ack: AckFrame, r: Rule, received: set<nat>)
    requires AckedReceived(l, received) && Honest(ack, received)
    ensures AckedReceived(AfterLoss(AfterAck(l, ack), r), received)
  {
    forall p | p in AfterAck(l, ack).acked
      ensures p.number in received
    {
      SelectIn(l.history, Covered(ack), true, p);
      if p !in l.acked {
        assert p in Select(l.history, Covered(ack), true);
        assert ack.AcksPacket(p.number);
      }
    }
  }

  /** What sender, receiver and network keep: only what was sent is received, only what was received is acknowledged,
      and a packet that asks for an acknowledgement is named by one or one is pending. */
  ghost predicate Faithful(l: Ledger, ranges: seq<Interval>, pending: bool, received: set<nat>, acks: set<AckFrame>,
                           frames: map<nat, seq<Frame>>, stops: map<nat, nat>) {
    match l
    case Ledger(_, _, _, sent, _, _, _, _) =>
      && received <= sent && OnlyReceived(ranges, received) && AllHonest(acks, received)
      && AckedReceived(l, received) && StopsBelow(stops) && (pending || AllNamed(ranges, frames, acks))
  }

  lemma SendKeeps(l: Ledger, l': Ledger, ranges: seq<Interval>, pending: bool, received: set<nat>, acks: set<AckFrame>,
                  frames: map<nat, seq<Frame>>, stops: map<nat, nat>, p: Packet, stop: Option<nat>)
    requires Faithful(l, ranges, pending, received, acks, frames, stops) && p.number !in l.sent
    requires l'.acked == l.acked && l'.sent == l.sent + {p.number}
    requires stop.Some? ==> 0 < stop.value <= p.number
    ensures Faithful(l', ranges, pending, received, acks, frames[p.number := p.frames],
                     if stop.Some? then stops[p.number := stop.value] else stops)
  {
    assert !Has(ranges, p.number);
  }

  lemma DeliverKeeps(l: Ledger, ranges: seq<Interval>, ranges': seq<Interval>, pending: bool, pending': bool,
                     received: set<nat>, acks: set<AckFrame>, frames: map<nat, seq<Frame>>, stops: map<nat, nat>,
                     n: nat)
    requires Faithful(l, ranges, pending, received, acks, frames, stops) && n in l.sent && n in frames
    requires pending ==> pending'
    requires forall x: nat {:trigger Has(ranges', x)} :: Has(ranges', x) ==> Has(ranges, x) || x == n
    requires Has(ranges', n) && !Has(ranges, n) && Asks(frames[n]) ==> pending'
    ensures Faithful(l, ranges', pending', received + {n}, acks, frames, stops)
  {
  }

  /** The sender never takes an acknowledgement for one of an unsent or a skipped packet. */
  lemma AckUnderstood(l: Ledger, ranges: seq<Interval>, pending: bool, received: set<nat>, acks: set<AckFrame>,
                      frames: map<nat, seq<Frame>>, stops: map<nat, nat>, f: AckFrame, skipped: seq<nat>, last: nat)
    requires Faithful(l, ranges, pending, received, acks, frames, stops) && f in acks
    requires Unsent(skipped, l.sent, last) && forall n :: n in l.sent ==> n <= last
    ensures WellShaped(f) && f.largestAcked <= last && !AcksAny(f, skipped)
  {
    LargestNamed(f);
    assert Honest(f, received);
  }

  lemma AckKeeps(l: Books, l': Ledger, ranges: seq<Interval>, pending: bool, received: set<nat>, acks: set<AckFrame>,
                 frames: map<nat, seq<Frame>>, stops: map<nat, nat>, f: AckFrame, r: Rule)
    requires Faithful(l, ranges, pending, received, acks, frames, stops) && f in acks
    requires l' == l || l' == AfterLoss(AfterAck(l, f), r)
    ensures Faithful(l', ranges, pending, received, acks, frames, stops)
  {
    AckedStays(l, f, r, received);
  }

  class Path {
    const sender: SentPacketHandler
    const receiver: ReceivedPacketHandler
    ghost var received: set<nat>
    ghost var acks: set<AckFrame>
    var frames: map<nat, seq<Frame>>
    var stops: map<nat, nat>

    constructor (ackSendDelay: nat, legacy: bool)
      ensures Valid() && fresh(sender) && fresh(receiver) && received == {} && acks == {}
      ensures frames == map[] && stops == map[]
    {
      sender := new SentPacketHandler();
      receiver := new ReceivedPacketHandler(ackSendDelay, legacy);
      received, acks, frames, stops := {}, {}, map[], map[];
      new;
      assert forall x: nat :: !Has([], x);
    }

    ghost predicate Valid()
      reads this, sender, sender.stopWaitingManager, receiver, receiver.packetHistory
    {
      && sender.Valid() && receiver.Valid() && frames.Keys == sender.books.sent
      && Faithful(sender.books, receiver.packetHistory.ranges, receiver.Pending(), received, acks, frames, stops)
    }

    /** The next packet goes out, with a stop-waiting frame if there is one to send. */
    method Send(packet: Packet, force: bool, now: int) returns (err: SendError)
      requires Valid()
      modifies this`frames, this`stops, sender, sender.stopWaitingManager
      ensures Valid()
      ensures err.Sent? <==> packet.number > old(sender.lastSentPacketNumber)
                             && |old(sender.books.history)| + |old(sender.books.queue)| < MAX_TRACKED_SENT_PACKETS
      ensures sender.books == if err.Sent?
              then Record(old(sender.books), packet.(frames := Strip(packet.frames), sendTime := now))
              else old(sender.books)
      ensures frames == if err.Sent? then old(frames)[packet.number := packet.frames] else old(frames)
      ensures err.Sent? && sender.stopWaitingManager.nextLeastUnacked >
                           old(sender.stopWaitingManager.largestLeastUnackedSent) ==>
                stops == old(stops)[packet.number := sender.stopWaitingManager.nextLeastUnacked]
      ensures !err.Sent? ==> stops == old(stops)
    {
      var frame;
      err, frame := sender.SendWithStopWaiting(packet, force, now);
      if err.Sent? {
        Launch(packet, frame, old(sender.books));
      }
    }

    /** The packet is on its way. */
    method Launch(packet: Packet, stop: Option<nat>, ghost l: Ledger)
      requires sender.Valid() && receiver.Valid() && frames.Keys == l.sent && packet.number !in l.sent
      requires Faithful(l, receiver.packetHistory.ranges, receiver.Pending(), received, acks, frames, stops)
      requires sender.books.acked == l.acked && sender.books.sent == l.sent + {packet.number}
      requires stop.Some? ==> 0 < stop.value <= packet.number
      modifies `frames, `stops
      ensures Valid() && frames == old(frames)[packet.number := packet.frames]
      ensures stops == if stop.Some? then old(stops)[packet.number := stop.value] else old(stops)
    {
      SendKeeps(l, sender.books, receiver.packetHistory.ranges, receiver.Pending(), received, acks, frames, stops,
                packet, stop);
      frames := frames[packet.number := packet.frames];
      if stop.Some? {
        stops := stops[packet.number := stop.value];
      }
    }

    /** Any packet ever sent arrives, now or again. Its stop-waiting frame never empties the receiver's history. If
        the packet asks for an acknowledgement and is not ignored, one is queued or will be. */
    method Deliver(n: nat, now: nat) returns (err: ReceiveError)
      requires Valid() && n in sender.books.sent
      modifies this`received, receiver, receiver.packetHistory
      ensures err.NoError? ==>
                Valid() && received == old(received) + {n}
                && receiver.lowerLimit == if n in stops then stops[n] - 1 else old(receiver.lowerLimit)
      ensures err.NoError? ==>
                forall x: nat {:trigger Has(receiver.packetHistory.ranges, x)} ::
                  Has(receiver.packetHistory.ranges, x) <==>
                  && (Has(old(receiver.packetHistory.ranges), x) || (x == n && n > old(receiver.lowerLimit)))
                  && (n in stops ==> x >= stops[n])
      ensures err.NoError? && n > old(receiver.lowerLimit) && Asks(frames[n]) ==> receiver.Pending()
      ensures !err.InvalidPacketNumber?
    {
      err := Arrive(n, now);
      if err.NoError? {
        DeliverKeeps(sender.books, old(receiver.packetHistory.ranges), receiver.packetHistory.ranges,
                     old(receiver.Pending()), receiver.Pending(), received, acks, frames, stops, n);
        received := received + {n};
      }
    }

    /** What the receiver does with a packet. */
    method Arrive(n: nat, now: nat) returns (err: ReceiveError)
      requires receiver.Valid() && n in frames && StopsBelow(stops) && n > 0
      modifies receiver, receiver.packetHistory
      ensures err.NoError? ==> receiver.Valid()
      ensures err.NoError? ==> receiver.lowerLimit == if n in stops then stops[n] - 1 else old(receiver.lowerLimit)
      ensures err.NoError? ==>
                forall x: nat {:trigger Has(receiver.packetHistory.ranges, x)} ::
                  Has(receiver.packetHistory.ranges, x) <==>
                  && (Has(old(receiver.packetHistory.ranges), x) || (x == n && n > old(receiver.lowerLimit)))
                  && (n in stops ==> x >= stops[n])
      ensures old(receiver.Pending()) || (err.NoError? && n > old(receiver.lowerLimit) && Asks(frames[n])) ==>
                receiver.Pending()
      ensures !err.InvalidPacketNumber?
    {
      var isRetransmittable := HasRetransmittableFrames(frames[n]);
      err := receiver.ReceivedPacket(n, isRetransmittable, now);
      if err.NoError? && n in stops {
        receiver.SetLowerLimit(stops[n] - 1);
      }
    }

    /** The sender's alarm goes off. */
    method Alarm(now: int, delayUntilLost: int, potentiallyFailed: bool)
      requires Valid()
      modifies sender, sender.stopWaitingManager
      ensures Valid() && sender.books.acked == old(sender.books.acked)
      ensures sender.books == AfterAlarm(old(sender.books), sender.largestAcked, old(sender.lossTime),
                                         old(sender.tlpCount), now, delayUntilLost, potentiallyFailed)
    {
      sender.OnAlarm(now, delayUntilLost, potentiallyFailed);
    }

    /** The receiver sends an acknowledgement if one is due. Unless the alarm is still set for later, every packet that
        asked for an acknowledgement, and was not released meanwhile, has then been named in one. */
    method Acknowledge(now: nat)
      requires Valid()
      modifies this`acks, receiver
      ensures Valid() && old(acks) <= acks
      ensures old(receiver.ackQueued) || (old(receiver.ackAlarm).Some? && old(receiver.ackAlarm).value <= now) ==>
                exists f :: f in acks && AcksExactly(f, receiver.packetHistory.ranges)
      ensures old(receiver.ackAlarm).None? || old(receiver.ackAlarm).value <= now || old(receiver.ackQueued) ==>
                AllNamed(receiver.packetHistory.ranges, frames, acks)
    {
      var f := receiver.GetAckFrame(now);
      if f.Some? {
        acks := acks + {f.value};
      }
    }

    /** Any acknowledgement ever sent arrives, now or again. It is accepted unless it comes out of order: the sender
        never takes it for one of an unsent or skipped packet, and its scan never fails. What it counts as
        acknowledged has been received. */
    method DeliverAck(f: AckFrame, withPacketNumber: nat, now: int, delayUntilLost: int) returns (err: AckError)
      requires Valid() && f in acks
      modifies sender, sender.stopWaitingManager
      ensures Valid() && (err.Accepted? || err.OutOfOrder?)
      ensures err.Accepted? && f.largestAcked > old(sender.LargestInOrderAcked()) ==>
                sender.books == AfterLoss(AfterAck(old(sender.books), f), Late(f.largestAcked, now, delayUntilLost))
    {
      AckUnderstood(sender.books, receiver.packetHistory.ranges, receiver.Pending(), received, acks, frames, stops, f,
                    sender.skippedPackets, sender.lastSentPacketNumber);
      ghost var acked;
      err, acked := sender.ReceivedAck(f, withPacketNumber, now, delayUntilLost);
      AckKeeps(old(sender.books), sender.books, receiver.packetHistory.ranges, receiver.Pending(), received, acks,
               frames, stops, f, Late(f.largestAcked, now, delayUntilLost));
    }
  }
}
