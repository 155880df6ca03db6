/**
 The sender's bookkeeping. Whatever the order of sends, acknowledgements,
 losses, probes and timeouts, the bytes in flight are the bytes of the packets
 in the history, and every packet accepted for tracking is in exactly one place.
 */
module SentPacketHandling {
  import opened Common
  import opened AckHistory
  import opened SentPackets
  import opened SentPacketBooks

  /** Remembers how far the peer may forget packet numbers. */
  class StopWaitingManager {
    var largestLeastUnackedSent: nat
    var nextLeastUnacked: nat
    var lastStopWaitingFrame: Option<nat>

    constructor ()
      ensures Valid() && nextLeastUnacked == 0
    {
      largestLeastUnackedSent, nextLeastUnacked, lastStopWaitingFrame := 0, 0, None;
    }

    ghost predicate Valid()
      reads this
    {
      && largestLeastUnackedSent <= nextLeastUnacked
      && (lastStopWaitingFrame.Some? ==> 0 < lastStopWaitingFrame.value <= nextLeastUnacked)
    }

    /** A frame never names zero, and never a number that nothing was recorded for. */
    method GetStopWaitingFrame(force: bool) returns (frame: Option<nat>)
      requires Valid()
      modifies `largestLeastUnackedSent, `lastStopWaitingFrame
      ensures Valid() && (frame.Some? ==> 0 < frame.value <= nextLeastUnacked)
      ensures nextLeastUnacked > old(largestLeastUnackedSent) ==>
                frame == Some(nextLeastUnacked) == lastStopWaitingFrame && largestLeastUnackedSent == nextLeastUnacked
      ensures nextLeastUnacked <= old(largestLeastUnackedSent) ==>
                largestLeastUnackedSent == old(largestLeastUnackedSent)
                && frame == (if force then lastStopWaitingFrame else None)
                && lastStopWaitingFrame == if force && old(lastStopWaitingFrame).None? && largestLeastUnackedSent > 0
                                           then Some(nextLeastUnacked) else old(lastStopWaitingFrame)
    {
      if nextLeastUnacked <= largestLeastUnackedSent {
        if force {
          if lastStopWaitingFrame.None? && largestLeastUnackedSent > 0 {
            lastStopWaitingFrame := Some(nextLeastUnacked);
          }
          return lastStopWaitingFrame;
        }
        return None;
      }
      largestLeastUnackedSent := nextLeastUnacked;
      lastStopWaitingFrame := Some(nextLeastUnacked);
      return lastStopWaitingFrame;
    }

    /** Called with the largest acknowledged number, or with a number queued for retransmission. */
    method Passed(p: nat)
      requires Valid()
      modifies `nextLeastUnacked
      ensures Valid() && nextLeastUnacked == Past(old(nextLeastUnacked), p)
    {
      if p >= nextLeastUnacked {
        nextLeastUnacked := p + 1;
      }
    }
  }

  /** The least unacknowledged number once a packet is known to be done with. */
  ghost function Past(next: nat, number: nat): nat {
    if number >= next then number + 1 else next
  }

  /** The same for several packets. */
  ghost function PastAll(next: nat, ps: seq<Packet>): nat {
    if ps == [] then next else Past(PastAll(next, ps[..|ps| - 1]), ps[|ps| - 1].number)
  }

  lemma PastNext(next: nat, ps: seq<Packet>, i: nat)
    requires i < |ps|
    ensures PastAll(next, ps[..i + 1]) == Past(PastAll(next, ps[..i]), ps[i].number)
  {
    assert ps[..i + 1][..i] == ps[..i];
  }

  /** It is the least number, not below the first, that is above all of them. */
  lemma {:induction false} PastIsLeast(next: nat, ps: seq<Packet>)
    ensures PastAll(next, ps) >= next
    ensures forall i :: 0 <= i < |ps| ==> ps[i].number < PastAll(next, ps)
    ensures PastAll(next, ps) == next || exists i :: 0 <= i < |ps| && PastAll(next, ps) == ps[i].number + 1
  {
    if ps == [] {
    } else {
      var last := |ps| - 1;
      PastIsLeast(next, ps[..last]);
      assert forall i :: 0 <= i < last ==> ps[..last][i] == ps[i];
    }
  }

  /** Passing packets up to a number and then that number is passing that number. */
  lemma PastBelow(next: nat, ps: seq<Packet>, limit: nat)
    requires forall p :: p in ps ==> p.number <= limit
    ensures Past(PastAll(next, ps), limit) == Past(next, limit)
  {
    PastIsLeast(next, ps);
  }

  lemma {:induction false} PastConcat(next: nat, a: seq<Packet>, b: seq<Packet>)
    ensures PastAll(next, a + b) == PastAll(PastAll(next, a), b)
  {
    if b == [] {
      assert a + b == a;
    } else {
      PastConcat(next, a, b[..|b| - 1]);
      assert (a + b)[..|a + b| - 1] == a + b[..|b| - 1];
    }
  }

  /** An acknowledged packet starts the counts of timeouts and probes again. */
  ghost predicate Restarted(acked: seq<Packet>, rtoCount: nat, tlpCount: nat, rtoCount': nat, tlpCount': nat) {
    if acked == [] then rtoCount' == rtoCount && tlpCount' == tlpCount else rtoCount' == 0 && tlpCount' == 0
  }

  /** What the queue has grown by. */
  ghost function Queued(before: Ledger, after: Ledger): seq<Packet> {
    if |before.queue| <= |after.queue| then after.queue[|before.queue|..] else []
  }

  lemma QueuedTwice(next: nat, l: Ledger, l1: Ledger, l2: Ledger)
    requires l.queue <= l1.queue <= l2.queue
    ensures PastAll(PastAll(next, Queued(l, l1)), Queued(l1, l2)) == PastAll(next, Queued(l, l2))
  {
    PastConcat(next, Queued(l, l1), Queued(l1, l2));
    assert Queued(l, l2) == Queued(l, l1) + Queued(l1, l2);
  }

  datatype SendError = Sent | NotIncreasing | TooManyTracked

  datatype AckError = Accepted | UnsentPacket | OutOfOrder | SkippedPacket | WrongRange

  // ------------------------------------------------------- skipped numbers

  ghost predicate Less(s: seq<nat>, i: nat, j: nat)
    requires i < |s| && j < |s|
  {
    s[i] < s[j]
  }

  ghost predicate Rising(s: seq<nat>) {
    forall i: nat, j: nat {:trigger Less(s, i, j)} :: i < j < |s| ==> Less(s, i, j)
  }

  /** The frame names one of the numbers. */
  ghost predicate AcksAny(ack: AckFrame, s: seq<nat>) {
    match ack
    case AckFrame(_, _, _) => exists i :: 0 <= i < |s| && ack.AcksPacket(s[i])
  }

  /** Skipped numbers rise and were never sent. */
  ghost predicate Unsent(skipped: seq<nat>, sent: set<nat>, last: nat) {
    Rising(skipped) && forall n :: n in skipped ==> n !in sent && n < last
  }

  /** The last ten. */
  function Latest(s: seq<nat>): seq<nat> {
    if |s| <= MAX_TRACKED_SKIPPED_PACKETS then s else s[|s| - MAX_TRACKED_SKIPPED_PACKETS..]
  }

  /** The numbers from a up to but excluding b. */
  ghost function Range(a: nat, b: nat): seq<nat> {
    if a < b then Range(a, b - 1) + [b - 1] else []
  }

  /** Skipping the numbers from a up to but excluding b. */
  ghost function SkipTo(skipped: seq<nat>, a: nat, b: nat): seq<nat> {
    Latest(skipped + Range(a, b))
  }

  /** Only the latest ten matter, so they may be picked after every number. */
  lemma SkipOne(skipped: seq<nat>, a: nat, p: nat)
    requires a <= p
    ensures SkipTo(skipped, a, p + 1) == Latest(SkipTo(skipped, a, p) + [p])
            && |SkipTo(skipped, a, p)| <= MAX_TRACKED_SKIPPED_PACKETS
  {
    LatestPush(skipped + Range(a, p), p);
    assert skipped + Range(a, p + 1) == skipped + Range(a, p) + [p];
  }

  lemma SkipNone(skipped: seq<nat>, a: nat)
    requires |skipped| <= MAX_TRACKED_SKIPPED_PACKETS
    ensures SkipTo(skipped, a, a) == skipped
  {
    assert skipped + Range(a, a) == skipped;
  }

  lemma LatestPush(s: seq<nat>, p: nat)
    ensures Latest(s + [p]) == Latest(Latest(s) + [p])
  {
  }

  lemma {:induction false} UnsentRange(skipped: seq<nat>, sent: set<nat>, last: nat, next: nat)
    requires Unsent(skipped, sent, last) && last < next && forall n :: n in sent ==> n <= last
    ensures Unsent(skipped + Range(last + 1, next), sent, next)
  {
    if next == last + 1 {
      assert skipped + Range(last + 1, next) == skipped;
    } else {
      UnsentRange(skipped, sent, last, next - 1);
      UnsentPush(skipped + Range(last + 1, next - 1), sent, next - 1);
      assert skipped + Range(last + 1, next) == skipped + Range(last + 1, next - 1) + [next - 1];
    }
  }

  lemma UnsentPush(s: seq<nat>, sent: set<nat>, p: nat)
    requires Unsent(s, sent, p) && p !in sent
    ensures Unsent(s + [p], sent, p + 1)
  {
    var t := s + [p];
    forall i: nat, j: nat | i < j < |t|
      ensures Less(t, i, j)
    {
      if j < |s| {
        assert Less(s, i, j);
      } else {
        assert t[i] in s;
      }
    }
  }

  lemma UnsentSuffix(s: seq<nat>, sent: set<nat>, last: nat, k: nat)
    requires Unsent(s, sent, last) && k <= |s|
    ensures Unsent(s[k..], sent, last)
  {
    forall i: nat, j: nat | i < j < |s[k..]|
      ensures Less(s[k..], i, j)
    {
      assert Less(s, k + i, k + j);
    }
  }

  /** Numbers sent and skipped, and what was acknowledged, all lie below the last number. */
  ghost predicate Numbers(sent: set<nat>, skipped: seq<nat>, largestAcked: nat, last: nat) {
    && (forall n :: n in sent ==> 0 < n <= last)
    && Unsent(skipped, sent, last) && |skipped| <= MAX_TRACKED_SKIPPED_PACKETS && largestAcked <= last
  }

  lemma NextNumber(sent: set<nat>, skipped: seq<nat>, largestAcked: nat, last: nat, next: nat)
    requires Numbers(sent, skipped, largestAcked, last) && last < next
    ensures Numbers(sent + {next}, SkipTo(skipped, last + 1, next), largestAcked, next)
  {
    var s := skipped + Range(last + 1, next);
    UnsentRange(skipped, sent, last, next);
    UnsentSuffix(s, sent, next, |s| - |Latest(s)|);
    assert Latest(s) == s[|s| - |Latest(s)|..];
  }

  class SentPacketHandler {
    var lastSentPacketNumber: nat
    var skippedPackets: seq<nat>
    var largestAcked: nat
    var largestReceivedPacketWithAck: nat
    var packetHistory: seq<Packet>
    var retransmissionQueue: seq<Packet>
    var bytesInFlight: nat
    var rtoCount: nat
    var tlpCount: nat
    var lossTime: Option<int>
    const stopWaitingManager: StopWaitingManager

    ghost var books: Books

    ghost predicate Valid()
      reads this, stopWaitingManager
    {
      && books.history == packetHistory && books.queue == retransmissionQueue && books.bytes == bytesInFlight
      && Numbers(books.sent, skippedPackets, largestAcked, lastSentPacketNumber)
      && stopWaitingManager.Valid() && stopWaitingManager.nextLeastUnacked <= lastSentPacketNumber + 1
    }

    constructor ()
      ensures Valid() && fresh(stopWaitingManager)
      ensures books == EMPTY && lastSentPacketNumber == 0 && skippedPackets == [] && largestAcked == 0
      ensures largestReceivedPacketWithAck == 0 && rtoCount == 0 && tlpCount == 0 && lossTime == None
    {
      lastSentPacketNumber, skippedPackets, largestAcked, largestReceivedPacketWithAck := 0, [], 0, 0;
      packetHistory, retransmissionQueue, bytesInFlight := [], [], 0;
      rtoCount, tlpCount, lossTime := 0, 0, None;
      stopWaitingManager := new StopWaitingManager();
      books := EMPTY;
    }

    // ------------------------------------------------------------- sending

    /** Records the numbers left out, then tracks the packet if it carries anything to retransmit. */
    method SentPacket(packet: Packet, now: int) returns (err: SendError)
      requires Valid()
      modifies `lastSentPacketNumber, `skippedPackets, `packetHistory, `bytesInFlight, `books
      ensures Valid()
      ensures err.NotIncreasing? <==> packet.number <= old(lastSentPacketNumber)
      ensures err.Sent? <==> packet.number > old(lastSentPacketNumber)
                             && |old(books.history)| + |old(books.queue)| < MAX_TRACKED_SENT_PACKETS
      ensures !err.Sent? ==> lastSentPacketNumber == old(lastSentPacketNumber) && books == old(books)
                             && skippedPackets == old(skippedPackets)
      ensures err.Sent? ==> lastSentPacketNumber == packet.number
      ensures err.Sent? ==> skippedPackets == SkipTo(old(skippedPackets), old(lastSentPacketNumber) + 1, packet.number)
      ensures err.Sent? ==> books == Record(old(books), packet.(frames := Strip(packet.frames), sendTime := now))
      // only a packet that asks for an acknowledgement is tracked
      ensures err.Sent? ==>
                packetHistory == (if Asks(packet.frames)
                                  then old(packetHistory) + [packet.(frames := Strip(packet.frames), sendTime := now)]
                                  else old(packetHistory))
                && bytesInFlight == old(bytesInFlight) + if Asks(packet.frames) then packet.length else 0
    {
      if packet.number <= lastSentPacketNumber {
        return NotIncreasing;
      }
      if |retransmissionQueue| + |packetHistory| + 1 > MAX_TRACKED_SENT_PACKETS {
        return TooManyTracked;
      }
      AsksIsTracked(packet.frames);
      RecordNumber(packet.number);
      var frames := StripNonRetransmittableFrames(packet.frames);
      Track(packet.(frames := frames, sendTime := now));
      return Sent;
    }

    /** The next packet with the stop-waiting frame it carries. */
    method SendWithStopWaiting(packet: Packet, force: bool, now: int) returns (err: SendError, frame: Option<nat>)
      requires Valid()
      modifies this, stopWaitingManager
      ensures Valid() && (err.Sent? <==> packet.number > old(lastSentPacketNumber)
                                         && |old(books.history)| + |old(books.queue)| < MAX_TRACKED_SENT_PACKETS)
      ensures books == if err.Sent? then Record(old(books), packet.(frames := Strip(packet.frames), sendTime := now))
                       else old(books)
      ensures err.Sent? && frame.Some? ==> 0 < frame.value <= packet.number
      ensures stopWaitingManager.nextLeastUnacked > old(stopWaitingManager.largestLeastUnackedSent) ==>
                frame == Some(stopWaitingManager.nextLeastUnacked)
    {
      frame := GetStopWaitingFrame(force);
      err := SentPacket(packet, now);
    }

    /** Moves on to the next number. The books do not have it yet. */
    method RecordNumber(next: nat)
      requires Valid() && next > lastSentPacketNumber
      modifies `lastSentPacketNumber, `skippedPackets
      ensures lastSentPacketNumber == next
      ensures skippedPackets == SkipTo(old(skippedPackets), old(lastSentPacketNumber) + 1, next)
      ensures Numbers(books.sent + {next}, skippedPackets, largestAcked, next)
    {
      NextNumber(books.sent, skippedPackets, largestAcked, lastSentPacketNumber, next);
      RecordSkipped(next);
      lastSentPacketNumber := next;
    }

    /** Tracks the packet if it carries anything to retransmit. */
    method Track(packet: Packet)
      requires books.history == packetHistory && books.queue == retransmissionQueue && books.bytes == bytesInFlight
      requires forall n :: n in books.sent ==> n < packet.number
      requires |packetHistory| + |retransmissionQueue| < MAX_TRACKED_SENT_PACKETS
      modifies `packetHistory, `bytesInFlight, `books
      ensures books.history == packetHistory && books.queue == retransmissionQueue && books.bytes == bytesInFlight
      ensures books == Record(old(books), packet)
    {
      books := Record(books, packet);
      if |packet.frames| != 0 {
        bytesInFlight := bytesInFlight + packet.length;
        packetHistory := packetHistory + [packet];
      }
    }

    /** Appends the numbers between the last packet and the next one. */
    method RecordSkipped(next: nat)
      requires |skippedPackets| <= MAX_TRACKED_SKIPPED_PACKETS && lastSentPacketNumber < next
      modifies `skippedPackets
      ensures skippedPackets == SkipTo(old(skippedPackets), lastSentPacketNumber + 1, next)
    {
      var first, p := lastSentPacketNumber + 1, lastSentPacketNumber + 1;
      SkipNone(skippedPackets, p);
      while p < next
        invariant first <= p <= next && skippedPackets == SkipTo(old(skippedPackets), first, p)
      {
        SkipOne(old(skippedPackets), first, p);
        AppendSkipped(p);
        p := p + 1;
      }
    }

    method AppendSkipped(p: nat)
      requires |skippedPackets| <= MAX_TRACKED_SKIPPED_PACKETS
      modifies `skippedPackets
      ensures skippedPackets == Latest(old(skippedPackets) + [p])
    {
      skippedPackets := skippedPackets + [p];
      if |skippedPackets| > MAX_TRACKED_SKIPPED_PACKETS {
        skippedPackets := skippedPackets[1..];
      }
    }

    // ------------------------------------------------------ acknowledgement

    /** The packet leaves the history; its bytes are counted there, so the subtraction cannot wrap. */
    method OnPacketAcked(p: Packet)
      requires p in packetHistory && Increasing(packetHistory) && bytesInFlight == Total(packetHistory)
      modifies `packetHistory, `bytesInFlight, `rtoCount, `tlpCount
      ensures packetHistory == Remove(old(packetHistory), p) && bytesInFlight == Total(packetHistory)
      ensures rtoCount == 0 && tlpCount == 0
    {
      Removed(packetHistory, p);
      bytesInFlight := bytesInFlight - p.length;
      rtoCount, tlpCount := 0, 0;
      packetHistory := Remove(packetHistory, p);
    }

    method AckAll(acked: seq<Packet>)
      requires Valid() && multiset(acked) <= multiset(packetHistory)
      modifies `packetHistory, `bytesInFlight, `rtoCount, `tlpCount, `books
      ensures Valid() && books == AckMany(old(books), acked)
      ensures Restarted(acked, old(rtoCount), old(tlpCount), rtoCount, tlpCount)
    {
      var i := 0;
      while i < |acked|
        invariant 0 <= i <= |acked| && books == old(books)
        invariant packetHistory == RemoveMany(old(packetHistory), acked[..i]) && bytesInFlight == Total(packetHistory)
        invariant Restarted(acked[..i], old(rtoCount), old(tlpCount), rtoCount, tlpCount)
      {
        RemoveNext(old(packetHistory), acked, i);
        OnPacketAcked(acked[i]);
        i := i + 1;
      }
      assert acked[..i] == acked;
      books := AckMany(books, acked);
    }

    // -------------------------------------------------------- retransmission

    method QueuePacketForRetransmission(p: Packet)
      requires p in packetHistory && Increasing(packetHistory) && bytesInFlight == Total(packetHistory)
      requires stopWaitingManager.Valid() && stopWaitingManager.nextLeastUnacked <= lastSentPacketNumber + 1
      requires p.number <= lastSentPacketNumber
      modifies `packetHistory, `bytesInFlight, `retransmissionQueue, stopWaitingManager`nextLeastUnacked
      ensures packetHistory == Remove(old(packetHistory), p) && bytesInFlight == Total(packetHistory)
      ensures retransmissionQueue == old(retransmissionQueue) + [p]
      ensures stopWaitingManager.Valid() && stopWaitingManager.nextLeastUnacked <= lastSentPacketNumber + 1
      ensures stopWaitingManager.nextLeastUnacked == Past(old(stopWaitingManager.nextLeastUnacked), p.number)
    {
      Removed(packetHistory, p);
      bytesInFlight := bytesInFlight - p.length;
      retransmissionQueue := retransmissionQueue + [p];
      packetHistory := Remove(packetHistory, p);
      stopWaitingManager.Passed(p.number);
    }

    /** Queues packets in flight, in the order given. */
    method QueueAll(lost: seq<Packet>)
      requires Valid() && multiset(lost) <= multiset(packetHistory)
      modifies `packetHistory, `bytesInFlight, `retransmissionQueue, `books, stopWaitingManager`nextLeastUnacked
      ensures Valid() && books == QueueMany(old(books), lost) && Queued(old(books), books) == lost
      ensures stopWaitingManager.nextLeastUnacked == PastAll(old(stopWaitingManager.nextLeastUnacked), lost)
    {
      QueueEach(lost);
      books := QueueMany(books, lost);
    }

    /** The loop of QueueAll. The books do not have it yet. */
    method QueueEach(lost: seq<Packet>)
      requires Valid() && multiset(lost) <= multiset(packetHistory)
      modifies `packetHistory, `bytesInFlight, `retransmissionQueue, stopWaitingManager`nextLeastUnacked
      ensures packetHistory == RemoveMany(old(packetHistory), lost) && bytesInFlight == Total(packetHistory)
      ensures retransmissionQueue == old(retransmissionQueue) + lost
      ensures stopWaitingManager.Valid() && stopWaitingManager.nextLeastUnacked <= lastSentPacketNumber + 1
      ensures stopWaitingManager.nextLeastUnacked == PastAll(old(stopWaitingManager.nextLeastUnacked), lost)
    {
      var i := 0;
      while i < |lost|
        invariant 0 <= i <= |lost|
        invariant packetHistory == RemoveMany(old(packetHistory), lost[..i]) && bytesInFlight == Total(packetHistory)
        invariant retransmissionQueue == old(retransmissionQueue) + lost[..i]
        invariant stopWaitingManager.Valid() && stopWaitingManager.nextLeastUnacked <= lastSentPacketNumber + 1
        invariant stopWaitingManager.nextLeastUnacked == PastAll(old(stopWaitingManager.nextLeastUnacked), lost[..i])
      {
        QueueNext(books, lost, i);
        PastNext(old(stopWaitingManager.nextLeastUnacked), lost, i);
        QueuePacketForRetransmission(lost[i]);
        i := i + 1;
      }
      assert lost[..i] == lost;
    }

    /** Queues every packet, up to the largest acknowledged one, that was sent too long ago. */
    method DetectLostPackets(now: int, delayUntilLost: int)
      requires Valid()
      modifies `packetHistory, `bytesInFlight, `retransmissionQueue, `lossTime, `books,
               stopWaitingManager`nextLeastUnacked
      ensures Valid() && books == AfterLoss(old(books), Late(largestAcked, now, delayUntilLost))
      ensures lossTime == FirstDeadline(old(packetHistory), Late(largestAcked, now, delayUntilLost))
      ensures Queued(old(books), books) == Select(old(packetHistory), Late(largestAcked, now, delayUntilLost), true)
      ensures stopWaitingManager.nextLeastUnacked ==
              PastAll(old(stopWaitingManager.nextLeastUnacked), Queued(old(books), books))
    {
      var lost;
      lost, lossTime := FindLate(packetHistory, largestAcked, now, delayUntilLost);
      QueueManyExact(books, Late(largestAcked, now, delayUntilLost));
      QueueAll(lost);
    }

    /** Queues every packet up to the largest acknowledged one. */
    method SetInflightAsLost()
      requires Valid()
      modifies `packetHistory, `bytesInFlight, `retransmissionQueue, `books, stopWaitingManager`nextLeastUnacked
      ensures Valid() && books == AfterLoss(old(books), UpTo(largestAcked))
      ensures stopWaitingManager.nextLeastUnacked ==
              PastAll(old(stopWaitingManager.nextLeastUnacked), Queued(old(books), books))
    {
      var lost := FindUpTo(packetHistory, largestAcked);
      QueueManyExact(books, UpTo(largestAcked));
      QueueAll(lost);
    }

    /** The number below the oldest packet in flight. */
    function LargestInOrderAcked(): int
      reads this
    {
      if |packetHistory| > 0 then packetHistory[0].number - 1 else largestAcked
    }

    method SkippedPacketsAcked(ack: AckFrame) returns (b: bool)
      ensures b <==> AcksAny(ack, skippedPackets)
    {
      var i := 0;
      while i < |skippedPackets|
        invariant 0 <= i <= |skippedPackets| && forall j :: 0 <= j < i ==> !ack.AcksPacket(skippedPackets[j])
      {
        if ack.AcksPacket(skippedPackets[i]) {
          return true;
        }
        i := i + 1;
      }
      return false;
    }

    /** Forgets skipped numbers that no acknowledgement can name any more, and only those. */
    method GarbageCollectSkippedPackets()
      requires Valid()
      modifies `skippedPackets
      ensures Valid() && Forgotten(old(skippedPackets), skippedPackets, LargestInOrderAcked())
    {
      var lioa := LargestInOrderAcked();
      var deleteIndex := 0;
      var i := 0;
      while i < |skippedPackets|
        invariant 0 <= deleteIndex <= i <= |skippedPackets|
        invariant deleteIndex > 0 ==> skippedPackets[deleteIndex - 1] <= lioa
        invariant forall j :: deleteIndex <= j < i ==> skippedPackets[j] > lioa
      {
        if skippedPackets[i] <= lioa {
          deleteIndex := i + 1;
        }
        i := i + 1;
      }
      Collected(skippedPackets, books.sent, lastSentPacketNumber, deleteIndex, lioa);
      skippedPackets := skippedPackets[deleteIndex..];
    }

    /** Handles an acknowledgement. A frame that a receiver made from packets it got is never an error; and then exactly
        the packets in flight that it covers are acknowledged, before the late ones up to it are queued again. The
        least unacknowledged number moves past the frame and no further. */
    method ReceivedAck(ack: AckFrame, withPacketNumber: nat, now: int, delayUntilLost: int)
      returns (err: AckError, ghost acked: seq<Packet>)
      requires Valid()
      modifies `largestAcked, `largestReceivedPacketWithAck, `packetHistory, `retransmissionQueue, `bytesInFlight,
               `rtoCount, `tlpCount, `lossTime, `skippedPackets, `books, stopWaitingManager`nextLeastUnacked
      ensures Valid()
      ensures err.UnsentPacket? <==> ack.largestAcked > lastSentPacketNumber
      ensures err.OutOfOrder? <==>
                ack.largestAcked <= lastSentPacketNumber && withPacketNumber <= old(largestReceivedPacketWithAck)
      ensures WellShaped(ack) ==> !err.WrongRange?
      ensures err.WrongRange? <==>
              && !err.UnsentPacket? && !err.OutOfOrder? && !err.SkippedPacket?
              && ack.largestAcked > old(LargestInOrderAcked()) && !NoneAbove(old(packetHistory), ack)
      ensures err.SkippedPacket? <==>
              && !err.UnsentPacket? && !err.OutOfOrder? && ack.largestAcked > old(LargestInOrderAcked())
              && AcksAny(ack, old(skippedPackets))
      ensures largestReceivedPacketWithAck == if err.UnsentPacket? || err.OutOfOrder?
              then old(largestReceivedPacketWithAck) else withPacketNumber
      ensures largestAcked == if err.UnsentPacket? || err.OutOfOrder? || ack.largestAcked <= old(LargestInOrderAcked())
                              then old(largestAcked) else ack.largestAcked
      ensures !err.Accepted? || ack.largestAcked <= old(LargestInOrderAcked()) ==>
                books == old(books) && skippedPackets == old(skippedPackets) && lossTime == old(lossTime)
                && stopWaitingManager.nextLeastUnacked == old(stopWaitingManager.nextLeastUnacked) && acked == []
      ensures err.Accepted? && ack.largestAcked > old(LargestInOrderAcked()) ==>
                stopWaitingManager.nextLeastUnacked ==
                if old(stopWaitingManager.nextLeastUnacked) > ack.largestAcked
                then old(stopWaitingManager.nextLeastUnacked) else ack.largestAcked + 1
      ensures err.Accepted? && ack.largestAcked > old(LargestInOrderAcked()) ==>
                Forgotten(old(skippedPackets), skippedPackets, LargestInOrderAcked())
      ensures err.Accepted? && ack.largestAcked > old(LargestInOrderAcked()) ==>
                Applied(old(books), acked, ack, Late(ack.largestAcked, now, delayUntilLost), books, lossTime)
      ensures Restarted(acked, old(rtoCount), old(tlpCount), rtoCount, tlpCount)
      ensures err.Accepted? && WellShaped(ack) && ack.largestAcked > old(LargestInOrderAcked()) ==>
                books == AfterLoss(AfterAck(old(books), ack), Late(ack.largestAcked, now, delayUntilLost))
                && lossTime == FirstDeadline(AfterAck(old(books), ack).history,
                                             Late(ack.largestAcked, now, delayUntilLost))
    {
      var checked := CheckAck(ack, withPacketNumber);
      if checked.Some? {
        return checked.value, [];
      }
      var ok;
      ok, acked := ApplyAck(ack, now, delayUntilLost);
      err := if ok then Accepted else WrongRange;
    }

    /** The part of ReceivedAck that only looks at numbers; a result ends the handling. */
    method CheckAck(ack: AckFrame, withPacketNumber: nat) returns (done: Option<AckError>)
      requires Valid()
      modifies `largestAcked, `largestReceivedPacketWithAck
      ensures Valid()
      ensures done == Some(UnsentPacket) <==> ack.largestAcked > lastSentPacketNumber
      ensures done == Some(OutOfOrder) <==>
                ack.largestAcked <= lastSentPacketNumber && withPacketNumber <= old(largestReceivedPacketWithAck)
      ensures done == Some(Accepted) <==>
                ack.largestAcked <= lastSentPacketNumber && withPacketNumber > old(largestReceivedPacketWithAck)
                && ack.largestAcked <= old(LargestInOrderAcked())
      ensures done == Some(SkippedPacket) <==>
              && done != Some(UnsentPacket) && done != Some(OutOfOrder) && done != Some(Accepted)
              && AcksAny(ack, skippedPackets)
      ensures done != Some(WrongRange)
      ensures largestReceivedPacketWithAck == if done == Some(UnsentPacket) || done == Some(OutOfOrder)
              then old(largestReceivedPacketWithAck) else withPacketNumber
      ensures largestAcked == if done == None || done == Some(SkippedPacket) then ack.largestAcked
                              else old(largestAcked)
    {
      if ack.largestAcked > lastSentPacketNumber {
        return Some(UnsentPacket);
      }
      if withPacketNumber <= largestReceivedPacketWithAck {
        return Some(OutOfOrder);
      }
      largestReceivedPacketWithAck := withPacketNumber;
      if ack.largestAcked <= LargestInOrderAcked() {
        return Some(Accepted);
      }
      largestAcked := ack.largestAcked;
      var skipped := SkippedPacketsAcked(ack);
      done := if skipped then Some(SkippedPacket) else None;
    }

    method ApplyAck(ack: AckFrame, now: int, delayUntilLost: int) returns (ok: bool, ghost acked: seq<Packet>)
      requires Valid() && largestAcked == ack.largestAcked
      modifies `packetHistory, `retransmissionQueue, `bytesInFlight, `rtoCount, `tlpCount, `lossTime, `skippedPackets,
               `books, stopWaitingManager`nextLeastUnacked
      ensures Valid()
      ensures !ok ==> books == old(books) && skippedPackets == old(skippedPackets) && lossTime == old(lossTime)
                      && stopWaitingManager.nextLeastUnacked == old(stopWaitingManager.nextLeastUnacked) && acked == []
      ensures ok ==> stopWaitingManager.nextLeastUnacked ==
                     Past(old(stopWaitingManager.nextLeastUnacked), ack.largestAcked)
                     && Forgotten(old(skippedPackets), skippedPackets, LargestInOrderAcked())
      ensures ok ==> Applied(old(books), acked, ack, Late(ack.largestAcked, now, delayUntilLost), books, lossTime)
      ensures Restarted(acked, old(rtoCount), old(tlpCount), rtoCount, tlpCount)
      ensures (ok <==> NoneAbove(old(packetHistory), ack)) && (WellShaped(ack) ==> ok)
      ensures WellShaped(ack) ==>
                books == AfterLoss(AfterAck(old(books), ack), Late(ack.largestAcked, now, delayUntilLost))
                && lossTime == FirstDeadline(AfterAck(old(books), ack).history,
                                             Late(ack.largestAcked, now, delayUntilLost))
    {
      ghost var before := books;
      ok, acked := AckCovered(ack);
      if ok {
        AfterAcked(now, delayUntilLost);
        if WellShaped(ack) {
          AppliedExact(before, acked, ack, Late(largestAcked, now, delayUntilLost), books, lossTime);
        }
      }
    }

    /** What follows once the covered packets are acknowledged. */
    method AfterAcked(now: int, delayUntilLost: int)
      requires Valid()
      modifies `packetHistory, `retransmissionQueue, `bytesInFlight, `lossTime, `skippedPackets, `books,
               stopWaitingManager`nextLeastUnacked
      ensures Valid() && books == AfterLoss(old(books), Late(largestAcked, now, delayUntilLost))
      ensures lossTime == FirstDeadline(old(packetHistory), Late(largestAcked, now, delayUntilLost))
      ensures stopWaitingManager.nextLeastUnacked == Past(old(stopWaitingManager.nextLeastUnacked), largestAcked)
      ensures Forgotten(old(skippedPackets), skippedPackets, LargestInOrderAcked())
    {
      DetectLostPackets(now, delayUntilLost);
      PastLate(old(stopWaitingManager.nextLeastUnacked), old(packetHistory), Late(largestAcked, now, delayUntilLost));
      GarbageCollectSkippedPackets();
      stopWaitingManager.Passed(largestAcked);
    }

    /** Finds the packets that the frame covers and acknowledges them. */
    method AckCovered(ack: AckFrame) returns (ok: bool, ghost acked: seq<Packet>)
      requires Valid()
      modifies `packetHistory, `bytesInFlight, `rtoCount, `tlpCount, `books
      ensures Valid() && (!ok ==> books == old(books) && acked == [])
      ensures ok ==> Noting(acked, old(packetHistory), ack) && books == AckMany(old(books), acked)
      ensures Restarted(acked, old(rtoCount), old(tlpCount), rtoCount, tlpCount)
      ensures (ok <==> NoneAbove(old(packetHistory), ack)) && (WellShaped(ack) ==> ok)
    {
      var found;
      ok, found := DetermineNewlyAckedPackets(packetHistory, ack);
      acked := [];
      if ok {
        AckAll(found);
        acked := found;
      }
    }

    /** Handles the frame that closes a path: what it covers is acknowledged, all the rest up to the largest
        acknowledged number is queued again. */
    method ReceivedClosePath(f: AckFrame, withPacketNumber: nat) returns (err: AckError, ghost acked: seq<Packet>)
      requires Valid()
      modifies `largestReceivedPacketWithAck, `packetHistory, `retransmissionQueue, `bytesInFlight, `rtoCount,
               `tlpCount, `skippedPackets, `books, stopWaitingManager`nextLeastUnacked
      ensures Valid()
      ensures err.UnsentPacket? <==> f.largestAcked > lastSentPacketNumber
      ensures err.OutOfOrder? <==>
                f.largestAcked <= lastSentPacketNumber && withPacketNumber <= old(largestReceivedPacketWithAck)
      ensures largestReceivedPacketWithAck == if err.UnsentPacket? || err.OutOfOrder?
              then old(largestReceivedPacketWithAck) else withPacketNumber
      ensures WellShaped(f) ==> !err.WrongRange?
      ensures err.WrongRange? <==>
              && !err.UnsentPacket? && !err.OutOfOrder? && !err.SkippedPacket? && !NoneAbove(old(packetHistory), f)
      ensures err.SkippedPacket? <==>
              && !err.UnsentPacket? && !err.OutOfOrder?
              && AcksAny(f, old(skippedPackets))
      ensures if err.Accepted? then Forgotten(old(skippedPackets), skippedPackets, LargestInOrderAcked())
              else books == old(books) && skippedPackets == old(skippedPackets) && acked == []
      ensures err.Accepted? ==> Noting(acked, old(packetHistory), f)
                                && books == AfterLoss(AckMany(old(books), acked), UpTo(largestAcked))
      ensures err.Accepted? && WellShaped(f) ==> books == AfterLoss(AfterAck(old(books), f), UpTo(largestAcked))
      ensures Restarted(acked, old(rtoCount), old(tlpCount), rtoCount, tlpCount)
      ensures stopWaitingManager.nextLeastUnacked ==
              PastAll(old(stopWaitingManager.nextLeastUnacked), Queued(old(books), books))
    {
      acked := [];
      if f.largestAcked > lastSentPacketNumber {
        return UnsentPacket, acked;
      }
      if withPacketNumber <= largestReceivedPacketWithAck {
        return OutOfOrder, acked;
      }
      largestReceivedPacketWithAck := withPacketNumber;
      var skipped := SkippedPacketsAcked(f);
      if skipped {
        return SkippedPacket, acked;
      }
      var ok;
      AckManyExact(books, f);
      ok, acked := ApplyClosePath(f);
      err := if ok then Accepted else WrongRange;
    }

    method ApplyClosePath(f: AckFrame) returns (ok: bool, ghost acked: seq<Packet>)
      requires Valid()
      modifies `packetHistory, `retransmissionQueue, `bytesInFlight, `rtoCount, `tlpCount, `skippedPackets, `books,
               stopWaitingManager`nextLeastUnacked
      ensures Valid()
      ensures if ok then Forgotten(old(skippedPackets), skippedPackets, LargestInOrderAcked())
              else books == old(books) && skippedPackets == old(skippedPackets) && acked == []
      ensures ok ==> Noting(acked, old(packetHistory), f)
                     && books == AfterLoss(AckMany(old(books), acked), UpTo(largestAcked))
      ensures Restarted(acked, old(rtoCount), old(tlpCount), rtoCount, tlpCount)
      ensures (ok <==> NoneAbove(old(packetHistory), f)) && (WellShaped(f) ==> ok)
      ensures stopWaitingManager.nextLeastUnacked ==
              PastAll(old(stopWaitingManager.nextLeastUnacked), Queued(old(books), books))
    {
      ok, acked := AckCovered(f);
      if ok {
        SetInflightAsLost();
        GarbageCollectSkippedPackets();
      }
    }

    // --------------------------------------------------------------- timeouts

    method HasOutstandingRetransmittablePacket() returns (b: bool)
      ensures b <==> Outstanding(packetHistory)
    {
      var i := 0;
      while i < |packetHistory|
        invariant 0 <= i <= |packetHistory| && forall j :: 0 <= j < i ==> !packetHistory[j].IsRetransmittable()
      {
        if packetHistory[i].IsRetransmittable() {
          return true;
        }
        i := i + 1;
      }
      return false;
    }

    method RetransmitTLP()
      requires Valid()
      modifies `packetHistory, `bytesInFlight, `retransmissionQueue, `books, stopWaitingManager`nextLeastUnacked
      ensures Valid() && books == if old(packetHistory) == [] then old(books) else MoveNewest(old(books))
      ensures stopWaitingManager.nextLeastUnacked ==
              PastAll(old(stopWaitingManager.nextLeastUnacked), Queued(old(books), books))
    {
      if |packetHistory| > 0 {
        MoveNewestOne(books);
        QueueAll([packetHistory[|packetHistory| - 1]]);
      }
    }

    method RetransmitOldestPacket()
      requires Valid()
      modifies `packetHistory, `bytesInFlight, `retransmissionQueue, `books, stopWaitingManager`nextLeastUnacked
      ensures Valid() && books == if old(packetHistory) == [] then old(books) else MoveOldest(old(books), 1)
      ensures stopWaitingManager.nextLeastUnacked ==
              PastAll(old(stopWaitingManager.nextLeastUnacked), Queued(old(books), books))
    {
      if |packetHistory| > 0 {
        MoveOldestOne(books);
        QueueAll([packetHistory[0]]);
      }
    }

    method RetransmitOldestTwoPackets()
      requires Valid()
      modifies `packetHistory, `bytesInFlight, `retransmissionQueue, `books, stopWaitingManager`nextLeastUnacked
      ensures Valid() && books == MoveOldest(old(books), if |old(packetHistory)| < 2 then |old(packetHistory)| else 2)
      ensures stopWaitingManager.nextLeastUnacked ==
              PastAll(old(stopWaitingManager.nextLeastUnacked), Queued(old(books), books))
    {
      MoveOldestNone(books);
      RetransmitOldestPacket();
      ghost var first := books;
      if |old(packetHistory)| > 1 {
        MoveOldestNext(old(books), 1);
      }
      RetransmitOldestPacket();
      QueuedTwice(old(stopWaitingManager.nextLeastUnacked), old(books), first, books);
    }

    method RetransmitAllPackets()
      requires Valid()
      modifies `packetHistory, `bytesInFlight, `retransmissionQueue, `books, stopWaitingManager`nextLeastUnacked
      ensures Valid() && books == MoveOldest(old(books), |old(packetHistory)|)
      ensures stopWaitingManager.nextLeastUnacked ==
              PastAll(old(stopWaitingManager.nextLeastUnacked), Queued(old(books), books))
    {
      ghost var k := 0;
      MoveOldestNone(books);
      while |packetHistory| > 0
        invariant Valid() && 0 <= k <= |old(packetHistory)| && books == MoveOldest(old(books), k)
        invariant stopWaitingManager.nextLeastUnacked ==
                  PastAll(old(stopWaitingManager.nextLeastUnacked), Queued(old(books), books))
        decreases |packetHistory|
      {
        ghost var before := books;
        MoveOldestNext(old(books), k);
        RetransmitOldestPacket();
        QueuedTwice(old(stopWaitingManager.nextLeastUnacked), old(books), before, books);
        k := k + 1;
      }
    }

    /** Loss detection, a tail loss probe or a retransmission timeout, whichever is due. Packets are queued only while
        there is one to retransmit: the late ones when a loss time is set; otherwise the newest one, for the first two
        probes; after that the oldest two, or all of them on a path that may have failed. */
    method OnAlarm(now: int, delayUntilLost: int, potentiallyFailed: bool)
      requires Valid()
      modifies `packetHistory, `bytesInFlight, `retransmissionQueue, `lossTime, `tlpCount, `rtoCount, `books,
               stopWaitingManager`nextLeastUnacked
      ensures Valid()
      ensures books == AfterAlarm(old(books), largestAcked, old(lossTime), old(tlpCount), now, delayUntilLost,
                                  potentiallyFailed)
      ensures tlpCount == if Due(old(packetHistory), old(lossTime), old(tlpCount)).Probe? then old(tlpCount) + 1
              else old(tlpCount)
      ensures rtoCount == if Due(old(packetHistory), old(lossTime), old(tlpCount)).Timeout? then old(rtoCount) + 1
              else old(rtoCount)
      ensures !Outstanding(old(packetHistory)) ==> retransmissionQueue == old(retransmissionQueue)
      ensures Outstanding(old(packetHistory)) ==>
                Queued(old(books), books) ==
                if old(lossTime).Some? then Select(old(packetHistory), Late(largestAcked, now, delayUntilLost), true)
                else if old(tlpCount) < 2 then [old(packetHistory)[|old(packetHistory)| - 1]]
                else if potentiallyFailed || |old(packetHistory)| < 2 then old(packetHistory)
                else old(packetHistory)[..2]
      ensures lossTime == if Outstanding(old(packetHistory)) && old(lossTime).Some?
              then FirstDeadline(old(packetHistory), Late(largestAcked, now, delayUntilLost)) else old(lossTime)
      ensures stopWaitingManager.nextLeastUnacked ==
              PastAll(old(stopWaitingManager.nextLeastUnacked), Queued(old(books), books))
    {
      var due := AlarmDue();
      if !due.Idle? {
        AlarmQueues(books, Late(largestAcked, now, delayUntilLost), lossTime, tlpCount, potentiallyFailed);
      }
      RetransmitFor(due, now, delayUntilLost, potentiallyFailed);
      if due.Probe? {
        tlpCount := tlpCount + 1;
      } else if due.Timeout? {
        rtoCount := rtoCount + 1;
      }
    }

    method RetransmitFor(due: Alarm, now: int, delayUntilLost: int, potentiallyFailed: bool)
      requires Valid() && (!due.Idle? ==> packetHistory != [])
      modifies `packetHistory, `bytesInFlight, `retransmissionQueue, `lossTime, `books,
               stopWaitingManager`nextLeastUnacked
      ensures Valid() && books == AfterDue(old(books), due, Late(largestAcked, now, delayUntilLost), potentiallyFailed)
      ensures lossTime == if due.Loss? then FirstDeadline(old(packetHistory), Late(largestAcked, now, delayUntilLost))
                          else old(lossTime)
      ensures stopWaitingManager.nextLeastUnacked ==
              PastAll(old(stopWaitingManager.nextLeastUnacked), Queued(old(books), books))
    {
      match due
      case Idle =>
      case Loss => DetectLostPackets(now, delayUntilLost);
      case Probe => RetransmitTLP();
      case Timeout => RetransmissionTimeout(potentiallyFailed);
    }

    method AlarmDue() returns (due: Alarm)
      ensures due == Due(packetHistory, lossTime, tlpCount) && (!due.Idle? ==> packetHistory != [])
    {
      var outstanding := HasOutstandingRetransmittablePacket();
      due := if !outstanding then Idle else if lossTime.Some? then Loss
             else if tlpCount < MAX_TAIL_LOSS_PROBES then Probe else Timeout;
    }

    method RetransmissionTimeout(potentiallyFailed: bool)
      requires Valid()
      modifies `packetHistory, `bytesInFlight, `retransmissionQueue, `books, stopWaitingManager`nextLeastUnacked
      ensures Valid() && books == AfterTimeout(old(books), potentiallyFailed)
      ensures stopWaitingManager.nextLeastUnacked ==
              PastAll(old(stopWaitingManager.nextLeastUnacked), Queued(old(books), books))
    {
      if potentiallyFailed {
        RetransmitAllPackets();
      } else {
        RetransmitOldestTwoPackets();
      }
    }

    /** Takes the packet that has waited longest. */
    method DequeuePacketForRetransmission() returns (packet: Option<Packet>)
      requires Valid()
      modifies `retransmissionQueue, `books
      ensures Valid() && (packet.None? <==> old(retransmissionQueue) == [])
      ensures packet.None? ==> books == old(books)
      ensures packet.Some? ==> packet.value == old(retransmissionQueue)[0] && books == DequeueOne(old(books))
    {
      if |retransmissionQueue| == 0 {
        return None;
      }
      packet := Some(retransmissionQueue[0]);
      retransmissionQueue := retransmissionQueue[1..];
      books := DequeueOne(books);
    }

    /** Queues a packet that is not taken from the history. */
    method DuplicatePacket(packet: Packet)
      requires Valid()
      modifies `retransmissionQueue, `books
      ensures Valid() && books == Duplicate(old(books), packet)
    {
      retransmissionQueue := retransmissionQueue + [packet];
      books := Duplicate(books, packet);
    }

    /** Everything below this number that was tracked has left the history. */
    method GetLeastUnacked() returns (n: nat)
      requires Valid()
      ensures n == (if packetHistory != [] then packetHistory[0].number else largestAcked + 1) && forall p ::
              p in packetHistory ==> n <= p.number
    {
      assert |packetHistory| > 0 ==> packetHistory[0] in packetHistory;
      n := LargestInOrderAcked() + 1;
      forall p | p in packetHistory
        ensures n <= p.number
      {
        var i :| 0 <= i < |packetHistory| && packetHistory[i] == p;
        assert i > 0 ==> Before(packetHistory, 0, i);
      }
    }

    /** A stop-waiting frame names a number that is at most one above every number sent so far. The packet that
        carries it is still to be sent, so the frame always releases numbers below its own. */
    method GetStopWaitingFrame(force: bool) returns (frame: Option<nat>)
      requires Valid()
      modifies stopWaitingManager`largestLeastUnackedSent, stopWaitingManager`lastStopWaitingFrame
      ensures Valid() && (frame.Some? ==> 0 < frame.value <= lastSentPacketNumber + 1)
      ensures stopWaitingManager.nextLeastUnacked > old(stopWaitingManager.largestLeastUnackedSent) ==>
                frame == Some(stopWaitingManager.nextLeastUnacked)
                && stopWaitingManager.largestLeastUnackedSent == stopWaitingManager.nextLeastUnacked
      ensures stopWaitingManager.nextLeastUnacked <= old(stopWaitingManager.largestLeastUnackedSent) ==>
                frame == if force then stopWaitingManager.lastStopWaitingFrame else None
    {
      frame := stopWaitingManager.GetStopWaitingFrame(force);
    }
  }

  /** What an accepted frame does to the books: some packets are acknowledged, then the late ones are queued. */
  ghost predicate Applied(before: Books, acked: seq<Packet>, ack: AckFrame, late: Rule, after: Ledger,
                          lossTime: Option<int>)
    requires late.Late?
  {
    match ack
    case AckFrame(_, _, _) =>
      && Noting(acked, before.history, ack) && after == AfterLoss(AckMany(before, acked), late)
      && lossTime == FirstDeadline(AckMany(before, acked).history, late)
  }

  /** For a frame of the shape a receiver makes, all that it covers. */
  lemma AppliedExact(before: Books, acked: seq<Packet>, ack: AckFrame, late: Rule, after: Ledger, lossTime: Option<int>)
    requires late.Late? && Applied(before, acked, ack, late, after, lossTime) && WellShaped(ack)
    ensures after == AfterLoss(AfterAck(before, ack), late)
    ensures lossTime == FirstDeadline(AfterAck(before, ack).history, late)
  {
    AckManyExact(before, ack);
  }

  lemma PastLate(next: nat, ps: seq<Packet>, r: Rule)
    requires r.Late?
    ensures Past(PastAll(next, Select(ps, r, true)), r.limit) == Past(next, r.limit)
  {
    forall p | p in Select(ps, r, true)
      ensures p.number <= r.limit
    {
      SelectIn(ps, r, true, p);
    }
    PastBelow(next, Select(ps, r, true), r.limit);
  }

  ghost predicate Outstanding(ps: seq<Packet>) {
    exists i :: 0 <= i < |ps| && ps[i].IsRetransmittable()
  }

  datatype Alarm = Idle | Loss | Probe | Timeout

  /** What an alarm is for. */
  ghost function Due(history: seq<Packet>, lossTime: Option<int>, tlpCount: nat): Alarm {
    if !Outstanding(history) then Idle
    else if lossTime.Some? then Loss
    else if tlpCount < MAX_TAIL_LOSS_PROBES then Probe
    else Timeout
  }

  /** The books after the alarm went off. */
  ghost function AfterAlarm(l: Ledger, largestAcked: nat, lossTime: Option<int>, tlpCount: nat, now: int, delay: int,
                            potentiallyFailed: bool): Ledger {
    AfterDue(l, Due(l.history, lossTime, tlpCount), Late(largestAcked, now, delay), potentiallyFailed)
  }

  ghost function AfterDue(l: Ledger, due: Alarm, late: Rule, potentiallyFailed: bool): Ledger
    requires !due.Idle? ==> l.history != []
  {
    match due
    case Idle => l
    case Loss => AfterLoss(l, late)
    case Probe => MoveNewest(l)
    case Timeout => AfterTimeout(l, potentiallyFailed)
  }

  ghost function AfterTimeout(l: Ledger, potentiallyFailed: bool): Ledger {
    MoveOldest(l, if potentiallyFailed || |l.history| < 2 then |l.history| else 2)
  }

  /** Which packets an alarm puts in the queue. */
  lemma AlarmQueues(l: Ledger, late: Rule, lossTime: Option<int>, tlpCount: nat, potentiallyFailed: bool)
    requires Outstanding(l.history)
    ensures Queued(l, AfterDue(l, Due(l.history, lossTime, tlpCount), late, potentiallyFailed)) ==
            if lossTime.Some? then Select(l.history, late, true)
            else if tlpCount < 2 then [l.history[|l.history| - 1]]
            else if potentiallyFailed || |l.history| < 2 then l.history
            else l.history[..2]
  {
    assert l.history[..|l.history|] == l.history;
  }

  lemma MoveOldestNone(l: Books)
    ensures MoveOldest(l, 0) == l
  {
    assert l.history[0..] == l.history && l.queue + l.history[..0] == l.queue;
  }

  /** What is left of the skipped numbers: those above the limit. */
  ghost predicate Forgotten(before: seq<nat>, after: seq<nat>, limit: int) {
    forall n :: n in after <==> n in before && n > limit
  }

  lemma Collected(skipped: seq<nat>, sent: set<nat>, last: nat, k: nat, limit: int)
    requires Unsent(skipped, sent, last) && k <= |skipped| && (k > 0 ==> skipped[k - 1] <= limit)
    requires forall j :: k <= j < |skipped| ==> skipped[j] > limit
    ensures Unsent(skipped[k..], sent, last)
    ensures forall n :: n in skipped[k..] <==> n in skipped && n > limit
  {
    UnsentSuffix(skipped, sent, last, k);
    forall n | n in skipped && n > limit
      ensures n in skipped[k..]
    {
      var i :| 0 <= i < |skipped| && skipped[i] == n;
      assert i < k - 1 ==> Less(skipped, i, k - 1);
      assert skipped[k..][i - k] == n;
    }
  }

  /** The scan for late packets. */
  method FindLate(history: seq<Packet>, limit: nat, now: int, delayUntilLost: int)
      returns (lost: seq<Packet>, lossTime: Option<int>)
    requires Increasing(history)
    ensures lost == Select(history, Late(limit, now, delayUntilLost), true)
    ensures lossTime == FirstDeadline(history, Late(limit, now, delayUntilLost))
  {
    lost, lossTime := [], None;
    ghost var r := Late(limit, now, delayUntilLost);
    var i := 0;
    while i < |history| && history[i].number <= limit
      invariant 0 <= i <= |history| && lost == Select(history[..i], r, true)
      invariant lossTime == FirstDeadline(history[..i], r)
    {
      SelectNext(history, r, true, i);
      assert history[..i + 1][..i] == history[..i];
      var timeSinceSent := now - history[i].sendTime;
      if timeSinceSent > delayUntilLost {
        lost := lost + [history[i]];
      } else if lossTime.None? {
        lossTime := Some(now + (delayUntilLost - timeSinceSent));
      }
      i := i + 1;
    }
    PastLimit(history, r, i);
  }

  method FindUpTo(history: seq<Packet>, limit: nat) returns (lost: seq<Packet>)
    requires Increasing(history)
    ensures lost == Select(history, UpTo(limit), true)
  {
    lost := [];
    var i := 0;
    while i < |history| && history[i].number <= limit
      invariant 0 <= i <= |history| && lost == Select(history[..i], UpTo(limit), true)
    {
      SelectNext(history, UpTo(limit), true, i);
      lost := lost + [history[i]];
      i := i + 1;
    }
    PastLimit(history, UpTo(limit), i);
  }

  /** When the first packet that is up for loss detection, but not late yet, will be late. */
  ghost function FirstDeadline(ps: seq<Packet>, r: Rule): Option<int>
    requires r.Late?
  {
    if ps == [] then None
    else
      var front, p := ps[..|ps| - 1], ps[|ps| - 1];
      if FirstDeadline(front, r).None? && p.number <= r.limit && !Meets(r, p) then Some(p.sendTime + r.delay)
      else FirstDeadline(front, r)
  }

  /** It belongs to the first packet up to the limit that is not late; there is none if all of them are. */
  lemma {:induction false} FirstDeadlineMeaning(ps: seq<Packet>, limit: nat, now: int, delay: int) returns (i: nat)
    ensures i <= |ps| && forall j :: 0 <= j < i ==> ps[j].number > limit || now - ps[j].sendTime > delay
    ensures i < |ps| ==> ps[i].number <= limit && now - ps[i].sendTime <= delay
    ensures FirstDeadline(ps, Late(limit, now, delay)) == if i < |ps| then Some(ps[i].sendTime + delay) else None
  {
    if ps == [] {
      i := 0;
    } else {
      var front, last := ps[..|ps| - 1], |ps| - 1;
      i := FirstDeadlineMeaning(front, limit, now, delay);
      if i == |front| && (ps[last].number > limit || now - ps[last].sendTime > delay) {
        i := |ps|;
      }
    }
  }

  /** Numbers rise, so a scan may stop at the first one above the limit. */
  lemma {:induction false} PastLimit(ps: seq<Packet>, r: Rule, i: nat)
    requires Increasing(ps) && !r.Covered? && i <= |ps| && (i < |ps| ==> ps[i].number > r.limit)
    ensures Select(ps, r, true) == Select(ps[..i], r, true)
    ensures r.Late? ==> FirstDeadline(ps, r) == FirstDeadline(ps[..i], r)
    decreases |ps| - i
  {
    if i == |ps| {
      assert ps[..i] == ps;
    } else {
      SelectNext(ps, r, true, i);
      assert ps[..i + 1][..i] == ps[..i];
      assert i + 1 < |ps| ==> Before(ps, i, i + 1);
      PastLimit(ps, r, i + 1);
    }
  }
}
