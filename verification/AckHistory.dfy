/**
 The receiving half of acknowledgement: an interval list that stands for the
 set of packet numbers received, and the ACK frames made from it.
 */
module AckHistory {
  import opened Common

  const DEFAULT_MAX_CONGESTION_WINDOW: nat := 2500
  const MAX_TRACKED_RECEIVED_ACK_RANGES: nat := DEFAULT_MAX_CONGESTION_WINDOW

  /** All packet numbers from start to end, both included. */
  datatype Interval = Interval(start: nat, end: nat)

  ghost predicate InInterval(r: Interval, x: nat) {
    r.start <= x <= r.end
  }

  ghost predicate Has(ranges: seq<Interval>, x: nat) {
    exists i :: 0 <= i < |ranges| && InInterval(ranges[i], x)
  }

  /** Sorted, disjoint and never adjacent. */
  ghost predicate Sorted(ranges: seq<Interval>) {
    && (forall i :: 0 <= i < |ranges| ==> ranges[i].start <= ranges[i].end)
    && (forall i, j :: 0 <= i < j < |ranges| ==> ranges[i].end + 1 < ranges[j].start)
  }

  lemma HasConcat(a: seq<Interval>, b: seq<Interval>, x: nat)
    ensures Has(a + b, x) <==> Has(a, x) || Has(b, x)
  {
    if Has(a, x) {
      var k :| 0 <= k < |a| && InInterval(a[k], x);
      assert InInterval((a + b)[k], x);
    }
    if Has(b, x) {
      var k :| 0 <= k < |b| && InInterval(b[k], x);
      assert InInterval((a + b)[|a| + k], x);
    }
  }

  /** Everything in the list is below, or above, a number. */
  ghost predicate AllBelow(ranges: seq<Interval>, x: nat) {
    forall i :: 0 <= i < |ranges| ==> ranges[i].end + 1 < x
  }

  ghost predicate AllAbove(ranges: seq<Interval>, x: nat) {
    forall i :: 0 <= i < |ranges| ==> x + 1 < ranges[i].start
  }

  /** a, then one interval, then b. */
  lemma SortedJoin(a: seq<Interval>, r: Interval, b: seq<Interval>)
    requires Sorted(a) && Sorted(b) && r.start <= r.end && AllBelow(a, r.start) && AllAbove(b, r.end)
    ensures Sorted(a + [r] + b)
  {
    var s := a + [r] + b;
    forall i, j | 0 <= i < j < |s|
      ensures s[i].end + 1 < s[j].start
    {
      if i < |a| && j > |a| {
        assert s[i] == a[i] && s[j] == b[j - |a| - 1];
        assert a[i].end + 1 < r.start;
      }
    }
  }

  lemma HasJoin(a: seq<Interval>, r: Interval, b: seq<Interval>, x: nat)
    ensures Has(a + [r] + b, x) <==> Has(a, x) || InInterval(r, x) || Has(b, x)
  {
    HasConcat(a + [r], b, x);
    HasConcat(a, [r], x);
    assert Has([r], x) <==> InInterval(r, x) by {
      if InInterval(r, x) { assert InInterval([r][0], x); }
    }
  }

  /** Splitting an interval list around its interval i. */
  lemma SortedSplit(ranges: seq<Interval>, i: nat)
    requires Sorted(ranges) && i < |ranges|
    ensures Sorted(ranges[..i]) && AllBelow(ranges[..i], ranges[i].start)
    ensures Sorted(ranges[i + 1..]) && AllAbove(ranges[i + 1..], ranges[i].end)
    ensures ranges == ranges[..i] + [ranges[i]] + ranges[i + 1..]
  {
    var above := ranges[i + 1..];
    forall k | 0 <= k < |above|
      ensures ranges[i].end + 1 < above[k].start
    {
      assert above[k] == ranges[i + 1 + k];
    }
  }

  class ReceivedPacketHistory {
    var ranges: seq<Interval>
    var lowestInReceivedPacketNumbers: nat

    constructor ()
      ensures ranges == [] && lowestInReceivedPacketNumbers == 0
    {
      ranges, lowestInReceivedPacketNumbers := [], 0;
    }

    /** Adds a number to the set, unless too many ranges are tracked already. */
    method ReceivedPacket(p: nat) returns (ok: bool)
      requires Sorted(ranges)
      modifies `ranges
      ensures Sorted(ranges) && ok == (|old(ranges)| < MAX_TRACKED_RECEIVED_ACK_RANGES)
      ensures !ok ==> ranges == old(ranges)
      ensures ok ==> forall x: nat :: Has(ranges, x) <==> Has(old(ranges), x) || x == p
    {
      if |ranges| >= MAX_TRACKED_RECEIVED_ACK_RANGES {
        return false;
      }
      if |ranges| == 0 {
        ranges := [Interval(p, p)];
        assert InInterval(ranges[0], p);
        return true;
      }
      var i := |ranges|;
      while i > 0
        invariant 0 <= i <= |ranges| && ranges == old(ranges) && AllAbove(ranges[i..], p)
      {
        i := i - 1;
        var el := ranges[i];
        SortedSplit(ranges, i);
        if el.start <= p <= el.end {
          assert InInterval(ranges[i], p);
          return true;
        }
        if el.end == p - 1 || el.start == p + 1 {
          Extend(i, p);
          return true;
        }
        if p > el.end {
          AddRange(i + 1, p);
          return true;
        }
        assert ranges[i..] == [el] + ranges[i + 1..];
      }
      AddRange(0, p);
      return true;
    }

    /** Puts a range of one number in front of range i. */
    method AddRange(i: nat, p: nat)
      requires Sorted(ranges) && i <= |ranges| && AllBelow(ranges[..i], p) && AllAbove(ranges[i..], p)
      modifies `ranges
      ensures Sorted(ranges) && forall x: nat :: Has(ranges, x) <==> Has(old(ranges), x) || x == p
    {
      ghost var before := ranges;
      ranges := ranges[..i] + [Interval(p, p)] + ranges[i..];
      SortedJoin(before[..i], Interval(p, p), before[i..]);
      forall x: nat
        ensures Has(ranges, x) <==> Has(before, x) || x == p
      {
        HasJoin(before[..i], Interval(p, p), before[i..], x);
        HasConcat(before[..i], before[i..], x);
        assert before == before[..i] + before[i..];
      }
    }

    /** Extends range i by a number at either end, and merges it with the range below if they now touch. */
    method Extend(i: nat, p: nat)
      requires Sorted(ranges) && i < |ranges| && AllAbove(ranges[i + 1..], p)
      requires ranges[i].end == p - 1 || ranges[i].start == p + 1
      modifies `ranges
      ensures Sorted(ranges) && forall x: nat :: Has(ranges, x) <==> Has(old(ranges), x) || x == p
    {
      var el := ranges[i];
      ghost var before := ranges;
      var extended := if el.end == p - 1 then Interval(el.start, p) else Interval(p, el.end);
      ranges := ranges[i := extended];
      if i > 0 && ranges[i - 1].end + 1 == extended.start {
        ranges := ranges[..i - 1] + [Interval(ranges[i - 1].start, extended.end)] + ranges[i + 1..];
        ExtendMerges(before, i, p);
        assert ranges == before[..i - 1] + [Interval(before[i - 1].start, el.end)] + before[i + 1..];
      } else {
        ExtendAlone(before, i, p, extended);
        assert ranges == before[..i] + [extended] + before[i + 1..];
      }
    }

    /** Deletes all numbers up to and including p. */
    method DeleteUpTo(p: nat)
      requires Sorted(ranges)
      modifies this
      ensures Sorted(ranges) && |ranges| <= |old(ranges)|
      ensures forall x: nat :: Has(ranges, x) <==> Has(old(ranges), x) && x > p
      ensures lowestInReceivedPacketNumbers == if old(lowestInReceivedPacketNumbers) > p + 1
              then old(lowestInReceivedPacketNumbers) else p + 1
    {
      if lowestInReceivedPacketNumbers < p + 1 {
        lowestInReceivedPacketNumbers := p + 1;
      }
      ghost var lowest := lowestInReceivedPacketNumbers;
      var i := 0;
      while i < |ranges|
        invariant lowestInReceivedPacketNumbers == lowest
        invariant 0 <= i <= |ranges| && i <= 1 && (i == 1 ==> ranges[0].start > p)
        invariant Sorted(ranges) && |ranges| <= |old(ranges)|
        invariant forall x: nat {:trigger Has(ranges, x)} :: Has(ranges, x) ==> Has(old(ranges), x)
        invariant forall x: nat {:trigger Has(old(ranges), x)} :: Has(old(ranges), x) && x > p ==> Has(ranges, x)
        decreases |ranges| - i
      {
        var el := ranges[i];
        if el.start <= p < el.end {
          CutFirst(ranges, p);
          ranges := ranges[i := Interval(p + 1, el.end)];
          i := i + 1;
        } else if el.end <= p {
          DropFirst(ranges, p);
          ranges := ranges[..i] + ranges[i + 1..];
        } else {
          break;
        }
      }
      AllLater(ranges, p);
    }

    /** The ranges for an ACK frame, the highest first. */
    method GetAckRanges() returns (ackRanges: seq<AckRange>)
      ensures |ackRanges| == |ranges|
      ensures forall i :: 0 <= i < |ackRanges| ==> ackRanges[i] == ToAckRange(ranges[|ranges| - 1 - i])
    {
      ackRanges := [];
      var i := |ranges|;
      while i > 0
        invariant 0 <= i <= |ranges| && |ackRanges| == |ranges| - i
        invariant forall k :: 0 <= k < |ackRanges| ==> ackRanges[k] == ToAckRange(ranges[|ranges| - 1 - k])
      {
        i := i - 1;
        ackRanges := ackRanges + [ToAckRange(ranges[i])];
      }
    }

    /** The highest range, or a range of zeros. In a sorted history it is the longest run of numbers that ends with
        the largest one. */
    method GetHighestAckRange() returns (ackRange: AckRange)
      ensures ackRange == if ranges == [] then AckRange(0, 0) else ToAckRange(ranges[|ranges| - 1])
      ensures Sorted(ranges) && ranges != [] ==> TopRun(ranges, ackRange.first, ackRange.last)
    {
      ackRange := AckRange(0, 0);
      if |ranges| > 0 {
        var r := ranges[|ranges| - 1];
        ackRange := AckRange(r.start, r.end);
        if Sorted(ranges) {
          LastIsTopRun(ranges);
        }
      }
    }
  }

  /** Nothing is above the last number, all numbers from the first to the last are there, and the one before is not. */
  ghost predicate TopRun(ranges: seq<Interval>, first: nat, last: nat) {
    && first <= last && (forall x: nat {:trigger Has(ranges, x)} :: Has(ranges, x) ==> x <= last)
    && (forall x: nat {:trigger Has(ranges, x)} :: first <= x <= last ==> Has(ranges, x))
       && (first > 0 ==> !Has(ranges, first - 1))
  }

  lemma LastIsTopRun(ranges: seq<Interval>)
    requires Sorted(ranges) && ranges != []
    ensures TopRun(ranges, ranges[|ranges| - 1].start, ranges[|ranges| - 1].end)
  {
    var top := ranges[|ranges| - 1];
    forall x: nat
      ensures Has(ranges, x) ==> x <= top.end && x != top.start - 1
      ensures top.start <= x <= top.end ==> Has(ranges, x)
    {
      if i :| 0 <= i < |ranges| && InInterval(ranges[i], x) {
        assert i < |ranges| - 1 ==> ranges[i].end + 1 < top.start;
      }
      if top.start <= x <= top.end {
        assert InInterval(ranges[|ranges| - 1], x);
      }
    }
  }

  lemma ExtendAlone(ranges: seq<Interval>, i: nat, p: nat, r: Interval)
    requires Sorted(ranges) && i < |ranges| && AllAbove(ranges[i + 1..], p)
    requires if ranges[i].end == p - 1 then r == Interval(ranges[i].start, p)
             else ranges[i].start == p + 1 && r == Interval(p, ranges[i].end)
    requires i > 0 ==> ranges[i - 1].end + 1 != r.start
    ensures Sorted(ranges[..i] + [r] + ranges[i + 1..])
    ensures forall x: nat :: Has(ranges[..i] + [r] + ranges[i + 1..], x) <==> Has(ranges, x) || x == p
  {
    SortedSplit(ranges, i);
    if i > 0 {
      SortedSplit(ranges, i - 1);
    }
    SortedJoin(ranges[..i], r, ranges[i + 1..]);
    forall x: nat
      ensures Has(ranges[..i] + [r] + ranges[i + 1..], x) <==> Has(ranges, x) || x == p
    {
      HasJoin(ranges[..i], r, ranges[i + 1..], x);
      HasJoin(ranges[..i], ranges[i], ranges[i + 1..], x);
    }
  }

  /** The number fills the gap of one between range i and the range below it. */
  lemma ExtendMerges(ranges: seq<Interval>, i: nat, p: nat)
    requires Sorted(ranges) && 0 < i < |ranges| && ranges[i].start == p + 1 && ranges[i - 1].end + 1 == p
    ensures var r := Interval(ranges[i - 1].start, ranges[i].end);
            && Sorted(ranges[..i - 1] + [r] + ranges[i + 1..])
            && forall x: nat :: Has(ranges[..i - 1] + [r] + ranges[i + 1..], x) <==> Has(ranges, x) || x == p
  {
    var r := Interval(ranges[i - 1].start, ranges[i].end);
    var low, high := ranges[..i - 1], ranges[i + 1..];
    SortedSplit(ranges, i);
    SortedSplit(ranges, i - 1);
    SortedJoin(low, r, high);
    assert ranges[..i] == low + [ranges[i - 1]] + [];
    forall x: nat
      ensures Has(low + [r] + high, x) <==> Has(ranges, x) || x == p
    {
      HasJoin(low, r, high, x);
      HasJoin(ranges[..i], ranges[i], high, x);
      HasJoin(low, ranges[i - 1], [], x);
    }
  }

  lemma CutFirst(ranges: seq<Interval>, p: nat)
    requires Sorted(ranges) && |ranges| > 0 && ranges[0].start <= p < ranges[0].end
    ensures Sorted(ranges[0 := Interval(p + 1, ranges[0].end)])
    ensures forall x: nat {:trigger Has(ranges, x)} {:trigger Has(ranges[0 := Interval(p + 1, ranges[0].end)], x)} ::
              Has(ranges[0 := Interval(p + 1, ranges[0].end)], x) <==> Has(ranges, x) && x > p
  {
    var cut := Interval(p + 1, ranges[0].end);
    SortedSplit(ranges, 0);
    assert ranges[0 := cut] == [] + [cut] + ranges[1..];
    SortedJoin([], cut, ranges[1..]);
    AllLater(ranges[1..], ranges[0].end);
    forall x: nat
      ensures Has(ranges[0 := cut], x) <==> Has(ranges, x) && x > p
    {
      HasJoin([], cut, ranges[1..], x);
      HasJoin([], ranges[0], ranges[1..], x);
    }
  }

  lemma DropFirst(ranges: seq<Interval>, p: nat)
    requires Sorted(ranges) && |ranges| > 0 && ranges[0].end <= p
    ensures Sorted(ranges[..0] + ranges[1..])
    ensures forall x: nat {:trigger Has(ranges, x)} {:trigger Has(ranges[..0] + ranges[1..], x)} ::
              (Has(ranges[..0] + ranges[1..], x) ==> Has(ranges, x))
              && (Has(ranges, x) && x > p ==> Has(ranges[..0] + ranges[1..], x))
  {
    SortedSplit(ranges, 0);
    assert ranges[..0] + ranges[1..] == ranges[1..];
    forall x: nat
      ensures (Has(ranges[1..], x) ==> Has(ranges, x)) && (Has(ranges, x) && x > p ==> Has(ranges[1..], x))
    {
      HasJoin([], ranges[0], ranges[1..], x);
    }
  }

  lemma AllLater(ranges: seq<Interval>, p: nat)
    requires Sorted(ranges) && (|ranges| > 0 ==> ranges[0].start > p)
    ensures forall x: nat :: Has(ranges, x) ==> x > p
  {
    forall x: nat | Has(ranges, x)
      ensures x > p
    {
      var k :| 0 <= k < |ranges| && InInterval(ranges[k], x);
      assert k > 0 ==> ranges[0].end + 1 < ranges[k].start;
    }
  }

  datatype AckRange = AckRange(first: nat, last: nat)

  function ToAckRange(r: Interval): AckRange {
    AckRange(r.start, r.end)
  }

  /** An ACK frame. An empty range list stands for one range from lowestAcked to largestAcked. */
  datatype AckFrame = AckFrame(largestAcked: nat, lowestAcked: nat, ackRanges: seq<AckRange>) {

    predicate HasMissingRanges() {
      |ackRanges| > 0
    }

    predicate AcksPacket(p: nat) {
      if p < lowestAcked || p > largestAcked then false
      else if HasMissingRanges() then exists i :: 0 <= i < |ackRanges| && ackRanges[i].first <= p <= ackRanges[i].last
      else true
    }
  }

  /** Range i lies above range j, and does not touch it. */
  ghost predicate Above(ackRanges: seq<AckRange>, i: nat, j: nat)
    requires i < |ackRanges| && j < |ackRanges|
  {
    ackRanges[j].last + 1 < ackRanges[i].first
  }

  /** The shape of every frame that GetAckFrame makes: at least two ranges or none, the highest first, disjoint, and
      bounded by the two ends of the frame. */
  ghost predicate WellShaped(f: AckFrame) {
    && f.lowestAcked <= f.largestAcked && |f.ackRanges| != 1
    && (f.HasMissingRanges() ==>
        f.ackRanges[0].last == f.largestAcked && f.ackRanges[|f.ackRanges| - 1].first == f.lowestAcked)
    && (forall i :: 0 <= i < |f.ackRanges| ==> f.ackRanges[i].first <= f.ackRanges[i].last)
    && (forall i: nat, j: nat {:trigger Above(f.ackRanges, i, j)} :: i < j < |f.ackRanges| ==> Above(f.ackRanges, i, j))
  }

  /** The frame that reports the ranges. */
  ghost predicate Reports(f: AckFrame, ranges: seq<Interval>) {
    && |ranges| > 0 && f.largestAcked == ranges[|ranges| - 1].end && f.lowestAcked == ranges[0].start
    && if |ranges| == 1 then f.ackRanges == []
       else |f.ackRanges| == |ranges| && forall i :: 0 <= i < |ranges| ==>
           f.ackRanges[i] == ToAckRange(ranges[|ranges| - 1 - i])
  }

  lemma ReportsShape(f: AckFrame, ranges: seq<Interval>)
    requires Sorted(ranges) && Reports(f, ranges)
    ensures WellShaped(f)
  {
    var n := |ranges|;
    assert n > 1 ==> ranges[0].end + 1 < ranges[n - 1].start;
    forall i: nat, j: nat | i < j < |f.ackRanges|
      ensures Above(f.ackRanges, i, j)
    {
      assert ranges[n - 1 - j].end + 1 < ranges[n - 1 - i].start;
    }
  }

  lemma ReportsAll(f: AckFrame, ranges: seq<Interval>, p: nat)
    requires Sorted(ranges) && Reports(f, ranges) && Has(ranges, p)
    ensures f.AcksPacket(p)
  {
    var n := |ranges|;
    var k :| 0 <= k < n && InInterval(ranges[k], p);
    assert k > 0 ==> ranges[0].end + 1 < ranges[k].start;
    assert k < n - 1 ==> ranges[k].end + 1 < ranges[n - 1].start;
    if n > 1 {
      assert f.ackRanges[n - 1 - k] == ToAckRange(ranges[k]);
    }
  }

  lemma ReportsOnly(f: AckFrame, ranges: seq<Interval>, p: nat)
    requires Reports(f, ranges) && f.AcksPacket(p)
    ensures Has(ranges, p)
  {
    if |ranges| == 1 {
      assert InInterval(ranges[0], p);
    } else {
      var i :| 0 <= i < |f.ackRanges| && f.ackRanges[i].first <= p <= f.ackRanges[i].last;
      assert InInterval(ranges[|ranges| - 1 - i], p);
    }
  }

  ghost predicate AcksExactly(f: AckFrame, ranges: seq<Interval>) {
    forall p: nat :: f.AcksPacket(p) <==> Has(ranges, p)
  }

  /** A frame that reports the received ranges acknowledges exactly the received numbers. */
  lemma ReportsExactly(f: AckFrame, ranges: seq<Interval>)
    requires Sorted(ranges) && Reports(f, ranges)
    ensures AcksExactly(f, ranges)
  {
    forall p: nat | Has(ranges, p) { ReportsAll(f, ranges, p); }
    forall p: nat | f.AcksPacket(p) { ReportsOnly(f, ranges, p); }
  }

  const MAX_PACKETS_RECEIVED_BEFORE_ACK_SEND: nat := 20
  const RETRANSMITTABLE_PACKETS_BEFORE_ACK: nat := 2

  datatype ReceiveError = NoError | InvalidPacketNumber | TooManyRanges

  /** Decides when to acknowledge. Time is a parameter; `legacy` stands for versions below 39. */
  class ReceivedPacketHandler {
    const packetHistory: ReceivedPacketHistory
    const ackSendDelay: nat
    const legacy: bool
    var largestObserved: nat
    var lowerLimit: nat
    var packetsReceivedSinceLastAck: nat
    var retransmittablePacketsReceivedSinceLastAck: nat
    var ackQueued: bool
    var ackAlarm: Option<nat>
    var lastAck: Option<AckFrame>

    constructor (ackSendDelay: nat, legacy: bool)
      ensures Valid() && fresh(packetHistory) && largestObserved == 0 && lastAck == None
      ensures this.ackSendDelay == ackSendDelay && this.legacy == legacy
      ensures packetsReceivedSinceLastAck == 0 && retransmittablePacketsReceivedSinceLastAck == 0
    {
      packetHistory := new ReceivedPacketHistory();
      this.ackSendDelay, this.legacy := ackSendDelay, legacy;
      largestObserved, lowerLimit := 0, 0;
      packetsReceivedSinceLastAck, retransmittablePacketsReceivedSinceLastAck := 0, 0;
      ackQueued, ackAlarm, lastAck := false, None, None;
    }

    /** Whatever was deleted, the largest number observed is still in the history and tops it; nothing waits to be
        acknowledged before the first packet. */
    ghost predicate Valid()
      reads this, packetHistory
    {
      var ranges := packetHistory.ranges;
      && Sorted(ranges)
      && (largestObserved > 0 ==>
          |ranges| > 0 && ranges[|ranges| - 1].end == largestObserved && lowerLimit < largestObserved)
      && (largestObserved == 0 ==> ranges == [] && lowerLimit == 0 && !ackQueued && ackAlarm.None?)
      && (forall x: nat {:trigger Has(ranges, x)} :: Has(ranges, x) ==> lowerLimit < x)
    }

    /** An acknowledgement is queued, or will be once the alarm is due. */
    ghost predicate Pending()
      reads this
    {
      ackQueued || ackAlarm.Some?
    }

    /** Why a packet is acknowledged at once: it is the first one, the twentieth since the last acknowledgement in an
        old version, a late one, one behind a new gap, or the second that asks for it. */
    ghost predicate AtOnce(packetNumber: nat, shouldInstigateAck: bool)
      reads this, packetHistory
    {
      || lastAck.None?
      || (legacy && packetsReceivedSinceLastAck >= 20)
      || packetNumber < lastAck.value.largestAcked
      || (packetHistory.ranges != []
          && packetHistory.ranges[|packetHistory.ranges| - 1].start > lastAck.value.largestAcked)
      || (shouldInstigateAck && retransmittablePacketsReceivedSinceLastAck >= 2)
    }

    /** Registers a packet. Numbers at or below the limit are ignored, all others enter the history. */
    method ReceivedPacket(packetNumber: nat, shouldInstigateAck: bool, now: nat) returns (err: ReceiveError)
      requires Valid()
      modifies this, packetHistory`ranges
      ensures err.InvalidPacketNumber? <==> packetNumber == 0
      ensures err.TooManyRanges? <==>
              packetNumber > 0 && packetNumber > old(lowerLimit)
              && |old(packetHistory.ranges)| >= MAX_TRACKED_RECEIVED_ACK_RANGES
      // then only the largest number may have moved
      ensures !err.NoError? || packetNumber <= old(lowerLimit) ==>
                packetHistory.ranges == old(packetHistory.ranges)
                && ackQueued == old(ackQueued) && ackAlarm == old(ackAlarm)
                && packetsReceivedSinceLastAck == old(packetsReceivedSinceLastAck)
                && retransmittablePacketsReceivedSinceLastAck == old(retransmittablePacketsReceivedSinceLastAck)
      ensures lowerLimit == old(lowerLimit) && lastAck == old(lastAck)
      ensures largestObserved == if packetNumber > old(largestObserved) then packetNumber else old(largestObserved)
      ensures err.NoError? ==> Valid() && largestObserved >= packetNumber
      ensures err.NoError? ==>
                forall x: nat {:trigger Has(packetHistory.ranges, x)} :: Has(packetHistory.ranges, x) <==>
                Has(old(packetHistory.ranges), x) || (x == packetNumber && packetNumber > lowerLimit)
      // an acknowledgement is sent at once, or later, or nothing has asked for one
      ensures err.NoError? && packetNumber > lowerLimit ==>
                packetsReceivedSinceLastAck == old(packetsReceivedSinceLastAck) + 1
                && retransmittablePacketsReceivedSinceLastAck ==
                   old(retransmittablePacketsReceivedSinceLastAck) + (if shouldInstigateAck then 1 else 0)
                && (ackQueued <==> old(ackQueued) || AtOnce(packetNumber, shouldInstigateAck))
                && ackAlarm == if ackQueued then None
                               else if shouldInstigateAck && old(ackAlarm).None? then Some(now + ackSendDelay)
                               else old(ackAlarm)
      ensures err.NoError? && packetNumber > lowerLimit ==>
                (shouldInstigateAck || old(Pending()) ==> Pending()) && (lastAck.None? ==> ackQueued)
    {
      if packetNumber == 0 {
        return InvalidPacketNumber;
      }
      ghost var before := packetHistory.ranges;
      if packetNumber > largestObserved {
        largestObserved := packetNumber;
      }
      if packetNumber <= lowerLimit {
        return NoError;
      }
      var ok := packetHistory.ReceivedPacket(packetNumber);
      if !ok {
        return TooManyRanges;
      }
      TopOf(before, packetHistory.ranges, packetNumber, old(largestObserved));
      MaybeQueueAck(packetNumber, shouldInstigateAck, now);
      return NoError;
    }

    method MaybeQueueAck(packetNumber: nat, shouldInstigateAck: bool, now: nat)
      modifies `packetsReceivedSinceLastAck, `retransmittablePacketsReceivedSinceLastAck, `ackQueued, `ackAlarm
      ensures packetsReceivedSinceLastAck == old(packetsReceivedSinceLastAck) + 1
      ensures retransmittablePacketsReceivedSinceLastAck ==
              old(retransmittablePacketsReceivedSinceLastAck) + if shouldInstigateAck then 1 else 0
      ensures ackQueued <==> old(ackQueued) || AtOnce(packetNumber, shouldInstigateAck)
      ensures ackAlarm == if ackQueued then None
                          else if shouldInstigateAck && old(ackAlarm).None? then Some(now + ackSendDelay)
                          else old(ackAlarm)
    {
      packetsReceivedSinceLastAck := packetsReceivedSinceLastAck + 1;
      if shouldInstigateAck {
        retransmittablePacketsReceivedSinceLastAck := retransmittablePacketsReceivedSinceLastAck + 1;
      }
      QueueForNumber(packetNumber);
      if !ackQueued && shouldInstigateAck {
        if retransmittablePacketsReceivedSinceLastAck >= RETRANSMITTABLE_PACKETS_BEFORE_ACK {
          ackQueued := true;
        } else if ackAlarm.None? {
          ackAlarm := Some(now + ackSendDelay);
        }
      }
      if ackQueued {
        ackAlarm := None;
      }
    }

    /** The reasons to acknowledge at once that do not depend on what the packet asks for. */
    method QueueForNumber(packetNumber: nat)
      modifies `ackQueued
      ensures ackQueued <==> old(ackQueued) || AtOnce(packetNumber, false)
    {
      if lastAck.None? {
        ackQueued := true;
      }
      if legacy && packetsReceivedSinceLastAck >= MAX_PACKETS_RECEIVED_BEFORE_ACK_SEND {
        ackQueued := true;
      }
      if lastAck.Some? && packetNumber < lastAck.value.largestAcked {
        ackQueued := true;
      }
      var highest := packetHistory.GetHighestAckRange();
      if lastAck.Some? && highest.first > lastAck.value.largestAcked {
        ackQueued := true;
      }
    }

    /** Stops acknowledging numbers up to p. The history still holds the largest number observed exactly if p is
        below it. The sender of a stop-waiting frame names only numbers below the packet that carries it, so p is
        below some number observed. */
    method SetLowerLimit(p: nat)
      requires Valid()
      modifies `lowerLimit, packetHistory
      ensures lowerLimit == p && Sorted(packetHistory.ranges)
      ensures Valid() <==> p < largestObserved || p == largestObserved == 0
      ensures p >= largestObserved ==> packetHistory.ranges == []
      ensures forall x: nat {:trigger Has(packetHistory.ranges, x)} :: Has(packetHistory.ranges, x) <==>
                Has(old(packetHistory.ranges), x) && x > p
    {
      ghost var before := packetHistory.ranges;
      lowerLimit := p;
      packetHistory.DeleteUpTo(p);
      if p < largestObserved {
        assert Has(before, largestObserved) by { assert InInterval(before[|before| - 1], largestObserved); }
        SameTop(before, packetHistory.ranges, largestObserved);
      } else {
        NothingAbove(before, packetHistory.ranges, p);
      }
    }

    /** The frame to send now, if an acknowledgement is due. The history is never empty then, so the lowest range
        exists; the frame acknowledges exactly the numbers in the history. */
    method GetAckFrame(now: nat) returns (res: Option<AckFrame>)
      requires Valid()
      modifies `lastAck, `ackAlarm, `ackQueued, `packetsReceivedSinceLastAck,
               `retransmittablePacketsReceivedSinceLastAck
      ensures Valid() && (res.Some? <==> old(ackQueued) || (old(ackAlarm).Some? && old(ackAlarm).value <= now))
      ensures res.Some? ==> largestObserved > 0 && lastAck == res && !ackQueued && ackAlarm.None?
                            && packetsReceivedSinceLastAck == 0 && retransmittablePacketsReceivedSinceLastAck == 0
      ensures res.None? ==> lastAck == old(lastAck) && !ackQueued && ackAlarm == old(ackAlarm)
                            && packetsReceivedSinceLastAck == old(packetsReceivedSinceLastAck)
                            && retransmittablePacketsReceivedSinceLastAck ==
                               old(retransmittablePacketsReceivedSinceLastAck)
      ensures res.Some? ==> Reports(res.value, packetHistory.ranges) && WellShaped(res.value)
      ensures res.Some? ==> AcksExactly(res.value, packetHistory.ranges)
    {
      if !ackQueued && (ackAlarm.None? || ackAlarm.value > now) {
        return None;
      }
      var ack := BuildAckFrame();
      lastAck, ackAlarm, ackQueued := Some(ack), None, false;
      packetsReceivedSinceLastAck, retransmittablePacketsReceivedSinceLastAck := 0, 0;
      return Some(ack);
    }

    method BuildAckFrame() returns (ack: AckFrame)
      requires Valid() && largestObserved > 0
      ensures Reports(ack, packetHistory.ranges) && WellShaped(ack) && AcksExactly(ack, packetHistory.ranges)
    {
      var ackRanges := packetHistory.GetAckRanges();
      ack := AckFrame(largestObserved, ackRanges[|ackRanges| - 1].first, []);
      if |ackRanges| > 1 {
        ack := ack.(ackRanges := ackRanges);
      }
      ReportsShape(ack, packetHistory.ranges);
      ReportsExactly(ack, packetHistory.ranges);
    }
  }

  lemma NothingAbove(before: seq<Interval>, ranges: seq<Interval>, p: nat)
    requires Sorted(before) && Sorted(ranges) && (before != [] ==> before[|before| - 1].end <= p)
    requires forall x: nat {:trigger Has(ranges, x)} :: Has(ranges, x) <==> Has(before, x) && x > p
    ensures ranges == []
  {
    if ranges != [] {
      assert InInterval(ranges[0], ranges[0].start);
      assert Has(ranges, ranges[0].start);
      TopIsMost(before, ranges[0].start);
      assert false;
    }
  }

  /** Adding a number to a list moves the top only up to that number. */
  lemma TopOf(before: seq<Interval>, ranges: seq<Interval>, p: nat, top: nat)
    requires Sorted(before) && Sorted(ranges) && (before == [] || before[|before| - 1].end == top)
    requires forall x: nat {:trigger Has(ranges, x)} :: Has(ranges, x) <==> Has(before, x) || x == p
    ensures |ranges| > 0 && ranges[|ranges| - 1].end == if before != [] && top > p then top else p
  {
    assert Has(ranges, p);
    var t := if before != [] && top > p then top else p;
    if before != [] {
      assert InInterval(before[|before| - 1], top);
      assert Has(before, top);
    }
    assert Has(ranges, t);
    forall x: nat | Has(before, x)
      ensures x <= t
    {
      TopIsMost(before, x);
    }
    IsTop(ranges, t);
  }

  lemma TopIsMost(ranges: seq<Interval>, x: nat)
    requires Sorted(ranges) && Has(ranges, x)
    ensures |ranges| > 0 && x <= ranges[|ranges| - 1].end
  {
    var k :| 0 <= k < |ranges| && InInterval(ranges[k], x);
    assert k < |ranges| - 1 ==> ranges[k].end + 1 < ranges[|ranges| - 1].start;
  }

  lemma IsTop(ranges: seq<Interval>, t: nat)
    requires Sorted(ranges) && Has(ranges, t) && forall x: nat {:trigger Has(ranges, x)} :: Has(ranges, x) ==> x <= t
    ensures |ranges| > 0 && ranges[|ranges| - 1].end == t
  {
    TopIsMost(ranges, t);
    var last := ranges[|ranges| - 1];
    assert InInterval(last, last.end);
    assert Has(ranges, last.end);
  }

  lemma SameTop(before: seq<Interval>, ranges: seq<Interval>, top: nat)
    requires Sorted(before) && Sorted(ranges) && before != [] && before[|before| - 1].end == top
    requires Has(ranges, top) && forall x: nat {:trigger Has(ranges, x)} :: Has(ranges, x) ==> Has(before, x)
    ensures |ranges| > 0 && ranges[|ranges| - 1].end == top
  {
    forall x: nat {:trigger Has(ranges, x)} | Has(ranges, x)
      ensures x <= top
    {
      TopIsMost(before, x);
    }
    IsTop(ranges, top);
  }
}
