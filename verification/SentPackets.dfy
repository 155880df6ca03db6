/**
 The sending half of acknowledgement: packets in flight, the scan that finds
 what an ACK frame covers, loss detection and the retransmission queue.
 */
module SentPackets {
  import opened AckHistory

  const MAX_TRACKED_SENT_PACKETS: nat := 2 * DEFAULT_MAX_CONGESTION_WINDOW
  const MAX_TRACKED_SKIPPED_PACKETS: nat := 10
  const MAX_TAIL_LOSS_PROBES: nat := 2

  datatype FrameKind = Stream | RstStream | WindowUpdate | Blocked | Ping | Goaway | AddAddress | Paths
    | StopWaiting | Ack | ClosePath | ConnectionClose

  datatype Frame = Frame(kind: FrameKind, content: nat)

  datatype Packet = Packet(number: nat, frames: seq<Frame>, length: nat, sendTime: int) {

    /** The kinds listed in packet.go, which leave out the two closing frames. */
    predicate IsRetransmittable() {
      exists i :: 0 <= i < |frames| && !(frames[i].kind in {StopWaiting, Ack, ClosePath, ConnectionClose})
    }
  }

  method StripNonRetransmittableFrames(fs: seq<Frame>) returns (res: seq<Frame>)
    ensures res == Strip(fs)
  {
    res := [];
    for i := 0 to |fs|
      invariant res == Strip(fs[..i])
    {
      assert fs[..i + 1][..i] == fs[..i];
      if IsFrameRetransmittable(fs[i]) {
        res := res + [fs[i]];
      }
    }
    assert fs[..|fs|] == fs;
  }

  /** The frames that are not acknowledgement bookkeeping. */
  function Strip(fs: seq<Frame>): seq<Frame> {
    if fs == [] then []
    else
      var last := fs[|fs| - 1];
      Strip(fs[..|fs| - 1]) + if IsFrameRetransmittable(last) then [last] else []
  }

  predicate IsFrameRetransmittable(f: Frame) {
    f.kind != StopWaiting && f.kind != Ack
  }

  /** Whether a packet asks for an acknowledgement. */
  method HasRetransmittableFrames(fs: seq<Frame>) returns (b: bool)
    ensures b <==> Asks(fs)
  {
    var i := 0;
    while i < |fs|
      invariant 0 <= i <= |fs| && !Asks(fs[..i])
    {
      if IsFrameRetransmittable(fs[i]) {
        return true;
      }
      i := i + 1;
    }
    assert fs[..i] == fs;
    return false;
  }

  /** A packet asks for an acknowledgement if something in it would be sent again. */
  ghost predicate Asks(fs: seq<Frame>) {
    exists i :: 0 <= i < |fs| && fs[i].kind in SENT_AGAIN
  }

  /** The sender tracks exactly the packets that ask. */
  lemma {:induction false} AsksIsTracked(fs: seq<Frame>)
    ensures Asks(fs) <==> Strip(fs) != []
  {
    if fs == [] {
    } else {
      AsksIsTracked(fs[..|fs| - 1]);
    }
  }

  /** The places, in order, of the frames that are left. */
  ghost predicate Places(fs: seq<Frame>, left: seq<Frame>, at: seq<nat>) {
    && |at| == |left| && (forall i :: 0 <= i < |at| ==> at[i] < |fs| && left[i] == fs[at[i]])
    && (forall i, j :: 0 <= i < j < |at| ==> at[i] < at[j])
  }

  ghost predicate Among(at: seq<nat>, k: nat) {
    exists i :: 0 <= i < |at| && at[i] == k
  }

  /** Everything but acknowledgements and stop-waiting frames. */
  const SENT_AGAIN: set<FrameKind> :=
    {Stream, RstStream, WindowUpdate, Blocked, Ping, Goaway, AddAddress, Paths, ClosePath, ConnectionClose}

  ghost predicate PlacesAll(fs: seq<Frame>, at: seq<nat>) {
    forall k: nat {:trigger Among(at, k)} :: k < |fs| ==> (Among(at, k) <==> fs[k].kind in SENT_AGAIN)
  }

  lemma PlacesMore(fs: seq<Frame>, f: Frame, left: seq<Frame>, at: seq<nat>)
    requires Places(fs, left, at)
    ensures Places(fs + [f], left, at) && Places(fs + [f], left + [f], at + [|fs|])
  {
  }

  lemma AmongMore(at: seq<nat>, n: nat, k: nat)
    ensures Among(at + [n], k) <==> Among(at, k) || k == n
  {
    if i :| 0 <= i < |at| && at[i] == k {
      assert (at + [n])[i] == k;
    }
    assert (at + [n])[|at|] == n;
  }

  lemma PlacesAllMore(fs: seq<Frame>, f: Frame, at: seq<nat>)
    requires PlacesAll(fs, at) && !Among(at, |fs|)
    ensures PlacesAll(fs + [f], if IsFrameRetransmittable(f) then at + [|fs|] else at)
  {
    var at' := if IsFrameRetransmittable(f) then at + [|fs|] else at;
    forall k: nat | k < |fs + [f]|
      ensures Among(at', k) <==> (fs + [f])[k].kind in SENT_AGAIN
    {
      AmongMore(at, |fs|, k);
    }
  }

  /** What is left are exactly the frames to send again, each once and in order. */
  lemma {:induction false} StripPlaces(fs: seq<Frame>) returns (at: seq<nat>)
    ensures Places(fs, Strip(fs), at) && PlacesAll(fs, at)
  {
    if fs == [] {
      at := [];
    } else {
      var front, f := fs[..|fs| - 1], fs[|fs| - 1];
      assert fs == front + [f];
      at := StripPlaces(front);
      PlacesMore(front, f, Strip(front), at);
      PlacesAllMore(front, f, at);
      at := if IsFrameRetransmittable(f) then at + [|front|] else at;
    }
  }

  ghost predicate Before(ps: seq<Packet>, i: nat, j: nat)
    requires i < |ps| && j < |ps|
  {
    ps[i].number < ps[j].number
  }

  ghost predicate Increasing(ps: seq<Packet>) {
    forall i: nat, j: nat {:trigger Before(ps, i, j)} :: i < j < |ps| ==> Before(ps, i, j)
  }

  lemma IncreasingSlice(ps: seq<Packet>, from: nat, to: nat)
    requires Increasing(ps) && from <= to <= |ps|
    ensures Increasing(ps[from..to])
  {
    var s := ps[from..to];
    forall i: nat, j: nat | i < j < |s|
      ensures Before(s, i, j)
    {
      assert Before(ps, from + i, from + j);
    }
  }

  lemma IncreasingPush(ps: seq<Packet>, p: Packet)
    requires Increasing(ps) && forall q :: q in ps ==> q.number < p.number
    ensures Increasing(ps + [p])
  {
    var s := ps + [p];
    forall i: nat, j: nat | i < j < |s|
      ensures Before(s, i, j)
    {
      if j < |ps| {
        assert Before(ps, i, j);
      } else {
        assert s[i] in ps;
      }
    }
  }

  ghost function Total(ps: seq<Packet>): nat {
    if ps == [] then 0 else Total(ps[..|ps| - 1]) + ps[|ps| - 1].length
  }

  lemma {:induction false} TotalConcat(a: seq<Packet>, b: seq<Packet>)
    ensures Total(a + b) == Total(a) + Total(b)
  {
    if b == [] {
      assert a + b == a;
    } else {
      TotalConcat(a, b[..|b| - 1]);
      assert (a + b)[..|a + b| - 1] == a + b[..|b| - 1];
    }
  }

  // ---------------------------------------------------------------- removal

  function Without(ps: seq<Packet>, i: nat): seq<Packet>
    requires i < |ps|
  {
    ps[..i] + ps[i + 1..]
  }

  lemma WithoutFacts(ps: seq<Packet>, i: nat)
    requires i < |ps|
    ensures multiset(ps) == multiset(Without(ps, i)) + multiset{ps[i]} && |ps| == |Without(ps, i)| + 1
    ensures Total(ps) == Total(Without(ps, i)) + ps[i].length
  {
    var low, p, high := ps[..i], ps[i], ps[i + 1..];
    assert ps == low + [p] + high;
    Around(low, p, high);
  }

  lemma Around(low: seq<Packet>, p: Packet, high: seq<Packet>)
    ensures multiset(low + [p] + high) == multiset(low + high) + multiset{p}
    ensures Total(low + [p] + high) == Total(low + high) + p.length
  {
    TotalConcat(low + [p], high);
    TotalConcat(low, [p]);
    TotalConcat(low, high);
    assert Total([p]) == p.length by { assert [p][..0] == []; }
  }

  lemma IncreasingWithout(ps: seq<Packet>, i: nat)
    requires Increasing(ps) && i < |ps|
    ensures Increasing(Without(ps, i))
  {
    var s := Without(ps, i);
    forall a: nat, b: nat | a < b < |s|
      ensures Before(s, a, b)
    {
      assert Before(ps, if a < i then a else a + 1, if b < i then b else b + 1);
    }
  }

  /** An increasing list is determined by its contents. */
  lemma {:induction false} IncreasingUnique(a: seq<Packet>, b: seq<Packet>)
    requires Increasing(a) && Increasing(b) && multiset(a) == multiset(b)
    ensures a == b
  {
    if a == [] {
      assert |multiset(b)| == 0;
    } else {
      LastSame(a, b);
      var a', b', p := a[..|a| - 1], b[..|b| - 1], a[|a| - 1];
      assert a == a' + [p] && b == b' + [p];
      FrontSame(a', b', p);
      IncreasingSlice(a, 0, |a| - 1);
      IncreasingSlice(b, 0, |b| - 1);
      IncreasingUnique(a', b');
    }
  }

  lemma FrontSame(a: seq<Packet>, b: seq<Packet>, p: Packet)
    requires multiset(a + [p]) == multiset(b + [p])
    ensures multiset(a) == multiset(b)
  {
    assert multiset(a) == multiset(a + [p]) - multiset{p};
    assert multiset(b) == multiset(b + [p]) - multiset{p};
  }

  lemma LastSame(a: seq<Packet>, b: seq<Packet>)
    requires Increasing(a) && Increasing(b) && multiset(a) == multiset(b) && a != []
    ensures |a| == |b| && a[|a| - 1] == b[|b| - 1]
  {
    assert |a| == |multiset(a)| == |multiset(b)| == |b|;
    var n := |a| - 1;
    assert a[n] in multiset(b) && b[n] in multiset(a);
    var i :| 0 <= i <= n && b[i] == a[n];
    var j :| 0 <= j <= n && a[j] == b[n];
    assert i < n ==> Before(b, i, n);
    assert j < n ==> Before(a, j, n);
  }

  // -------------------------------------------------------------- selection

  /** What a scan over the history looks for. */
  datatype Rule = Covered(ack: AckFrame) | Late(limit: nat, now: int, delay: int) | UpTo(limit: nat)

  predicate Meets(r: Rule, p: Packet) {
    match r
    case Covered(ack) => ack.AcksPacket(p.number)
    case Late(limit, now, delay) => p.number <= limit && now - p.sendTime > delay
    case UpTo(limit) => p.number <= limit
  }

  /** The packets that meet the rule, or those that do not, in order. */
  ghost function Select(ps: seq<Packet>, r: Rule, want: bool): seq<Packet> {
    if ps == [] then []
    else
      var p := ps[|ps| - 1];
      Select(ps[..|ps| - 1], r, want) + if Meets(r, p) == want then [p] else []
  }

  lemma SelectNext(ps: seq<Packet>, r: Rule, want: bool, i: nat)
    requires i < |ps|
    ensures Select(ps[..i + 1], r, want) == Select(ps[..i], r, want) + if Meets(r, ps[i]) == want then [ps[i]] else []
  {
    assert ps[..i + 1][..i] == ps[..i];
  }

  /** Every packet is selected or left, and keeps its place. */
  lemma {:induction false} SelectSplits(ps: seq<Packet>, r: Rule)
    ensures multiset(ps) == multiset(Select(ps, r, true)) + multiset(Select(ps, r, false))
  {
    if ps == [] {
    } else {
      SelectSplits(ps[..|ps| - 1], r);
      assert ps == ps[..|ps| - 1] + [ps[|ps| - 1]];
    }
  }

  lemma {:induction false} SelectIn(ps: seq<Packet>, r: Rule, want: bool, p: Packet)
    ensures p in Select(ps, r, want) <==> p in ps && Meets(r, p) == want
  {
    if ps == [] {
    } else {
      SelectIn(ps[..|ps| - 1], r, want, p);
      assert ps == ps[..|ps| - 1] + [ps[|ps| - 1]];
    }
  }

  /** What is late: sent up to the limit, and longer ago than the delay. */
  lemma LateMeaning(ps: seq<Packet>, limit: nat, now: int, delay: int, p: Packet)
    ensures p in Select(ps, Late(limit, now, delay), true) <==>
            p in ps && p.number <= limit && now - p.sendTime > delay
  {
    SelectIn(ps, Late(limit, now, delay), true, p);
  }

  lemma UpToMeaning(ps: seq<Packet>, limit: nat, p: Packet)
    ensures p in Select(ps, UpTo(limit), true) <==> p in ps && p.number <= limit
  {
    SelectIn(ps, UpTo(limit), true, p);
  }

  lemma {:induction false} SelectIncreasing(ps: seq<Packet>, r: Rule, want: bool)
    requires Increasing(ps)
    ensures Increasing(Select(ps, r, want))
  {
    if ps == [] {
      assert Select(ps, r, want) == [];
    } else {
      var front, last := ps[..|ps| - 1], ps[|ps| - 1];
      IncreasingSlice(ps, 0, |ps| - 1);
      SelectIncreasing(front, r, want);
      forall q | q in Select(front, r, want)
        ensures q.number < last.number
      {
        SelectIn(front, r, want, q);
        var i :| 0 <= i < |front| && front[i] == q;
        assert Before(ps, i, |front|);
      }
      IncreasingPush(Select(front, r, want), last);
      assert Select(front, r, want) + [] == Select(front, r, want);
    }
  }

  /** Taking out the selected packets leaves the others, in order. */
  lemma SelectRest(before: seq<Packet>, after: seq<Packet>, r: Rule)
    requires Increasing(before) && Increasing(after)
    requires multiset(before) == multiset(after) + multiset(Select(before, r, true))
    ensures after == Select(before, r, false)
  {
    SelectSplits(before, r);
    SelectIncreasing(before, r, false);
    assert multiset(after) == multiset(before) - multiset(Select(before, r, true));
    IncreasingUnique(after, Select(before, r, false));
  }

  /** Past the end of what a rule can meet, a scan may stop. */
  lemma {:induction false} SelectStops(ps: seq<Packet>, r: Rule, i: nat)
    requires i <= |ps| && forall j :: i <= j < |ps| ==> !Meets(r, ps[j])
    ensures Select(ps, r, true) == Select(ps[..i], r, true)
    decreases |ps| - i
  {
    if i < |ps| {
      SelectNext(ps, r, true, i);
      SelectStops(ps, r, i + 1);
    } else {
      assert ps[..i] == ps;
    }
  }

  // ------------------------------------------------------------ the scan

  /** A number outside the range at index j, above all lower ranges, is not acknowledged. */
  lemma BetweenRanges(ack: AckFrame, j: nat, n: nat)
    requires WellShaped(ack) && j < |ack.ackRanges| && n < ack.ackRanges[j].first
    requires forall i :: j < i < |ack.ackRanges| ==> ack.ackRanges[i].last < n
    ensures !ack.AcksPacket(n)
  {
    forall i | 0 <= i < |ack.ackRanges|
      ensures !(ack.ackRanges[i].first <= n <= ack.ackRanges[i].last)
    {
      if i < j {
        assert Above(ack.ackRanges, i, j);
      }
    }
  }

  /** Moves on to the first range that does not end below the number; ranges are counted from the lowest. */
  method NextRange(ack: AckFrame, packetNumber: nat, start: nat) returns (ackRangeIndex: nat)
    requires start < |ack.ackRanges|
    requires forall j :: |ack.ackRanges| - start <= j < |ack.ackRanges| ==> ack.ackRanges[j].last < packetNumber
    ensures start <= ackRangeIndex < |ack.ackRanges|
    ensures forall j :: |ack.ackRanges| - ackRangeIndex <= j < |ack.ackRanges| ==> ack.ackRanges[j].last < packetNumber
    ensures packetNumber > ack.ackRanges[|ack.ackRanges| - 1 - ackRangeIndex].last ==>
              ackRangeIndex == |ack.ackRanges| - 1
  {
    ackRangeIndex := start;
    var n := |ack.ackRanges|;
    while packetNumber > ack.ackRanges[n - 1 - ackRangeIndex].last && ackRangeIndex < n - 1
      invariant start <= ackRangeIndex < n
      invariant forall j :: n - ackRangeIndex <= j < n ==> ack.ackRanges[j].last < packetNumber
      decreases n - ackRangeIndex
    {
      ackRangeIndex := ackRangeIndex + 1;
    }
  }

  /** The ranges below the one in use end below the number. */
  ghost predicate RangesPassed(ack: AckFrame, ackRangeIndex: nat, n: int) {
    && (|ack.ackRanges| > 0 ==> ackRangeIndex < |ack.ackRanges|)
    && forall j :: |ack.ackRanges| - ackRangeIndex <= j < |ack.ackRanges| && 0 <= j ==> ack.ackRanges[j].last < n
  }

  /** A number within the frame that lies above all its ranges. No frame of the right shape has one. */
  ghost predicate AboveRanges(ack: AckFrame, n: nat) {
    && ack.lowestAcked <= n <= ack.largestAcked && ack.ackRanges != [] && ack.ackRanges[0].first <= n
    && forall j :: 0 <= j < |ack.ackRanges| ==> ack.ackRanges[j].last < n
  }

  ghost predicate NoneAbove(ps: seq<Packet>, ack: AckFrame) {
    match ack
    case AckFrame(_, _, _) => forall i :: 0 <= i < |ps| ==> !AboveRanges(ack, ps[i].number)
  }

  lemma NoneAboveMore(ps: seq<Packet>, i: nat, ack: AckFrame)
    requires i < |ps| && NoneAbove(ps[..i], ack)
    ensures AboveRanges(ack, ps[i].number) ==> !NoneAbove(ps, ack)
    ensures !AboveRanges(ack, ps[i].number) ==> NoneAbove(ps[..i + 1], ack)
  {
    forall j | 0 <= j < i
      ensures ps[..i + 1][j] == ps[..i][j]
    {
    }
  }

  datatype Verdict = Missing | Acknowledged | WrongPacket

  /** Decides one packet number that is not above the frame. */
  method Examine(ack: AckFrame, packetNumber: nat, start: nat) returns (verdict: Verdict, ackRangeIndex: nat)
    requires RangesPassed(ack, start, packetNumber) && packetNumber <= ack.largestAcked
    ensures RangesPassed(ack, ackRangeIndex, packetNumber)
    ensures verdict.Acknowledged? ==> ack.AcksPacket(packetNumber)
    ensures verdict.WrongPacket? <==> AboveRanges(ack, packetNumber)
    ensures WellShaped(ack) ==> !verdict.WrongPacket? && (verdict.Missing? ==> !ack.AcksPacket(packetNumber))
  {
    ackRangeIndex := start;
    if packetNumber < ack.lowestAcked {
      return Missing, ackRangeIndex;
    }
    if ack.HasMissingRanges() {
      ackRangeIndex := NextRange(ack, packetNumber, start);
      var ackRange := ack.ackRanges[|ack.ackRanges| - 1 - ackRangeIndex];
      if packetNumber >= ackRange.first {
        if packetNumber > ackRange.last {
          return WrongPacket, ackRangeIndex;
        }
        return Acknowledged, ackRangeIndex;
      }
      if WellShaped(ack) {
        BetweenRanges(ack, |ack.ackRanges| - 1 - ackRangeIndex, packetNumber);
      }
      return Missing, ackRangeIndex;
    }
    return Acknowledged, ackRangeIndex;
  }

  /** Some of the packets, all of them acknowledged; for a well-shaped frame, all the acknowledged ones. */
  ghost predicate Noting(acked: seq<Packet>, ps: seq<Packet>, ack: AckFrame) {
    match ack
    case AckFrame(_, _, _) =>
      && multiset(acked) <= multiset(ps) && (forall p :: p in acked ==> ack.AcksPacket(p.number))
      && (WellShaped(ack) ==> acked == Select(ps, Covered(ack), true))
  }

  lemma NotedOne(acked: seq<Packet>, ps: seq<Packet>, i: nat, ack: AckFrame)
    requires i < |ps| && Noting(acked, ps[..i], ack) && ack.AcksPacket(ps[i].number)
    ensures Noting(acked + [ps[i]], ps[..i + 1], ack)
  {
    SelectNext(ps, Covered(ack), true, i);
    assert ps[..i + 1] == ps[..i] + [ps[i]];
  }

  lemma PassedOne(acked: seq<Packet>, ps: seq<Packet>, i: nat, ack: AckFrame)
    requires i < |ps| && Noting(acked, ps[..i], ack) && (WellShaped(ack) ==> !ack.AcksPacket(ps[i].number))
    ensures Noting(acked, ps[..i + 1], ack)
  {
    SelectNext(ps, Covered(ack), true, i);
    assert ps[..i + 1] == ps[..i] + [ps[i]];
  }

  lemma NotedAll(acked: seq<Packet>, ps: seq<Packet>, i: nat, ack: AckFrame)
    requires i <= |ps| && Noting(acked, ps[..i], ack) && Increasing(ps)
             && (i < |ps| ==> ps[i].number > ack.largestAcked)
    ensures Noting(acked, ps, ack)
  {
    forall j | i <= j < |ps|
      ensures !Meets(Covered(ack), ps[j])
    {
      assert i < j ==> Before(ps, i, j);
    }
    SelectStops(ps, Covered(ack), i);
    PrefixWithin(ps, i);
  }

  lemma NoneAboveAll(ps: seq<Packet>, i: nat, ack: AckFrame)
    requires i <= |ps| && NoneAbove(ps[..i], ack) && Increasing(ps) && (i < |ps| ==> ps[i].number > ack.largestAcked)
    ensures NoneAbove(ps, ack)
  {
    forall j | 0 <= j < |ps|
      ensures !AboveRanges(ack, ps[j].number)
    {
      assert j < i ==> ps[..i][j] == ps[j];
      assert i < j ==> Before(ps, i, j);
    }
  }

  /** One step of the pass over the history. */
  method ScanPacket(history: seq<Packet>, i: nat, ack: AckFrame, found: seq<Packet>, start: nat)
    returns (ok: bool, acked: seq<Packet>, ackRangeIndex: nat)
    requires Increasing(history) && i < |history| && history[i].number <= ack.largestAcked
    requires RangesPassed(ack, start, if i == 0 then 0 else history[i - 1].number)
    requires Noting(found, history[..i], ack) && NoneAbove(history[..i], ack)
    ensures if ok then NoneAbove(history[..i + 1], ack) else !NoneAbove(history, ack)
    ensures ok ==> RangesPassed(ack, ackRangeIndex, history[i].number) && Noting(acked, history[..i + 1], ack)
    ensures WellShaped(ack) ==> ok
  {
    assert i > 0 ==> Before(history, i - 1, i);
    NoneAboveMore(history, i, ack);
    var verdict;
    verdict, ackRangeIndex := Examine(ack, history[i].number, start);
    acked := found;
    if verdict.Acknowledged? {
      NotedOne(acked, history, i, ack);
      acked := acked + [history[i]];
    } else if verdict.Missing? {
      PassedOne(acked, history, i, ack);
    }
    ok := !verdict.WrongPacket?;
  }

  /** One pass over the history, moving through the ranges from the lowest up. For every frame it returns only
      acknowledged packets; for a frame of the shape a receiver makes it returns all of them and never fails. */
  method DetermineNewlyAckedPackets(history: seq<Packet>, ack: AckFrame) returns (ok: bool, acked: seq<Packet>)
    requires Increasing(history)
    ensures ok ==> Noting(acked, history, ack)
    ensures ok <==> NoneAbove(history, ack)
    ensures WellShaped(ack) ==> ok
  {
    acked := [];
    var ackRangeIndex := 0;
    var i := 0;
    while i < |history|
      invariant 0 <= i <= |history| && RangesPassed(ack, ackRangeIndex, if i == 0 then 0 else history[i - 1].number)
      invariant Noting(acked, history[..i], ack) && NoneAbove(history[..i], ack)
    {
      if history[i].number > ack.largestAcked {
        break;
      }
      ok, acked, ackRangeIndex := ScanPacket(history, i, ack, acked, ackRangeIndex);
      if !ok {
        return false, [];
      }
      i := i + 1;
    }
    NotedAll(acked, history, i, ack);
    NoneAboveAll(history, i, ack);
    return true, acked;
  }

  lemma PrefixWithin(ps: seq<Packet>, i: nat)
    requires i <= |ps|
    ensures multiset(ps[..i]) <= multiset(ps)
  {
    assert ps == ps[..i] + ps[i..];
  }
}
