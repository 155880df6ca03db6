/**
 The accounts behind the sender: what is in flight, what waits to be sent
 again, and where every packet ever accepted has gone.
 */
module SentPacketBooks {
  import opened AckHistory
  import opened SentPackets

  /** Packets in flight, queued again and their total length, beside the history of the connection: every number sent,
      every packet accepted for tracking, and the packets acknowledged, taken out of the queue, or queued as copies. */
  datatype Ledger = Ledger(history: seq<Packet>, queue: seq<Packet>, bytes: nat, sent: set<nat>, accepted: seq<Packet>,
                           acked: multiset<Packet>, dequeued: multiset<Packet>, copies: multiset<Packet>)

  ghost predicate AllSent(ps: seq<Packet>, sent: set<nat>) {
    forall p :: p in ps ==> p.number in sent
  }

  /** Each packet taken in is in flight, acknowledged, queued or dequeued. */
  ghost predicate Balanced(l: Ledger) {
    multiset(l.history) + l.acked + multiset(l.queue) + l.dequeued == multiset(l.accepted) + l.copies
  }

  /** Numbers rise, and the lengths of the packets in flight make up the bytes in flight. */
  ghost predicate Counted(l: Ledger) {
    && Increasing(l.history) && AllSent(l.history, l.sent) && l.bytes == Total(l.history)
    && Increasing(l.accepted) && AllSent(l.accepted, l.sent)
    && |l.history| + |l.queue| <= MAX_TRACKED_SENT_PACKETS + |l.copies|
  }

  ghost predicate Kept(l: Ledger) {
    Balanced(l) && Counted(l)
  }

  const EMPTY: Ledger := Ledger([], [], 0, {}, [], multiset{}, multiset{}, multiset{})

  /** Books in order. */
  type Books = l: Ledger | Kept(l) witness EMPTY

  lemma {:induction false} OnceOnly(ps: seq<Packet>, p: Packet)
    requires Increasing(ps) && p in ps
    ensures multiset(ps)[p] == 1
  {
    var i :| 0 <= i < |ps| && ps[i] == p;
    WithoutFacts(ps, i);
    var rest := Without(ps, i);
    forall j | 0 <= j < |rest|
      ensures rest[j] != p
    {
      assert if j < i then Before(ps, j, i) else Before(ps, i, j + 1);
    }
  }

  /** Unless it was queued again as a copy, an accepted packet is in exactly one place. */
  lemma OnePlace(l: Ledger, p: Packet)
    requires Kept(l) && p in l.accepted && p !in l.copies
    ensures multiset(l.history)[p] + l.acked[p] + multiset(l.queue)[p] + l.dequeued[p] == 1
  {
    OnceOnly(l.accepted, p);
    assert (multiset(l.history) + l.acked + multiset(l.queue) + l.dequeued)[p] == (multiset(l.accepted) + l.copies)[p];
  }

  // ------------------------------------------------------------- one packet

  lemma Pushed(ps: seq<Packet>, p: Packet, sent: set<nat>)
    requires Increasing(ps) && AllSent(ps, sent) && forall n :: n in sent ==> n < p.number
    ensures Increasing(ps + [p]) && AllSent(ps + [p], sent + {p.number}) && Total(ps + [p]) == Total(ps) + p.length
  {
    assert forall q :: q in ps ==> q.number < p.number;
    IncreasingPush(ps, p);
    TotalConcat(ps, [p]);
    assert Total([p]) == p.length by { assert [p][..0] == []; }
  }

  /** A packet goes out. Only one with frames to retransmit is tracked. */
  ghost function Record(l: Books, p: Packet): Books
    requires (forall n :: n in l.sent ==> n < p.number) && |l.history| + |l.queue| < MAX_TRACKED_SENT_PACKETS
  {
    if p.frames == [] then
      l.(sent := l.sent + {p.number})
    else
      Pushed(l.history, p, l.sent);
      Pushed(l.accepted, p, l.sent);
      PushBalanced(l, p);
      l.(history := l.history + [p], bytes := l.bytes + p.length, sent := l.sent + {p.number},
         accepted := l.accepted + [p])
  }

  lemma PushBalanced(l: Ledger, p: Packet)
    requires Balanced(l)
    ensures multiset(l.history + [p]) + l.acked + multiset(l.queue) + l.dequeued ==
            multiset(l.accepted + [p]) + l.copies
  {
    assert multiset(l.history + [p]) + l.acked + multiset(l.queue) + l.dequeued
        == multiset(l.history) + l.acked + multiset(l.queue) + l.dequeued + multiset{p};
  }

  function IndexOf(ps: seq<Packet>, p: Packet): (i: nat)
    requires p in ps
    ensures i < |ps| && ps[i] == p
  {
    if ps[|ps| - 1] == p then |ps| - 1 else IndexOf(ps[..|ps| - 1], p)
  }

  function Remove(ps: seq<Packet>, p: Packet): seq<Packet>
    requires p in ps
  {
    Without(ps, IndexOf(ps, p))
  }

  lemma Removed(ps: seq<Packet>, p: Packet)
    requires p in ps && Increasing(ps)
    ensures Total(ps) == Total(Remove(ps, p)) + p.length && Increasing(Remove(ps, p))
    ensures multiset(ps) == multiset(Remove(ps, p)) + multiset{p}
  {
    WithoutFacts(ps, IndexOf(ps, p));
    IncreasingWithout(ps, IndexOf(ps, p));
  }

  ghost function DequeueOne(l: Books): Books
    requires l.queue != []
  {
    assert l.queue == [l.queue[0]] + l.queue[1..];
    l.(queue := l.queue[1..], dequeued := l.dequeued + multiset{l.queue[0]})
  }

  ghost function Duplicate(l: Books, p: Packet): Books {
    DuplicateBalanced(l, p);
    l.(queue := l.queue + [p], copies := l.copies + multiset{p})
  }

  lemma DuplicateBalanced(l: Ledger, p: Packet)
    requires Balanced(l)
    ensures multiset(l.history) + l.acked + multiset(l.queue + [p]) + l.dequeued ==
            multiset(l.accepted) + (l.copies + multiset{p})
  {
    assert multiset(l.history) + l.acked + multiset(l.queue + [p]) + l.dequeued
        == multiset(l.history) + l.acked + multiset(l.queue) + l.dequeued + multiset{p};
  }

  // ------------------------------------------------------------ many packets

  /** Removes packets one after the other, if they are there. */
  ghost function RemoveMany(ps: seq<Packet>, out: seq<Packet>): seq<Packet> {
    if out == [] then ps
    else
      var rest, p := RemoveMany(ps, out[..|out| - 1]), out[|out| - 1];
      if p in rest then Remove(rest, p) else rest
  }

  lemma StillThere(before: seq<Packet>, now: seq<Packet>, out: seq<Packet>, i: nat)
    requires multiset(out) <= multiset(before) && i < |out| && multiset(before) == multiset(now) + multiset(out[..i])
    ensures out[i] in now
  {
    var p := out[i];
    PrefixWithin(out, i + 1);
    assert out[..i + 1] == out[..i] + [p];
    assert multiset(out[..i + 1])[p] <= multiset(before)[p];
    assert p in multiset(now);
  }

  lemma OneMoreOut(before: seq<Packet>, now: seq<Packet>, next: seq<Packet>, out: seq<Packet>, i: nat)
    requires i < |out| && multiset(before) == multiset(now) + multiset(out[..i])
    requires multiset(now) == multiset(next) + multiset{out[i]}
    ensures multiset(before) == multiset(next) + multiset(out[..i + 1])
  {
    assert out[..i + 1] == out[..i] + [out[i]];
  }

  lemma {:induction false} RemoveManyFacts(ps: seq<Packet>, out: seq<Packet>)
    requires multiset(out) <= multiset(ps) && Increasing(ps)
    ensures Increasing(RemoveMany(ps, out)) && multiset(ps) == multiset(RemoveMany(ps, out)) + multiset(out)
  {
    if out == [] {
    } else {
      var n := |out| - 1;
      PrefixWithin(out, n);
      RemoveManyFacts(ps, out[..n]);
      var rest := RemoveMany(ps, out[..n]);
      StillThere(ps, rest, out, n);
      Removed(rest, out[n]);
      OneMoreOut(ps, rest, Remove(rest, out[n]), out, n);
      assert out[..n + 1] == out;
    }
  }

  /** The next packet to remove is still there. */
  lemma RemoveNext(ps: seq<Packet>, out: seq<Packet>, i: nat)
    requires multiset(out) <= multiset(ps) && Increasing(ps) && i < |out|
    ensures Increasing(RemoveMany(ps, out[..i])) && out[i] in RemoveMany(ps, out[..i])
    ensures RemoveMany(ps, out[..i + 1]) == Remove(RemoveMany(ps, out[..i]), out[i])
  {
    PrefixWithin(out, i);
    RemoveManyFacts(ps, out[..i]);
    StillThere(ps, RemoveMany(ps, out[..i]), out, i);
    assert out[..i + 1][..i] == out[..i];
  }

  lemma QueueNext(l: Books, lost: seq<Packet>, i: nat)
    requires multiset(lost) <= multiset(l.history) && i < |lost|
    ensures Increasing(RemoveMany(l.history, lost[..i])) && lost[i] in RemoveMany(l.history, lost[..i])
    ensures RemoveMany(l.history, lost[..i + 1]) == Remove(RemoveMany(l.history, lost[..i]), lost[i])
    ensures lost[i].number in l.sent && lost[..i + 1] == lost[..i] + [lost[i]]
  {
    RemoveNext(l.history, lost, i);
    assert lost[i] in multiset(l.history);
  }

  lemma WithinSent(before: seq<Packet>, after: seq<Packet>, out: seq<Packet>, sent: set<nat>)
    requires multiset(before) == multiset(after) + multiset(out) && AllSent(before, sent)
    ensures AllSent(after, sent) && |before| == |after| + |out|
  {
    forall p | p in after
      ensures p.number in sent
    {
      assert p in multiset(before);
    }
    assert |multiset(before)| == |multiset(after)| + |multiset(out)|;
  }

  /** Packets leave the history as acknowledged. */
  ghost function AckMany(l: Books, ps: seq<Packet>): Books
    requires multiset(ps) <= multiset(l.history)
  {
    RemoveManyFacts(l.history, ps);
    var rest := RemoveMany(l.history, ps);
    WithinSent(l.history, rest, ps, l.sent);
    l.(history := rest, bytes := Total(rest), acked := l.acked + multiset(ps))
  }

  /** Packets leave the history and wait in the queue, in order. */
  ghost function QueueMany(l: Books, ps: seq<Packet>): Books
    requires multiset(ps) <= multiset(l.history)
  {
    RemoveManyFacts(l.history, ps);
    var rest := RemoveMany(l.history, ps);
    WithinSent(l.history, rest, ps, l.sent);
    l.(history := rest, bytes := Total(rest), queue := l.queue + ps)
  }

  /** Exactly the packets that the frame covers leave the history, as acknowledged. */
  ghost function AfterAck(l: Ledger, ack: AckFrame): Ledger {
    var rest := Select(l.history, Covered(ack), false);
    l.(history := rest, bytes := Total(rest), acked := l.acked + multiset(Select(l.history, Covered(ack), true)))
  }

  /** Exactly the packets that meet the rule leave the history, and wait in the queue in order. */
  ghost function AfterLoss(l: Ledger, r: Rule): Ledger {
    var rest := Select(l.history, r, false);
    l.(history := rest, bytes := Total(rest), queue := l.queue + Select(l.history, r, true))
  }

  lemma AckManyExact(l: Books, ack: AckFrame)
    ensures var ps := Select(l.history, Covered(ack), true);
            multiset(ps) <= multiset(l.history) && AckMany(l, ps) == AfterAck(l, ack)
  {
    SelectSplits(l.history, Covered(ack));
    RemoveManyFacts(l.history, Select(l.history, Covered(ack), true));
    SelectRest(l.history, RemoveMany(l.history, Select(l.history, Covered(ack), true)), Covered(ack));
  }

  lemma QueueManyExact(l: Books, r: Rule)
    ensures var ps := Select(l.history, r, true);
            multiset(ps) <= multiset(l.history) && QueueMany(l, ps) == AfterLoss(l, r)
  {
    SelectSplits(l.history, r);
    RemoveManyFacts(l.history, Select(l.history, r, true));
    SelectRest(l.history, RemoveMany(l.history, Select(l.history, r, true)), r);
  }

  // --------------------------------------------------- oldest and newest

  /** The oldest k packets move to the queue. */
  ghost function MoveOldest(l: Ledger, k: nat): Ledger
    requires k <= |l.history|
  {
    l.(history := l.history[k..], bytes := Total(l.history[k..]), queue := l.queue + l.history[..k])
  }

  /** The newest packet moves to the queue. */
  ghost function MoveNewest(l: Ledger): Ledger
    requires l.history != []
  {
    var n := |l.history| - 1;
    l.(history := l.history[..n], bytes := Total(l.history[..n]), queue := l.queue + [l.history[n]])
  }

  lemma MoveOldestNext(l: Ledger, k: nat)
    requires k < |l.history|
    ensures MoveOldest(MoveOldest(l, k), 1) == MoveOldest(l, k + 1)
  {
    assert l.history[k..][1..] == l.history[k + 1..];
    assert l.queue + l.history[..k] + l.history[k..][..1] == l.queue + l.history[..k + 1];
  }

  lemma RemoveOne(ps: seq<Packet>, p: Packet)
    requires p in ps
    ensures RemoveMany(ps, [p]) == Remove(ps, p) && multiset([p]) <= multiset(ps)
  {
    assert [p][..0] == [];
    assert RemoveMany(ps, [p][..0]) == ps;
  }

  lemma MoveOldestOne(l: Books)
    requires l.history != []
    ensures multiset([l.history[0]]) <= multiset(l.history) && QueueMany(l, [l.history[0]]) == MoveOldest(l, 1)
  {
    var p := l.history[0];
    RemoveOne(l.history, p);
    var i := IndexOf(l.history, p);
    assert i > 0 ==> Before(l.history, 0, i);
    assert Remove(l.history, p) == l.history[1..];
    assert l.history[..1] == [p];
  }

  lemma MoveNewestOne(l: Books)
    requires l.history != []
    ensures var p := l.history[|l.history| - 1];
            multiset([p]) <= multiset(l.history) && QueueMany(l, [p]) == MoveNewest(l)
  {
    var p := l.history[|l.history| - 1];
    RemoveOne(l.history, p);
    assert Remove(l.history, p) == l.history[..|l.history| - 1];
  }
}
