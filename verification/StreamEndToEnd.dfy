/**
 The two sides of a stream joined by a network that may deliver any emitted
 frame at any time, any number of times, or never.
 */
module StreamEndToEnd {
  import opened Common
  import opened StreamGaps
  import opened StreamSorter
  import opened StreamTransport

  /** The bytes that have arrived are those of the delivered frames, and they are the bytes that were sent. */
  ghost predicate Faithful(bytes: ByteMap, sent: seq<Byte>, delivered: set<Frame>) {
    && (forall x: nat {:trigger x in bytes} :: x in bytes ==> x < |sent| && bytes[x] == sent[x])
    && (forall x: nat {:trigger x in bytes} :: x in bytes <==> Arrived(delivered, x))
  }

  ghost predicate Arrived(delivered: set<Frame>, x: nat) {
    exists f :: f in delivered && Covers(f, x)
  }

  lemma AbsorbFaithful(bytes: ByteMap, sent: seq<Byte>, ended: bool, delivered: set<Frame>, frame: Frame,
                       bytes': ByteMap)
    requires Faithful(bytes, sent, delivered) && IsSlice(sent, ended, frame) && Absorbs(bytes, frame, bytes')
    ensures Faithful(bytes', sent, delivered + {frame})
  {
    forall x: nat {:trigger x in bytes'}
      ensures x in bytes' <==> Arrived(delivered + {frame}, x)
    {
      assert x in bytes' <==> x in bytes || Covers(frame, x);
      if Arrived(delivered + {frame}, x) {
        var f :| f in delivered + {frame} && Covers(f, x);
        assert f in delivered ==> Arrived(delivered, x);
      }
      if Arrived(delivered, x) {
        var f :| f in delivered && Covers(f, x);
        assert f in delivered + {frame};
      }
    }
    assert frame.data == sent[frame.offset..frame.End()];
  }

  lemma FaithfulGrows(bytes: ByteMap, sent: seq<Byte>, more: seq<Byte>, delivered: set<Frame>)
    requires Faithful(bytes, sent, delivered)
    ensures Faithful(bytes, sent + more, delivered)
  {
  }

  // ------------------------------------------------------- where reading ends

  /** Every queued frame that is marked last ends where the stream ends. */
  ghost predicate EndsRight(queue: Queue, sent: seq<Byte>) {
    forall k :: k in queue && queue[k].fin ==> queue[k].End() == |sent|
  }

  ghost predicate MarksEnd(queue: Queue, ended: bool) {
    forall k :: k in queue && queue[k].fin ==> ended
  }

  ghost predicate EmptyEndsRight(queue: Queue, sent: seq<Byte>) {
    forall k :: k in queue && queue[k].fin && queue[k].data == [] ==> queue[k].End() == |sent|
  }

  /** The frame is marked last, its last byte has arrived with another frame, and some other byte of it has not. */
  ghost predicate Overtaken(bytes: ByteMap, frame: Frame, sent: seq<Byte>) {
    frame.fin && frame.data != [] && |sent| - 1 in bytes && !Known(bytes, frame)
  }

  /** Where reading will end after the frame was received: as before, or behind the last missing byte of an overtaken
      frame. */
  ghost predicate Verdict(bytes: ByteMap, frame: Frame, sent: seq<Byte>, early: Option<nat>, early': Option<nat>) {
    match early'
    case None => early == None && !Overtaken(bytes, frame, sent)
    case Some(e) =>
      if Overtaken(bytes, frame, sent) then 0 < e < |sent| && e - 1 !in bytes && AllFrom(bytes, e, |sent|)
      else early == Some(e)
  }

  /** k is the first live frame that is marked last. */
  ghost predicate FirstMark(queue: Queue, live: set<nat>, k: nat)
    requires live <= queue.Keys
  {
    k in live && queue[k].fin && forall l :: l in live && queue[l].fin ==> k <= l
  }

  /** Reading will stop at e: the first live frame that is marked last ends there. */
  ghost predicate StopsAt(queue: Queue, live: set<nat>, e: nat)
    requires live <= queue.Keys
  {
    exists k :: FirstMark(queue, live, k) && queue[k].End() == e
  }

  ghost predicate AllFrom(bytes: ByteMap, e: nat, end: nat) {
    forall x: nat {:trigger x in bytes} :: e <= x < end ==> x in bytes
  }

  /** Where reading, which has come to `at`, will end. If no frame was overtaken, that is the end of the stream; if
      one was, it is an earlier position e, and all bytes from there on have arrived. */
  ghost predicate Prospect(early: Option<nat>, queue: Queue, live: set<nat>, bytes: ByteMap, sent: seq<Byte>,
                           ended: bool, finished: bool, at: nat)
    requires live <= queue.Keys
  {
    match early
    case None => EndsRight(queue, sent) && MarksEnd(queue, ended) && (finished ==> ended && at == |sent|)
    case Some(e) =>
      && ended && at <= e < |sent| && AllFrom(bytes, e, |sent|) && EmptyEndsRight(queue, sent)
      && if finished then at == e else StopsAt(queue, live, e)
  }

  lemma SpelledFromSent(bytes: ByteMap, sent: seq<Byte>, delivered: set<Frame>, output: seq<Byte>, p: seq<Byte>)
    requires Faithful(bytes, sent, delivered) && Spells(bytes, |output|, p) && output <= sent
    ensures output + p <= sent
  {
    forall i | 0 <= i < |output + p|
      ensures i < |sent| && (output + p)[i] == sent[i]
    {
      if i >= |output| {
        assert i in bytes;
      }
    }
    assert |p| > 0 ==> |output| + |p| - 1 in bytes;
  }

  /** A frame marked last that is stored keeps its mark, but it still ends the stream exactly when the last byte had not
      arrived before: the cut at the far end does not clear the mark. */
  lemma LastMark(gaps: seq<Gap>, bytes: ByteMap, frame: Frame, f: Frame, sent: seq<Byte>)
    requires Stretch(gaps, bytes, frame, f) && Complement(gaps, bytes)
    requires frame.fin && frame.End() == |sent|
    ensures f.fin && (f.End() == |sent| <==> |sent| - 1 !in bytes)
  {
    assert Covers(frame, |sent| - 1) && Missing(gaps, f.End() - 1);
  }

  /** A frame that is received keeps the end marks right exactly if it was not overtaken. */
  lemma EndsStayRight(queue: Queue, gaps: seq<Gap>, live: set<nat>, bytes: ByteMap, frame: Frame, f: Frame,
                      queue': Queue, live': set<nat>, bytes': ByteMap, sent: seq<Byte>, ended: bool)
    requires Receives(queue, gaps, live, bytes, frame, f, queue', live', bytes') && Complement(gaps, bytes)
    requires IsSlice(sent, ended, frame) && EndsRight(queue, sent)
    ensures EndsRight(queue', sent) <==> !Overtaken(bytes, frame, sent)
  {
    if frame.data != [] && !Known(bytes, frame) && frame.fin {
      LastMark(gaps, bytes, frame, f, sent);
    }
  }

  /** The next byte to read is not above any missing one. */
  lemma AtBelowMissing(queue: Queue, readPosition: nat, gaps: seq<Gap>, live: set<nat>, bytes: ByteMap, at: nat, x: nat)
    requires Consistent(queue, readPosition, gaps, live, bytes) && Missing(gaps, x)
    requires at == readPosition || (readPosition in queue && at < queue[readPosition].End())
    ensures at <= x && readPosition <= x
  {
    var i :| 0 <= i < |gaps| && InGap(gaps[i], x);
    assert i > 0 ==> gaps[0].end < gaps[i].start;
    HeadIsLive(queue, readPosition, gaps, live, bytes);
    assert readPosition in queue ==> !Covers(queue[readPosition], x);
  }

  /** What is stored once reading is bound to stop at e ends below the frame that makes it stop. */
  lemma StoredBelow(queue: Queue, readPosition: nat, gaps: seq<Gap>, live: set<nat>, bytes: ByteMap, frame: Frame,
                    f: Frame, sent: seq<Byte>, k: nat)
    requires Tiled(queue, readPosition, live, bytes) && Complement(gaps, bytes) && Stretch(gaps, bytes, frame, f)
    requires k in live && AllFrom(bytes, queue[k].End(), |sent|) && f.End() <= |sent|
    ensures f.End() <= k
  {
    assert f.End() - 1 !in bytes;
    assert !Covers(queue[k], f.End() - 1);
  }

  /** A frame that is not marked last leaves the first mark alone. */
  lemma MarkKept(queue: Queue, gaps: seq<Gap>, live: set<nat>, bytes: ByteMap, frame: Frame, f: Frame,
                 queue': Queue, live': set<nat>, bytes': ByteMap, k: nat)
    requires Takes(queue, gaps, live, bytes, frame, f, queue', live', bytes') && !frame.fin
    requires live <= queue.Keys && live' <= queue'.Keys && FirstMark(queue, live, k) && f.End() <= k
    ensures FirstMark(queue', live', k) && queue'[k] == queue[k]
  {
  }

  /** An overtaken frame becomes the first that is marked last. */
  lemma MarkMoved(queue: Queue, gaps: seq<Gap>, live: set<nat>, bytes: ByteMap, frame: Frame, f: Frame,
                  queue': Queue, live': set<nat>, bytes': ByteMap)
    requires Takes(queue, gaps, live, bytes, frame, f, queue', live', bytes') && frame.fin
    requires live <= queue.Keys && live' <= queue'.Keys && forall l :: l in live && queue[l].fin ==> f.offset <= l
    ensures FirstMark(queue', live', f.offset) && queue'[f.offset] == f
  {
  }

  lemma MarksAbove(queue: Queue, readPosition: nat, gaps: seq<Gap>, live: set<nat>, bytes: ByteMap, frame: Frame,
                   f: Frame, sent: seq<Byte>)
    requires Tiled(queue, readPosition, live, bytes) && Complement(gaps, bytes) && Stretch(gaps, bytes, frame, f)
    requires EndsRight(queue, sent) && f.End() <= |sent|
    ensures forall l :: l in live && queue[l].fin ==> f.offset <= l
  {
    forall l | l in live && queue[l].fin
      ensures f.offset <= l
    {
      assert f.offset !in bytes && !Covers(queue[l], f.offset);
    }
  }

  /** The prospect after a frame with new bytes that was not overtaken. */
  lemma InTime(early: Option<nat>, queue: Queue, readPosition: nat, gaps: seq<Gap>, live: set<nat>, bytes: ByteMap,
               frame: Frame, f: Frame, queue': Queue, live': set<nat>, bytes': ByteMap, sent: seq<Byte>, ended: bool,
               at: nat)
    requires Tiled(queue, readPosition, live, bytes) && Prospect(early, queue, live, bytes, sent, ended, false, at)
    requires Complement(gaps, bytes) && IsSlice(sent, ended, frame) && !Overtaken(bytes, frame, sent)
    requires Takes(queue, gaps, live, bytes, frame, f, queue', live', bytes') && frame.data != []
             && !Known(bytes, frame)
    requires live' <= queue'.Keys
    ensures Prospect(early, queue', live', bytes', sent, ended, false, at)
  {
    if early.Some? {
      var e := early.value;
      assert |sent| - 1 in bytes;
      var k :| FirstMark(queue, live, k) && queue[k].End() == e;
      StoredBelow(queue, readPosition, gaps, live, bytes, frame, f, sent, k);
      MarkKept(queue, gaps, live, bytes, frame, f, queue', live', bytes', k);
    } else {
      EndsStayRight(queue, gaps, live, bytes, frame, f, queue', live', bytes', sent, ended);
    }
  }

  /** The prospect after an overtaken frame: reading ends behind the last byte that was missing. */
  lemma TooLate(early: Option<nat>, queue: Queue, readPosition: nat, gaps: seq<Gap>, live: set<nat>, bytes: ByteMap,
                frame: Frame, f: Frame, queue': Queue, live': set<nat>, bytes': ByteMap, sent: seq<Byte>, ended: bool,
                at: nat)
    requires Tiled(queue, readPosition, live, bytes) && Prospect(early, queue, live, bytes, sent, ended, false, at)
    requires Complement(gaps, bytes) && IsSlice(sent, ended, frame) && Overtaken(bytes, frame, sent)
    requires Takes(queue, gaps, live, bytes, frame, f, queue', live', bytes') && at <= f.offset
    requires live' <= queue'.Keys
    ensures Prospect(Some(f.End()), queue', live', bytes', sent, ended, false, at)
    ensures f.End() - 1 !in bytes && AllFrom(bytes, f.End(), |sent|)
  {
    LastMark(gaps, bytes, frame, f, sent);
    forall x: nat {:trigger x in bytes} | f.End() <= x < |sent|
      ensures x in bytes
    {
      assert Covers(frame, x) && !Covers(f, x);
    }
    if early.Some? {
      var k :| FirstMark(queue, live, k) && queue[k].End() == early.value;
      StoredBelow(queue, readPosition, gaps, live, bytes, frame, f, sent, k);
    } else {
      MarksAbove(queue, readPosition, gaps, live, bytes, frame, f, sent);
    }
    MarkMoved(queue, gaps, live, bytes, frame, f, queue', live', bytes');
  }

  /** Once reading has finished, all bytes of the stream have arrived. */
  lemma FinishedKnows(early: Option<nat>, queue: Queue, readPosition: nat, gaps: seq<Gap>, live: set<nat>,
                      bytes: ByteMap, frame: Frame, sent: seq<Byte>, ended: bool)
    requires Consistent(queue, readPosition, gaps, live, bytes) && |sent| <= MAX_BYTE_COUNT
             && IsSlice(sent, ended, frame)
    requires Prospect(early, queue, live, bytes, sent, ended, true, readPosition)
    ensures Known(bytes, frame)
  {
    forall x: nat | Covers(frame, x)
      ensures x in bytes
    {
      if Missing(gaps, x) {
        AtBelowMissing(queue, readPosition, gaps, live, bytes, readPosition, x);
      }
    }
  }

  /** The prospect after a read. */
  lemma ReadOn(early: Option<nat>, queue: Queue, live: set<nat>, bytes: ByteMap, sent: seq<Byte>, ended: bool, at: nat,
               queue': Queue, readPosition': nat, gaps: seq<Gap>, live': set<nat>, finished': bool, at': nat)
    requires live <= queue.Keys && Prospect(early, queue, live, bytes, sent, ended, false, at)
    requires Consistent(queue', readPosition', gaps, live', bytes) && Drains(queue, readPosition', finished', queue')
    requires Passes(queue, live, readPosition', finished', at', live')
    requires finished' ==> HasLast(queue, live, at') && readPosition' == at'
    requires at' == readPosition' || (readPosition' in queue' && at' < queue'[readPosition'].End())
    ensures Prospect(early, queue', live', bytes, sent, ended, finished', at')
  {
    if early.Some? {
      var k :| FirstMark(queue, live, k) && queue[k].End() == early.value;
      if finished' {
        var l :| l in queue && queue[l].fin && queue[l].End() == at' && (queue[l].data == [] || l in live);
      } else {
        assert k in live';
        HeadIsLive(queue', readPosition', gaps, live', bytes);
        assert FirstMark(queue', live', k);
      }
    }
  }

  // ------------------------------------------------------ that reading will end

  ghost predicate Marked(delivered: set<Frame>) {
    exists f :: f in delivered && f.fin
  }

  /** Only a delivered mark ends the reading. If no frame was overtaken and one that is marked last was delivered, the
      mark waits at the end of the stream until it is read. */
  ghost predicate MarkWaits(early: Option<nat>, marked: bool, finished: bool, queue: Queue, live: set<nat>, end: nat) {
    match early
    case None => MarksEnd(queue, marked) && (finished ==> marked) && (marked && !finished ==> HasLast(queue, live, end))
    case Some(_) => true
  }

  /** A frame that is marked last and has nothing new was preceded by another mark. */
  lemma MarkedBefore(bytes: ByteMap, sent: seq<Byte>, ended: bool, ending: Ending, delivered: set<Frame>, frame: Frame)
    requires Faithful(bytes, sent, delivered) && AllOf(sent, ended, ending, delivered + {frame})
    requires frame.fin && frame.data != [] && Known(bytes, frame)
    ensures Marked(delivered)
  {
    assert frame in delivered + {frame} && Covers(frame, |sent| - 1) && Arrived(delivered, |sent| - 1);
    var g :| g in delivered && Covers(g, |sent| - 1);
    assert g in delivered + {frame} && g.fin;
  }

  /** What is stored leaves the mark at the end of the stream alone. */
  lemma EndMarkKept(queue: Queue, readPosition: nat, gaps: seq<Gap>, live: set<nat>, bytes: ByteMap, frame: Frame,
                    f: Frame, queue': Queue, live': set<nat>, bytes': ByteMap, end: nat)
    requires Tiled(queue, readPosition, live, bytes) && OthersUnreachable(queue, readPosition, live, bytes)
    requires Complement(gaps, bytes) && Takes(queue, gaps, live, bytes, frame, f, queue', live', bytes')
    requires HasLast(queue, live, end) && f.End() <= end
    ensures HasLast(queue', live', end)
  {
    var k :| k in queue && queue[k].fin && queue[k].End() == end && (queue[k].data == [] || k in live);
    KeyArrived(queue, readPosition, live, bytes, k);
    assert f.End() - 1 !in bytes && !Covers(queue[k], f.End() - 1);
    assert k in queue' && queue'[k] == queue[k];
  }

  lemma ReceiveMark(early: Option<nat>, queue: Queue, readPosition: nat, gaps: seq<Gap>, live: set<nat>,
                    bytes: ByteMap, frame: Frame, f: Frame, queue': Queue, live': set<nat>, bytes': ByteMap,
                    sent: seq<Byte>, ended: bool, ending: Ending, delivered: set<Frame>, finished: bool,
                    early': Option<nat>)
    requires Consistent(queue, readPosition, gaps, live, bytes) && Faithful(bytes, sent, delivered)
    requires AllOf(sent, ended, ending, delivered + {frame}) && Verdict(bytes, frame, sent, early, early')
    requires Receives(queue, gaps, live, bytes, frame, f, queue', live', bytes')
    requires MarkWaits(early, Marked(delivered), finished, queue, live, |sent|)
    ensures MarkWaits(early', Marked(delivered + {frame}), finished, queue', live', |sent|)
  {
    assert frame in delivered + {frame};
    if Marked(delivered) {
      var g :| g in delivered && g.fin;
      assert g in delivered + {frame};
    }
    if early'.None? && Marked(delivered + {frame}) && !finished {
      if frame.data == [] {
        assert queue'[frame.offset] == frame;
        if !frame.fin {
          assert false;
        }
      } else if Known(bytes, frame) {
        if frame.fin {
          MarkedBefore(bytes, sent, ended, ending, delivered, frame);
        }
      } else if frame.fin {
        LastMark(gaps, bytes, frame, f, sent);
        assert f.offset in live' && queue'[f.offset] == f;
      } else {
        EndMarkKept(queue, readPosition, gaps, live, bytes, frame, f, queue', live', bytes', |sent|);
      }
    }
  }

  /** A mark that waits is still there after a read, unless it has ended the reading. */
  lemma ReadMark(early: Option<nat>, marked: bool, queue: Queue, live: set<nat>, end: nat, queue': Queue,
                 readPosition': nat, live': set<nat>, finished': bool, at': nat)
    requires MarkWaits(early, marked, false, queue, live, end) && at' <= end && readPosition' <= at'
    requires Drains(queue, readPosition', finished', queue')
    requires Passes(queue, live, readPosition', finished', at', live')
    requires (forall k :: k in queue ==> queue[k].offset == k) && live' <= queue'.Keys
    requires finished' ==> HasLast(queue, live, at')
    ensures MarkWaits(early, marked, finished', queue', live', end)
  {
    if early.None? && marked && !finished' {
      var k :| k in queue && queue[k].fin && queue[k].End() == end && (queue[k].data == [] || k in live);
      assert k in queue' && queue'[k] == queue[k];
    }
  }

  /** Reading that has come to a mark finds it at once, or has read it. */
  lemma MarkAtEnd(queue: Queue, readPosition: nat, gaps: seq<Gap>, live: set<nat>, bytes: ByteMap, at: nat)
    requires Consistent(queue, readPosition, gaps, live, bytes) && HasLast(queue, live, at)
    requires at == readPosition || (readPosition in queue && readPosition < at < queue[readPosition].End())
    ensures at in queue && queue[at].data == []
  {
    var k :| k in queue && queue[k].fin && queue[k].End() == at && (queue[k].data == [] || k in live);
    KeyArrived(queue, readPosition, live, bytes, k);
    HeadIsLive(queue, readPosition, gaps, live, bytes);
  }

  lemma KeysAreOffsets(queue: Queue, readPosition: nat, live: set<nat>, bytes: ByteMap)
    requires Tiled(queue, readPosition, live, bytes) && OthersUnreachable(queue, readPosition, live, bytes)
    ensures forall k :: k in queue ==> queue[k].offset == k
  {
    forall k | k in queue
      ensures queue[k].offset == k
    {
      KeyArrived(queue, readPosition, live, bytes, k);
    }
  }

  /** Where reading stands that has not finished: before an early stop, and at the end of the stream only if the mark is
      an empty frame that comes next. */
  lemma AtEnd(early: Option<nat>, marked: bool, queue: Queue, readPosition: nat, gaps: seq<Gap>, live: set<nat>,
              bytes: ByteMap, sent: seq<Byte>, ended: bool, finished: bool, at: nat)
    requires Consistent(queue, readPosition, gaps, live, bytes)
    requires Prospect(early, queue, live, bytes, sent, ended, finished, at)
    requires MarkWaits(early, marked, finished, queue, live, |sent|)
    requires at == readPosition || (readPosition in queue && readPosition < at < queue[readPosition].End())
    ensures early.Some? && !finished ==> at < early.value
    ensures early.None? && marked && !finished && at == |sent| ==> at in queue
  {
    if early.Some? && !finished {
      BeforeStop(queue, readPosition, gaps, live, bytes, at, early.value);
    }
    if early.None? && marked && !finished && at == |sent| {
      MarkAtEnd(queue, readPosition, gaps, live, bytes, at);
    }
  }

  /** Reading that is bound to stop early does not get that far without stopping. */
  lemma BeforeStop(queue: Queue, readPosition: nat, gaps: seq<Gap>, live: set<nat>, bytes: ByteMap, at: nat, e: nat)
    requires Consistent(queue, readPosition, gaps, live, bytes) && StopsAt(queue, live, e) && at <= e
    requires at == readPosition || (readPosition in queue && readPosition < at < queue[readPosition].End())
    ensures at < e
  {
    var k :| FirstMark(queue, live, k) && queue[k].End() == e;
    HeadIsLive(queue, readPosition, gaps, live, bytes);
  }

  lemma LiveBelow(queue: Queue, readPosition: nat, live: set<nat>, bytes: ByteMap, sent: seq<Byte>,
                  delivered: set<Frame>)
    requires Tiled(queue, readPosition, live, bytes) && Faithful(bytes, sent, delivered)
    ensures forall k :: k in live ==> k < |sent|
  {
    forall k | k in live
      ensures k < |sent|
    {
      assert Covers(queue[k], k) && k in bytes;
    }
  }

  class Connection {
    const sender: SendStream
    const receiver: ReceiveStream
    /** The receiver has reported an error and the connection is closed. */
    var broken: bool
    /** The emitted frames that have reached the receiver. */
    ghost var delivered: set<Frame>
    /** Everything that Read has returned. */
    ghost var output: seq<Byte>
    /** The arguments of all calls of Write, in a row. */
    ghost var offered: seq<Byte>
    /** How many bytes were dropped by a Write that found an earlier one unfinished. */
    ghost var dropped: nat
    /** Where reading will end, if some frame was overtaken. */
    ghost var early: Option<nat>

    ghost predicate Valid()
      reads this, sender, receiver, receiver.frameQueue
    {
      && sender.Valid() && delivered <= sender.emitted
      && |sender.written| + dropped == |offered| && (dropped == 0 ==> sender.written == offered)
      && output <= sender.sent
      && (early.Some? ==> |output| <= early.value < |sender.sent| && sender.finSent)
      && (!broken ==>
            && receiver.Valid() && receiver.readOffset == |output|
            && Faithful(receiver.frameQueue.bytes, sender.sent, delivered)
            && Prospect(early, receiver.frameQueue.queuedFrames, receiver.frameQueue.live, receiver.frameQueue.bytes,
                        sender.sent, sender.finSent, receiver.finishedReading, |output|)
            && MarkWaits(early, Marked(delivered), receiver.finishedReading, receiver.frameQueue.queuedFrames,
                         receiver.frameQueue.live, |sender.sent|))
    }

    constructor ()
      ensures Valid() && !broken && delivered == {} && output == [] && offered == [] && dropped == 0 && early == None
      ensures sender.written == sender.sent == sender.dataForWriting == [] && sender.emitted == {}
              && sender.retransmissionQueue == []
      ensures !sender.finishedWriting && !sender.finSent && |receiver.frameQueue.gaps| == 1
      ensures fresh(sender) && fresh(receiver) && fresh(receiver.frameQueue)
    {
      sender := new SendStream();
      receiver := new ReceiveStream();
      broken, delivered, output, offered, dropped, early := false, {}, [], [], 0, None;
    }

    /** The application hands over data. */
    method Write(p: seq<Byte>) returns (ok: bool)
      requires Valid()
      modifies sender`dataForWriting, sender`written, this`offered, this`dropped
      ensures Valid() && ok == !sender.finishedWriting
      ensures if ok && p != []
              then sender.written == sender.sent + p && sender.dataForWriting == p && offered == old(offered) + p
              else sender.written == old(sender.written) && sender.dataForWriting == old(sender.dataForWriting)
                   && offered == old(offered)
      ensures dropped == old(dropped) + if ok && p != [] then |old(sender.dataForWriting)| else 0
    {
      ghost var pending := sender.dataForWriting;
      ok := sender.Write(p);
      if ok && p != [] {
        offered, dropped := offered + p, dropped + |pending|;
      }
    }

    method Close()
      requires Valid()
      modifies sender`finishedWriting
      ensures Valid() && sender.finishedWriting
    {
      sender.Close();
    }

    /** The framer is asked for a frame of fresh data. What was written stays what it is. */
    method Send(maxBytes: nat, header: Frame -> nat, window: nat) returns (res: Option<Frame>)
      requires Valid()
      modifies sender`dataForWriting, sender`writeOffset, sender`finSent, sender`sent, sender`emitted, sender`ending
      ensures Valid() && sender.emitted == old(sender.emitted) + (if res.Some? then {res.value} else {})
      ensures Emits(old(sender.sent), old(sender.dataForWriting), sender.finishedWriting, old(sender.finSent),
                    Room(maxBytes, header(Frame(|old(sender.sent)|, [], false)), old(sender.dataForWriting) != [],
                         window),
                    res, sender.sent, sender.dataForWriting, sender.finSent)
    {
      ghost var before := sender.sent;
      res := sender.PopNormalFrame(maxBytes, header, window);
      if res.Some? && !broken {
        FaithfulGrows(receiver.frameQueue.bytes, before, res.value.data, delivered);
        assert !Marked(delivered) by {
          assert forall f :: f in delivered ==> IsSlice(before, false, f);
        }
      }
    }

    /** The packet of a frame is taken to be lost. */
    method Requeue(frame: Frame)
      requires Valid() && frame in sender.emitted
      modifies sender`retransmissionQueue
      ensures Valid() && sender.retransmissionQueue == old(sender.retransmissionQueue) + [frame]
    {
      sender.AddFrameForRetransmission(frame);
    }

    /** The framer is asked for frames to send again. */
    method Resend(maxLen: nat, header: Frame -> nat) returns (res: seq<Frame>, length: nat)
      requires Valid()
      modifies sender`retransmissionQueue, sender`emitted
      ensures Valid() && sender.emitted == old(sender.emitted) + Members(res)
      ensures Resplit(old(sender.retransmissionQueue), res, sender.retransmissionQueue)
      ensures length == Weight(old(sender.retransmissionQueue), res, header) <= maxLen
      ensures sender.retransmissionQueue != [] ==> length + header(sender.retransmissionQueue[0]) >= maxLen
      ensures res + sender.retransmissionQueue == old(sender.retransmissionQueue) || length == maxLen
    {
      res, length := sender.PopFramesForRetransmission(maxLen, header);
    }

    /** An emitted frame reaches the receiver. Reading will end too early from now on exactly if the frame was
        overtaken: then it ends behind the last byte of the frame that was missing. */
    method Deliver(frame: Frame, allowed: bool)
      requires Valid() && !broken && frame in sender.emitted && |sender.sent| <= MAX_BYTE_COUNT
      modifies this`broken, this`delivered, this`early
      modifies receiver.frameQueue`queuedFrames, receiver.frameQueue`gaps, receiver.frameQueue`live,
               receiver.frameQueue`bytes
      ensures Valid()
      ensures broken ==> !allowed || frame.End() == MAX_BYTE_COUNT
                         || |old(receiver.frameQueue.gaps)| >= MAX_STREAM_FRAME_SORTER_GAPS
      ensures !broken ==> allowed && (frame.data == [] || frame.End() < MAX_BYTE_COUNT)
      ensures !broken ==> delivered == old(delivered) + {frame}
                          && |receiver.frameQueue.gaps| <= |old(receiver.frameQueue.gaps)| + 1
      ensures broken ==> early == old(early)
      ensures !broken ==> Verdict(old(receiver.frameQueue.bytes), frame, sender.sent, old(early), early)
    {
      var ok;
      ghost var verdict;
      ok, verdict := HandOver(frame, allowed);
      broken := !ok;
      if ok {
        delivered, early := delivered + {frame}, verdict;
      }
    }

    method HandOver(frame: Frame, allowed: bool) returns (ok: bool, ghost verdict: Option<nat>)
      requires Valid() && !broken && frame in sender.emitted && |sender.sent| <= MAX_BYTE_COUNT
      modifies receiver.frameQueue`queuedFrames, receiver.frameQueue`gaps, receiver.frameQueue`live,
               receiver.frameQueue`bytes
      ensures !ok ==> !allowed || frame.End() == MAX_BYTE_COUNT
                      || |old(receiver.frameQueue.gaps)| >= MAX_STREAM_FRAME_SORTER_GAPS
      ensures ok ==> allowed && (frame.data == [] || frame.End() < MAX_BYTE_COUNT)
      ensures ok ==> receiver.Valid() && |receiver.frameQueue.gaps| <= |old(receiver.frameQueue.gaps)| + 1
      ensures ok ==> Faithful(receiver.frameQueue.bytes, sender.sent, delivered + {frame})
      ensures ok ==> Prospect(verdict, receiver.frameQueue.queuedFrames, receiver.frameQueue.live,
                              receiver.frameQueue.bytes, sender.sent, sender.finSent, receiver.finishedReading,
                              |output|)
      ensures ok && verdict.Some? ==> |output| <= verdict.value < |sender.sent| && sender.finSent
      ensures ok ==> MarkWaits(verdict, Marked(delivered + {frame}), receiver.finishedReading,
                               receiver.frameQueue.queuedFrames, receiver.frameQueue.live, |sender.sent|)
      ensures ok ==> Verdict(old(receiver.frameQueue.bytes), frame, sender.sent, early, verdict)
    {
      ghost var queue := receiver.frameQueue;
      verdict := early;
      LiveBelow(queue.queuedFrames, queue.readPosition, queue.live, queue.bytes, sender.sent, delivered);
      ghost var before, gaps, live, bytes := queue.queuedFrames, queue.gaps, queue.live, queue.bytes;
      ghost var f;
      ok, f := receiver.AddStreamFrame(frame, allowed);
      if ok {
        verdict := HandedOver(early, before, queue.readPosition, gaps, live, bytes, frame, f, queue.queuedFrames,
                              queue.live, queue.bytes, sender.sent, sender.finSent, sender.ending, delivered,
                              receiver.finishedReading, |output|);
      }
    }

    /** What is read continues the output with the bytes that were written, up to the first byte that has not
        arrived. When the end of the stream is reported, everything that was written has been read if and only if no
        frame was overtaken. And it is reported: as soon as all that was written has been read and there is room for
        more, if a frame marked last has arrived; or where an overtaken frame makes reading stop. */
    method Read(size: nat) returns (p: seq<Byte>, status: ReadStatus)
      requires Valid() && !broken
      modifies this`output, receiver, receiver.frameQueue
      ensures Valid() && !broken && output == old(output) + p && |p| <= size
      ensures output <= sender.written
      ensures status.Full? ==> |p| == size
      ensures status.Short? || status.Blocked? ==> !Arrived(delivered, |output|)
      ensures status.EndOfStream? <==> receiver.finishedReading
      ensures status.EndOfStream? ==> sender.finishedWriting && (output == sender.written <==> early.None?)
      ensures early.Some? ==> (status.EndOfStream? <==> |output| == early.value)
      ensures early.None? && output == sender.written && |p| < size ==>
                (status.EndOfStream? <==> Marked(delivered))
    {
      ghost var queue := receiver.frameQueue;
      ghost var before, live, finished, at := queue.queuedFrames, queue.live, receiver.finishedReading, |output|;
      KeysAreOffsets(before, queue.readPosition, live, queue.bytes);
      p, status := receiver.Read(size);
      SpelledFromSent(queue.bytes, sender.sent, delivered, output, p);
      output := output + p;
      if !finished {
        ReadOn(early, before, live, queue.bytes, sender.sent, sender.finSent, at,
               queue.queuedFrames, queue.readPosition, queue.gaps, queue.live, receiver.finishedReading, |output|);
        ReadMark(early, Marked(delivered), before, live, |sender.sent|, queue.queuedFrames, queue.readPosition,
                 queue.live, receiver.finishedReading, |output|);
      }
      AtEnd(early, Marked(delivered), queue.queuedFrames, queue.readPosition, queue.gaps, queue.live, queue.bytes,
            sender.sent, sender.finSent, receiver.finishedReading, |output|);
    }
  }

  /** All that a received frame means for the connection. */
  lemma HandedOver(early: Option<nat>, queue: Queue, readPosition: nat, gaps: seq<Gap>, live: set<nat>,
                   bytes: ByteMap, frame: Frame, f: Frame, queue': Queue, live': set<nat>, bytes': ByteMap,
                   sent: seq<Byte>, ended: bool, ending: Ending, delivered: set<Frame>, finished: bool, at: nat)
    returns (early': Option<nat>)
    requires Consistent(queue, readPosition, gaps, live, bytes) && |sent| <= MAX_BYTE_COUNT
    requires Prospect(early, queue, live, bytes, sent, ended, finished, at) && (finished ==> at == readPosition)
    requires at == readPosition || (readPosition in queue && at < queue[readPosition].End())
    requires Receives(queue, gaps, live, bytes, frame, f, queue', live', bytes') && live' <= queue'.Keys
    requires forall k :: k in live ==> k < |sent|
    requires Faithful(bytes, sent, delivered) && AllOf(sent, ended, ending, delivered + {frame})
    requires MarkWaits(early, Marked(delivered), finished, queue, live, |sent|)
    ensures Prospect(early', queue', live', bytes', sent, ended, finished, at)
    ensures Verdict(bytes, frame, sent, early, early') && Faithful(bytes', sent, delivered + {frame})
    ensures MarkWaits(early', Marked(delivered + {frame}), finished, queue', live', |sent|)
  {
    assert frame in delivered + {frame};
    ReceivesAbsorbs(queue, gaps, live, bytes, frame, f, queue', live', bytes');
    AbsorbFaithful(bytes, sent, ended, delivered, frame, bytes');
    early' := ReceiveProspect(early, queue, readPosition, gaps, live, bytes, frame, f, queue', live', bytes', sent,
                              ended, finished, at);
    ReceiveMark(early, queue, readPosition, gaps, live, bytes, frame, f, queue', live', bytes', sent, ended, ending,
                delivered, finished, early');
  }

  /** The prospect after a frame was received. */
  lemma ReceiveProspect(early: Option<nat>, queue: Queue, readPosition: nat, gaps: seq<Gap>, live: set<nat>,
                        bytes: ByteMap, frame: Frame, f: Frame, queue': Queue, live': set<nat>, bytes': ByteMap,
                        sent: seq<Byte>, ended: bool, finished: bool, at: nat) returns (early': Option<nat>)
    requires Consistent(queue, readPosition, gaps, live, bytes) && |sent| <= MAX_BYTE_COUNT
             && IsSlice(sent, ended, frame)
    requires Prospect(early, queue, live, bytes, sent, ended, finished, at) && (finished ==> at == readPosition)
    requires at == readPosition || (readPosition in queue && at < queue[readPosition].End())
    requires Receives(queue, gaps, live, bytes, frame, f, queue', live', bytes') && live' <= queue'.Keys
    requires forall k :: k in live ==> k < |sent|
    ensures Prospect(early', queue', live', bytes', sent, ended, finished, at)
    ensures Verdict(bytes, frame, sent, early, early')
  {
    early' := early;
    if finished {
      FinishedKnows(early, queue, readPosition, gaps, live, bytes, frame, sent, ended);
    }
    if frame.data != [] && !Known(bytes, frame) {
      AtBelowMissing(queue, readPosition, gaps, live, bytes, at, f.offset);
      if Overtaken(bytes, frame, sent) {
        TooLate(early, queue, readPosition, gaps, live, bytes, frame, f, queue', live', bytes', sent, ended, at);
        early' := Some(f.End());
      } else {
        InTime(early, queue, readPosition, gaps, live, bytes, frame, f, queue', live', bytes', sent, ended, at);
      }
    } else if frame.data == [] {
      EmptyKept(early, queue, live, bytes, frame, queue', sent, ended, finished, at);
    }
  }

  lemma EmptyKept(early: Option<nat>, queue: Queue, live: set<nat>, bytes: ByteMap, frame: Frame, queue': Queue,
                  sent: seq<Byte>, ended: bool, finished: bool, at: nat)
    requires live <= queue.Keys && Prospect(early, queue, live, bytes, sent, ended, finished, at)
    requires IsSlice(sent, ended, frame) && frame.data == [] && queue' == queue[frame.offset := frame]
    requires forall k :: k in live ==> k < |sent|
    ensures Prospect(early, queue', live, bytes, sent, ended, finished, at)
  {
    if early.Some? && !finished {
      var k :| FirstMark(queue, live, k) && queue[k].End() == early.value;
      assert FirstMark(queue', live, k);
    }
  }

  /** Reading does not always end where the stream ends. Four bytes are written and sent in one frame; when that is
      taken to be lost, it is sent again in two parts; the second part arrives before the frame does. Three bytes are
      read, and then the end is reported. */
  method PrematureEnd(data: seq<Byte>) returns (p: seq<Byte>, status: ReadStatus)
    requires |data| == 4
    ensures p == data[..3] && status == EndOfStream
  {
    var c := new Connection();
    var frame, second := SendInParts(c, data);
    DeliverOvertaken(c, frame, second);
    p, status := ReadAll(c);
  }

  /** All four bytes have arrived, but a frame was overtaken. */
  method ReadAll(c: Connection) returns (p: seq<Byte>, status: ReadStatus)
    requires c.Valid() && !c.broken && c.output == [] && |c.sender.sent| == 4 && c.early == Some(3)
    requires forall x: nat :: x < 4 ==> Arrived(c.delivered, x)
    modifies c`output, c.receiver, c.receiver.frameQueue
    ensures p == c.sender.sent[..3] && status == EndOfStream
  {
    p, status := c.Read(10);
    assert |p| < 4 && Arrived(c.delivered, |p|);
    assert c.output == p && c.output == c.sender.sent[..|p|];
  }

  method DeliverOvertaken(c: Connection, frame: Frame, second: Frame)
    requires c.Valid() && !c.broken && c.delivered == {} && c.output == [] && |c.receiver.frameQueue.gaps| == 1
    requires frame in c.sender.emitted && second in c.sender.emitted && |c.sender.sent| == 4
    requires frame.offset == 0 && frame.End() == second.End() == 4 && second.offset == 3 && frame.fin
    modifies c`broken, c`delivered, c`early
    modifies c.receiver.frameQueue`queuedFrames, c.receiver.frameQueue`gaps, c.receiver.frameQueue`live,
             c.receiver.frameQueue`bytes
    ensures c.Valid() && !c.broken && c.early == Some(3) && forall x: nat :: x < 4 ==> Arrived(c.delivered, x)
  {
    c.Deliver(second, true);
    ghost var bytes := c.receiver.frameQueue.bytes;
    assert c.delivered == {second};
    OnlyLast(bytes, c.sender.sent, second);
    assert Covers(frame, 0) && 0 !in bytes && 2 !in bytes;
    c.Deliver(frame, true);
    forall x: nat | x < 4
      ensures Arrived(c.delivered, x)
    {
      assert Covers(frame, x);
    }
  }

  lemma OnlyLast(bytes: ByteMap, sent: seq<Byte>, second: Frame)
    requires Faithful(bytes, sent, {second}) && second.offset == 3 && second.End() == 4
    ensures forall x: nat :: x in bytes <==> x == 3
  {
    assert Covers(second, 3);
  }

  method SendInParts(c: Connection, data: seq<Byte>) returns (frame: Frame, second: Frame)
    requires c.Valid() && |data| == 4 && c.sender.written == c.sender.sent == c.sender.dataForWriting == []
    requires c.sender.retransmissionQueue == [] && !c.sender.finishedWriting && !c.sender.finSent
    modifies c.sender, c`offered, c`dropped
    ensures c.Valid() && frame in c.sender.emitted && second in c.sender.emitted && c.sender.sent == data
    ensures frame == Frame(0, data, true) && second == Frame(3, data[3..], true)
  {
    var ok := c.Write(data);
    c.Close();
    var header := (f: Frame) => 1;
    var whole := c.Send(100, header, 100);
    frame := whole.value;
    assert |frame.data| == 4 && frame.data == (frame.data + c.sender.dataForWriting)[..4] == data;
    c.Requeue(frame);
    assert c.sender.retransmissionQueue == [Frame(0, data, true)];
    var first, used := c.Resend(4, header);
    CutAtThree(data, first, c.sender.retransmissionQueue, header);
    var rest, all := c.Resend(10, header);
    Uncut(Frame(3, data[3..], true), rest, c.sender.retransmissionQueue, header);
    second := rest[0];
  }

  /** A frame of four bytes, in a packet that has room for three, is cut behind the third. */
  lemma CutAtThree(data: seq<Byte>, taken: seq<Frame>, left: seq<Frame>, header: Frame -> nat)
    requires |data| == 4 && (forall f :: header(f) == 1) && Resplit([Frame(0, data, true)], taken, left)
    requires Weight([Frame(0, data, true)], taken, header) <= 4
    requires left != [] ==> Weight([Frame(0, data, true)], taken, header) + header(left[0]) >= 4
    requires taken + left == [Frame(0, data, true)] || Weight([Frame(0, data, true)], taken, header) == 4
    ensures left == [Frame(3, data[3..], true)]
  {
    var queue := [Frame(0, data, true)];
    assert |taken| == 1 ==> taken[..0] == [];
    assert taken + left == queue ==> taken == [] || (taken == queue && left == []);
    if k :| SplitAt(queue, k, taken, left) {
      assert taken[0].data + left[0].data == data && |taken[0].data| == 3;
      assert left[0].data == data[3..];
    }
  }

  lemma Uncut(frame: Frame, taken: seq<Frame>, left: seq<Frame>, header: Frame -> nat)
    requires |frame.data| == 1 && (forall f :: header(f) == 1) && Resplit([frame], taken, left)
    requires left != [] ==> Weight([frame], taken, header) + header(left[0]) >= 10
    ensures taken == [frame]
  {
    assert |taken| == 1 ==> taken[..0] == [];
    assert taken + left == [frame] ==> taken == [] || taken == [frame];
    assert !exists k :: SplitAt([frame], k, taken, left);
  }
}
