/**
 The two sides of a stream. The receiver hands frames to the sorter and reads
 what has been reassembled. The sender cuts written data into frames, and queues
 frames of lost packets and cuts them again to fit.
 */
module StreamTransport {
  import opened Common
  import opened StreamGaps
  import opened StreamSorter

  datatype ReadStatus =
    | Full      // as many bytes as were asked for
    | Short     // fewer: the next byte has not arrived
    | Blocked   // none: the caller waits for the next byte
    | EndOfStream

  /** The bytes from position `from` on spell p. */
  ghost predicate Spells(bytes: ByteMap, from: nat, p: seq<Byte>) {
    forall x: nat {:trigger x in bytes} :: from <= x < from + |p| ==> x in bytes && bytes[x] == p[x - from]
  }

  lemma SpellsFrame(bytes: ByteMap, f: Frame, pos: nat, m: nat)
    requires Holds(bytes, f) && pos + m <= |f.data|
    ensures Spells(bytes, f.offset + pos, f.data[pos..pos + m])
  {
    forall x: nat {:trigger x in bytes} | f.offset + pos <= x < f.offset + pos + m
      ensures x in bytes && bytes[x] == f.data[pos..pos + m][x - f.offset - pos]
    {
      assert Covers(f, x);
    }
  }

  lemma SpellsBoth(bytes: ByteMap, from: nat, p: seq<Byte>, q: seq<Byte>)
    requires Spells(bytes, from, p) && Spells(bytes, from + |p|, q)
    ensures Spells(bytes, from, p + q)
  {
  }

  /** No frame is queued that was not queued before, and unless reading has finished none is gone from the read position
      on. */
  ghost predicate Drains(queue: Queue, readPosition: nat, finished: bool, queue': Queue) {
    && (forall k :: k in queue' ==> k in queue && queue'[k] == queue[k])
    && (forall k :: k in queue && k >= readPosition && !finished ==> k in queue')
  }

  /** The live frames from the read position on are still live; one that has been passed and is marked last ends where
      reading has stopped. */
  ghost predicate Passes(queue: Queue, live: set<nat>, readPosition: nat, finished: bool, readOffset: nat,
                         live': set<nat>) {
    && live' <= live <= queue.Keys
    && (forall k :: k in live && k >= readPosition ==> k in live')
    && (forall k :: k in live && k < readPosition && queue[k].fin ==> finished && queue[k].End() == readOffset)
  }

  lemma PopPasses(queue: Queue, readPosition: nat, live: set<nat>, bytes: ByteMap, finished: bool)
    requires Tiled(queue, readPosition, live, bytes) && readPosition in queue
             && queue[readPosition].offset == readPosition
    requires finished == queue[readPosition].fin && (queue[readPosition].data != [] ==> readPosition in live)
    requires queue[readPosition].data == [] ==> finished
    ensures Passes(queue, live, queue[readPosition].End(), finished, queue[readPosition].End(), live - {readPosition})
    ensures Drains(queue, queue[readPosition].End(), finished, queue - {readPosition})
    ensures finished ==> HasLast(queue, live, queue[readPosition].End())
  {
  }

  lemma PassesMore(queue: Queue, live: set<nat>, rp1: nat, live1: set<nat>, queue1: Queue, at1: nat,
                   rp2: nat, finished: bool, readOffset: nat, live2: set<nat>)
    requires Passes(queue, live, rp1, false, at1, live1) && Passes(queue1, live1, rp2, finished, readOffset, live2)
    requires Drains(queue, rp1, false, queue1) && rp1 <= rp2
    ensures Passes(queue, live, rp2, finished, readOffset, live2)
  {
  }

  /** Some live or empty frame that is marked last ends at the position. */
  ghost predicate HasLast(queue: Queue, live: set<nat>, end: nat) {
    exists k :: k in queue && queue[k].fin && queue[k].End() == end && (queue[k].data == [] || k in live)
  }

  class ReceiveStream {
    const frameQueue: FrameSorter
    var readOffset: nat
    var finishedReading: bool

    constructor ()
      ensures Valid() && fresh(frameQueue) && readOffset == 0 && !finishedReading
      ensures frameQueue.bytes == map[] && frameQueue.queuedFrames == map[] && frameQueue.readPosition == 0
              && frameQueue.live == {}
      ensures |frameQueue.gaps| == 1
    {
      frameQueue := new FrameSorter();
      readOffset, finishedReading := 0, false;
    }

    /** The next byte to read is in the head frame or starts it. */
    ghost predicate Valid()
      reads this, frameQueue
    {
      && frameQueue.Valid()
      && frameQueue.readPosition <= readOffset && (finishedReading ==> frameQueue.readPosition == readOffset)
      && (readOffset == frameQueue.readPosition
          || (frameQueue.readPosition in frameQueue.queuedFrames
              && readOffset < frameQueue.queuedFrames[frameQueue.readPosition].End()))
    }

    /** Copies bytes from the reassembled frames until the buffer is full, a byte is missing or the stream ends. */
    method Read(size: nat) returns (p: seq<Byte>, status: ReadStatus)
      requires Valid()
      modifies this, frameQueue
      ensures frameQueue.bytes == old(frameQueue.bytes) && frameQueue.gaps == old(frameQueue.gaps)
      ensures Valid() && |p| <= size
      ensures readOffset == old(readOffset) + |p|
      ensures Spells(frameQueue.bytes, old(readOffset), p)
      ensures status.Full? ==> |p| == size
      // only a missing byte makes a caller wait, and never one behind a mark that has come up
      ensures status.Short? || status.Blocked? ==>
                |p| < size && readOffset !in frameQueue.bytes && readOffset !in frameQueue.queuedFrames
      ensures status.Blocked? <==> p == [] && size > 0 && !finishedReading
      ensures status.EndOfStream? <==> finishedReading
      ensures old(finishedReading) ==> finishedReading && p == []
      ensures finishedReading && !old(finishedReading) ==>
                HasLast(old(frameQueue.queuedFrames), old(frameQueue.live), readOffset)
                && frameQueue.readPosition == readOffset
      ensures Drains(old(frameQueue.queuedFrames), frameQueue.readPosition, finishedReading, frameQueue.queuedFrames)
      ensures Passes(old(frameQueue.queuedFrames), old(frameQueue.live), frameQueue.readPosition, finishedReading,
                     readOffset, frameQueue.live)
    {
      p := [];
      if finishedReading {
        return p, EndOfStream;
      }
      while |p| < size
        invariant Valid() && |p| <= size && readOffset == old(readOffset) + |p| && !finishedReading
        invariant frameQueue.bytes == old(frameQueue.bytes) && frameQueue.gaps == old(frameQueue.gaps)
        invariant Spells(frameQueue.bytes, old(readOffset), p)
        invariant Drains(old(frameQueue.queuedFrames), frameQueue.readPosition, false, frameQueue.queuedFrames)
        invariant Passes(old(frameQueue.queuedFrames), old(frameQueue.live), frameQueue.readPosition, finishedReading,
                         readOffset, frameQueue.live)
        decreases size - |p|
      {
        ghost var queue, live, position, at := frameQueue.queuedFrames, frameQueue.live, frameQueue.readPosition,
            readOffset;
        var found, chunk := ReadHead(size - |p|);
        PassesMore(old(frameQueue.queuedFrames), old(frameQueue.live), position, live, queue, at,
                   frameQueue.readPosition, finishedReading, readOffset, frameQueue.live);
        SpellsBoth(frameQueue.bytes, old(readOffset), p, chunk);
        p := p + chunk;
        if !found {
          return p, if |p| > 0 then Short else Blocked;
        }
        if finishedReading {
          return p, EndOfStream;
        }
      }
      status := Full;
    }

    /** Reads from the head frame, if there is one, and removes it when it is used up. */
    method ReadHead(want: nat) returns (found: bool, chunk: seq<Byte>)
      requires Valid() && !finishedReading && want > 0
      modifies this, frameQueue`queuedFrames, frameQueue`readPosition, frameQueue`live
      ensures Valid() && readOffset == old(readOffset) + |chunk| && |chunk| <= want
              && old(frameQueue.readPosition) <= frameQueue.readPosition
      ensures Spells(frameQueue.bytes, old(readOffset), chunk)
      ensures !found ==> chunk == [] && !finishedReading && readOffset !in frameQueue.bytes
                         && readOffset !in frameQueue.queuedFrames
      ensures found && !finishedReading ==> chunk != []
      ensures finishedReading ==>
                HasLast(old(frameQueue.queuedFrames), old(frameQueue.live), readOffset)
                && frameQueue.readPosition == readOffset
      ensures Drains(old(frameQueue.queuedFrames), frameQueue.readPosition, finishedReading, frameQueue.queuedFrames)
      ensures Passes(old(frameQueue.queuedFrames), old(frameQueue.live), frameQueue.readPosition, finishedReading,
                     readOffset, frameQueue.live)
    {
      var head := frameQueue.Head();
      if head.None? {
        return false, [];
      }
      var frame := head.value;
      var pos := readOffset - frame.offset;
      var m := Min(want, |frame.data| - pos);
      chunk := frame.data[pos..pos + m];
      SpellsFrame(frameQueue.bytes, frame, pos, m);
      pos := pos + m;
      readOffset := readOffset + m;
      if pos >= |frame.data| {
        PopHead(frame);
      }
      found := true;
    }

    /** Removes a head frame that is used up; if it is marked last, reading is over. */
    method PopHead(frame: Frame)
      requires frameQueue.Valid() && !finishedReading && frameQueue.readPosition in frameQueue.queuedFrames
      requires frame == frameQueue.queuedFrames[frameQueue.readPosition]
               && readOffset == frame.End() == frameQueue.readPosition + |frame.data|
      requires if frame.data == [] then frame.fin else frameQueue.readPosition in frameQueue.live
      modifies `finishedReading, frameQueue`queuedFrames, frameQueue`readPosition, frameQueue`live
      ensures Valid() && finishedReading == frame.fin && frameQueue.readPosition == readOffset
      ensures finishedReading ==> HasLast(old(frameQueue.queuedFrames), old(frameQueue.live), readOffset)
      ensures Drains(old(frameQueue.queuedFrames), frameQueue.readPosition, finishedReading, frameQueue.queuedFrames)
      ensures Passes(old(frameQueue.queuedFrames), old(frameQueue.live), frameQueue.readPosition, finishedReading,
                     readOffset, frameQueue.live)
    {
      PopPasses(frameQueue.queuedFrames, frame.offset, frameQueue.live, frameQueue.bytes, frame.fin);
      var _ := frameQueue.Pop();
      if frame.fin {
        finishedReading := true;
      }
    }

    /** Hands a frame to the queue; a duplicate is not an error. `allowed` is the verdict of flow control. An empty
        frame that starts where queued data starts takes the place of that data, and nothing is claimed then. */
    method AddStreamFrame(frame: Frame, allowed: bool) returns (ok: bool, ghost f: Frame)
      requires Valid() && frame.End() <= MAX_BYTE_COUNT
      modifies frameQueue`queuedFrames, frameQueue`gaps, frameQueue`live, frameQueue`bytes
      ensures ok && (frame.data == [] ==> frame.offset !in old(frameQueue.live)) ==> Valid()
      ensures ok ==> |frameQueue.gaps| <= |old(frameQueue.gaps)| + 1
      ensures !ok ==> !allowed || (frame.data == [] && !frame.fin) || frame.End() == MAX_BYTE_COUNT
                      || |old(frameQueue.gaps)| >= MAX_STREAM_FRAME_SORTER_GAPS
      ensures ok ==> allowed && (frame.data != [] || frame.fin) && (frame.data == [] || frame.End() < MAX_BYTE_COUNT)
      ensures !allowed ==> unchanged(frameQueue)
      ensures ok ==> Receives(old(frameQueue.queuedFrames), old(frameQueue.gaps), old(frameQueue.live),
                              old(frameQueue.bytes), frame, f, frameQueue.queuedFrames, frameQueue.live,
                              frameQueue.bytes)
    {
      f := frame;
      if !allowed {
        return false, f;
      }
      ghost var queue, gaps, live, bytes := frameQueue.queuedFrames, frameQueue.gaps, frameQueue.live, frameQueue.bytes;
      HeadIsLive(queue, frameQueue.readPosition, gaps, live, bytes);
      var r;
      r, f := frameQueue.Push(frame);
      if r.Stored? && frame.data != [] {
        NotKnown(queue, gaps, live, bytes, frame, f, frameQueue.queuedFrames, frameQueue.live, frameQueue.bytes);
        if readOffset != frameQueue.readPosition {
          HeadKept(queue, frameQueue.readPosition, gaps, live, bytes, frame, f, frameQueue.queuedFrames,
                   frameQueue.live, frameQueue.bytes);
        }
      }
      ok := r.Stored? || r.Duplicate?;
    }
  }

  /** What an accepted frame does: an empty one is queued as it is, one without a new byte changes nothing, and of
      any other the stretch f from the first to the last missing byte is queued. */
  ghost predicate Receives(queue: Queue, gaps: seq<Gap>, live: set<nat>, bytes: ByteMap, frame: Frame, f: Frame,
                           queue': Queue, live': set<nat>, bytes': ByteMap) {
    if frame.data == [] then frame.fin && queue' == queue[frame.offset := frame] && live' == live && bytes' == bytes
    else if Known(bytes, frame) then queue' == queue && live' == live && bytes' == bytes
    else Takes(queue, gaps, live, bytes, frame, f, queue', live', bytes')
  }

  lemma NotKnown(queue: Queue, gaps: seq<Gap>, live: set<nat>, bytes: ByteMap, frame: Frame, f: Frame,
                 queue': Queue, live': set<nat>, bytes': ByteMap)
    requires Takes(queue, gaps, live, bytes, frame, f, queue', live', bytes') && Complement(gaps, bytes)
    ensures !Known(bytes, frame)
  {
    assert Covers(frame, f.offset) && f.offset !in bytes;
  }

  /** All bytes of the frame have arrived, and every byte is as it was or as in the frame. */
  ghost predicate Absorbs(bytes: ByteMap, frame: Frame, bytes': ByteMap) {
    forall x: nat {:trigger x in bytes'} ::
      && (x in bytes' <==> x in bytes || Covers(frame, x))
      && (x in bytes' ==>
            (x in bytes && bytes'[x] == bytes[x]) || (Covers(frame, x) && bytes'[x] == frame.data[x - frame.offset]))
  }

  lemma ReceivesAbsorbs(queue: Queue, gaps: seq<Gap>, live: set<nat>, bytes: ByteMap, frame: Frame, f: Frame,
                        queue': Queue, live': set<nat>, bytes': ByteMap)
    requires Receives(queue, gaps, live, bytes, frame, f, queue', live', bytes')
    ensures Absorbs(bytes, frame, bytes')
  {
    if frame.data != [] && !Known(bytes, frame) {
      StretchAbsorbs(gaps, bytes, frame, f);
    }
  }

  lemma StretchAbsorbs(gaps: seq<Gap>, bytes: ByteMap, frame: Frame, f: Frame)
    requires Stretch(gaps, bytes, frame, f)
    ensures Absorbs(bytes, frame, bytes + BytesOf(f))
  {
    var bytes' := bytes + BytesOf(f);
    forall x: nat {:trigger x in bytes'}
      ensures x in bytes' <==> x in bytes || Covers(frame, x)
      ensures x in bytes' ==>
                (x in bytes && bytes'[x] == bytes[x]) || (Covers(frame, x) && bytes'[x] == frame.data[x - frame.offset])
    {
      assert x in BytesOf(f) <==> Covers(f, x);
    }
  }

  /** Storing a frame leaves the head frame alone: what is stored lies above the first gap. */
  lemma HeadKept(queue: Queue, readPosition: nat, gaps: seq<Gap>, live: set<nat>, bytes: ByteMap, frame: Frame,
                 f: Frame, queue': Queue, live': set<nat>, bytes': ByteMap)
    requires Consistent(queue, readPosition, gaps, live, bytes)
    requires Takes(queue, gaps, live, bytes, frame, f, queue', live', bytes')
    requires readPosition in queue && readPosition < queue[readPosition].End()
    ensures readPosition in queue' && queue'[readPosition] == queue[readPosition]
  {
    HeadIsLive(queue, readPosition, gaps, live, bytes);
    assert f.offset != readPosition;
    var i :| 0 <= i < |gaps| && InGap(gaps[i], f.offset);
    assert i > 0 ==> gaps[0].end < gaps[i].start;
  }

  // ------------------------------------------------------------------ sending

  /** The frame holds the bytes of the stream at its place; if it is marked last, it ends the stream. */
  ghost predicate IsSlice(stream: seq<Byte>, ended: bool, f: Frame) {
    && f.End() <= |stream| && f.data == stream[f.offset..f.End()]
    && (f.fin ==> ended && f.End() == |stream|) && (f.data == [] ==> f.fin)
  }

  /** How the end of the stream was marked: not yet, on a frame with data, or on an empty one. */
  datatype Ending = Open | WithData | Alone

  /** Frames with the last byte agree on whether they are marked last. */
  ghost predicate Tailed(stream: seq<Byte>, ending: Ending, f: Frame) {
    f.data != [] ==> if f.End() == |stream| then f.fin == ending.WithData? else !f.fin
  }

  /** How much data a frame may hold, given the packet size and the flow control window. */
  function Room(maxBytes: nat, headerLen: nat, pending: bool, window: nat): nat {
    if headerLen > maxBytes then 0
    else if pending then Min(maxBytes - headerLen, window)
    else maxBytes - headerLen
  }

  /** A frame is emitted exactly when there is room and something to say. It takes as much of the pending data as
      there is room for, and it is marked last if the stream is closed and nothing is left. */
  ghost predicate Emits(sent: seq<Byte>, pending: seq<Byte>, closed: bool, ended: bool, room: nat, res: Option<Frame>,
                        sent': seq<Byte>, pending': seq<Byte>, ended': bool) {
    && (res.Some? <==> room > 0 && (pending != [] || (closed && !ended)))
    && (res.None? ==> sent' == sent && pending' == pending && ended' == ended)
    && (res.Some? ==>
          && res.value.offset == |sent| && |res.value.data| == Min(room, |pending|)
          && res.value.data + pending' == pending && sent' == sent + res.value.data
          && res.value.fin == (closed && !ended && pending' == []) && ended' == (ended || res.value.fin))
  }

  class SendStream {
    var dataForWriting: seq<Byte>
    var writeOffset: nat
    var finishedWriting: bool
    var finSent: bool
    var retransmissionQueue: seq<Frame>
    /** The stream as the application has written it. */
    ghost var written: seq<Byte>
    /** All bytes sent so far, in order. */
    ghost var sent: seq<Byte>
    /** All frames emitted so far. */
    ghost var emitted: set<Frame>
    ghost var ending: Ending

    constructor ()
      ensures Valid() && written == sent == dataForWriting == [] && emitted == {} && retransmissionQueue == []
      ensures !finishedWriting && !finSent
    {
      dataForWriting, writeOffset, finishedWriting, finSent, retransmissionQueue := [], 0, false, false, [];
      written, sent, emitted, ending := [], [], {}, Open;
    }

    /** What has been sent and what is pending make up what was written, and every frame is a slice of it. */
    ghost predicate Valid()
      reads this
    {
      && writeOffset == |sent| && sent + dataForWriting == written
      && (finSent ==> finishedWriting && dataForWriting == []) && finSent == !ending.Open?
      && AllOf(sent, finSent, ending, emitted) && AllOf(sent, finSent, ending, Members(retransmissionQueue))
    }

    /** Hands over data; what a call that gave up has left behind is dropped. */
    method Write(p: seq<Byte>) returns (ok: bool)
      requires Valid()
      modifies `dataForWriting, `written
      ensures Valid() && ok == !finishedWriting
      ensures dataForWriting == if ok && p != [] then p else old(dataForWriting)
      ensures written == if ok && p != [] then sent + p else old(written)
      ensures ok && old(dataForWriting) == [] ==> written == old(written) + p
    {
      if finishedWriting {
        return false;
      }
      if |p| > 0 {
        dataForWriting := p;
        written := sent + p;
      }
      ok := true;
    }

    /** Nothing can be written from now on. */
    method Close()
      requires Valid()
      modifies `finishedWriting
      ensures Valid() && finishedWriting
    {
      finishedWriting := true;
    }

    method GetDataForWriting(maxBytes: nat) returns (ret: seq<Byte>)
      modifies `dataForWriting, `writeOffset
      ensures ret + dataForWriting == old(dataForWriting) && |ret| == Min(maxBytes, |old(dataForWriting)|)
      ensures writeOffset == old(writeOffset) + |ret|
    {
      if |dataForWriting| > maxBytes {
        ret := dataForWriting[..maxBytes];
        dataForWriting := dataForWriting[maxBytes..];
      } else {
        ret := dataForWriting;
        dataForWriting := [];
      }
      writeOffset := writeOffset + |ret|;
    }

    /** Emits a frame of fresh data, within the packet size and the flow control window. */
    method PopNormalFrame(maxBytes: nat, header: Frame -> nat, window: nat) returns (res: Option<Frame>)
      requires Valid()
      modifies `dataForWriting, `writeOffset, `finSent, `sent, `emitted, `ending
      ensures Valid() && emitted == old(emitted) + (if res.Some? then {res.value} else {})
      ensures Emits(old(sent), old(dataForWriting), finishedWriting, old(finSent),
                    Room(maxBytes, header(Frame(|old(sent)|, [], false)), old(dataForWriting) != [], window),
                    res, sent, dataForWriting, finSent)
    {
      var headerLen := header(Frame(writeOffset, [], false));
      if headerLen > maxBytes {
        return None;
      }
      var maxLen := maxBytes - headerLen;
      if |dataForWriting| != 0 {
        maxLen := Min(maxLen, window);
      }
      if maxLen == 0 {
        return None;
      }
      var offset := writeOffset;
      var data: seq<Byte> := [];
      if |dataForWriting| != 0 {
        data := GetDataForWriting(maxLen);
      }
      var shouldSendFin := finishedWriting && !finSent && |dataForWriting| == 0;
      if |data| == 0 && !shouldSendFin {
        return None;
      }
      res := Some(Frame(offset, data, shouldSendFin));
      Record(res.value);
    }

    /** Marks the stream as ended if the frame is the last, and notes what was sent. */
    method Record(frame: Frame)
      requires frame.offset == |sent| && writeOffset == frame.End() && sent + frame.data + dataForWriting == written
      requires (frame.fin ==> finishedWriting && dataForWriting == []) && (frame.data == [] ==> frame.fin)
      requires !finSent && ending.Open?
      requires AllOf(sent, finSent, ending, emitted) && AllOf(sent, finSent, ending, Members(retransmissionQueue))
      modifies `finSent, `sent, `emitted, `ending
      ensures Valid() && sent == old(sent) + frame.data && emitted == old(emitted) + {frame}
              && finSent == (old(finSent) || frame.fin)
    {
      if frame.fin {
        finSent := true;
        ending := if frame.data == [] then Alone else WithData;
      }
      sent := sent + frame.data;
      emitted := emitted + {frame};
      assert sent[frame.offset..frame.End()] == frame.data;
      AllGrow(old(sent), frame, ending, old(emitted));
      AllGrow(old(sent), frame, ending, Members(retransmissionQueue));
    }

    /** Queues the frame of a lost packet. */
    method AddFrameForRetransmission(frame: Frame)
      requires Valid() && frame in emitted
      modifies `retransmissionQueue
      ensures Valid() && retransmissionQueue == old(retransmissionQueue) + [frame]
    {
      retransmissionQueue := retransmissionQueue + [frame];
    }

    /** Takes the first frame off the retransmission queue, or as much of it as there is room for. */
    method PopOne(room: nat) returns (taken: Frame, split: bool)
      requires Valid() && |retransmissionQueue| > 0 && room > 0
      modifies `retransmissionQueue, `emitted
      ensures Valid() && emitted == old(emitted) + {taken} && |taken.data| <= room
      ensures !split ==> old(retransmissionQueue) == [taken] + retransmissionQueue
      ensures split ==> |retransmissionQueue| > 0 && retransmissionQueue[1..] == old(retransmissionQueue)[1..]
                        && Splits(old(retransmissionQueue)[0], taken, retransmissionQueue[0]) && |taken.data| == room
    {
      var frame := retransmissionQueue[0];
      var part, rest := MaybeSplitOffFrame(frame, room);
      if part.Some? {
        SplitSlices(sent, finSent, ending, frame, part.value, rest);
        retransmissionQueue := retransmissionQueue[0 := rest];
        taken, split := part.value, true;
      } else {
        retransmissionQueue := retransmissionQueue[1..];
        taken, split := frame, false;
      }
      emitted := emitted + {taken};
    }

    /** Takes frames off the retransmission queue while they fit. It stops when nothing is left or the next header
        does not fit; only the last frame taken may have been cut, and then it fills the packet. */
    method PopFramesForRetransmission(maxLen: nat, header: Frame -> nat) returns (res: seq<Frame>, currentLen: nat)
      requires Valid()
      modifies `retransmissionQueue, `emitted
      ensures Valid() && emitted == old(emitted) + Members(res)
      ensures Resplit(old(retransmissionQueue), res, retransmissionQueue)
      ensures currentLen == Weight(old(retransmissionQueue), res, header) <= maxLen
      ensures retransmissionQueue != [] ==> currentLen + header(retransmissionQueue[0]) >= maxLen
      ensures res + retransmissionQueue == old(retransmissionQueue) || currentLen == maxLen
    {
      res, currentLen := [], 0;
      ghost var all := retransmissionQueue;
      while |retransmissionQueue| > 0
        invariant Valid() && res + retransmissionQueue == all && emitted == old(emitted) + Members(res)
        invariant currentLen == Weight(all, res, header) <= maxLen
        decreases |retransmissionQueue|
      {
        var headerLen := header(retransmissionQueue[0]);
        if currentLen + headerLen >= maxLen {
          break;
        }
        currentLen := currentLen + headerLen;
        ghost var queue := retransmissionQueue;
        var taken, split := PopOne(maxLen - currentLen);
        TakeMore(all, res, queue, taken, split, retransmissionQueue, header);
        MembersMore(old(emitted), res, taken);
        res := res + [taken];
        currentLen := currentLen + |taken.data|;
        if split {
          return;
        }
      }
    }
  }

  ghost function Members(res: seq<Frame>): set<Frame> {
    set f | f in res
  }

  lemma MembersMore(emitted: set<Frame>, res: seq<Frame>, taken: Frame)
    ensures emitted + Members(res) + {taken} == emitted + Members(res + [taken])
  {
  }

  /** The bytes of a packet that the first frames of the queue, or parts of them, take up with their headers. */
  ghost function Weight(queue: seq<Frame>, res: seq<Frame>, header: Frame -> nat): nat
    requires |res| <= |queue|
  {
    if res == [] then 0
    else
      var last := |res| - 1;
      Weight(queue, res[..last], header) + header(queue[last]) + |res[last].data|
  }

  lemma TakeMore(all: seq<Frame>, res: seq<Frame>, queue: seq<Frame>, taken: Frame, split: bool, left: seq<Frame>,
                 header: Frame -> nat)
    requires res + queue == all
    requires if split then |queue| > 0 && |left| > 0 && left[1..] == queue[1..] && Splits(queue[0], taken, left[0])
             else queue == [taken] + left
    ensures if split then Resplit(all, res + [taken], left) else res + [taken] + left == all
    ensures Weight(all, res + [taken], header) == Weight(all, res, header) + header(queue[0]) + |taken.data|
  {
    assert (res + [taken])[..|res|] == res && all[|res|] == queue[0];
    if split {
      assert all[|res| + 1..] == queue[1..] && all[..|res|] == res;
      assert SplitAt(all, |res|, res + [taken], left);
    }
  }

  /** Removes the first n bytes as a frame of their own, unless the frame is no longer than that. */
  method MaybeSplitOffFrame(frame: Frame, n: nat) returns (split: Option<Frame>, rest: Frame)
    ensures n >= |frame.data| ==> split.None? && rest == frame
    ensures n < |frame.data| ==> split.Some? && Splits(frame, split.value, rest) && |split.value.data| == n
  {
    if n >= |frame.data| {
      return None, frame;
    }
    split := Some(Frame(frame.offset, frame.data[..n], false));
    rest := Frame(frame.offset + n, frame.data[n..], frame.fin);
  }

  /** a and b are frame, cut in two; the mark that ends the stream goes with the second part. */
  ghost predicate Splits(frame: Frame, a: Frame, b: Frame) {
    && a.data + b.data == frame.data && b.data != [] && a.offset == frame.offset && b.offset == a.End()
    && !a.fin && b.fin == frame.fin
  }

  lemma SplitSlices(stream: seq<Byte>, ended: bool, ending: Ending, frame: Frame, a: Frame, b: Frame)
    requires IsSlice(stream, ended, frame) && Tailed(stream, ending, frame) && Splits(frame, a, b) && a.data != []
    ensures IsSlice(stream, ended, a) && IsSlice(stream, ended, b)
    ensures Tailed(stream, ending, a) && Tailed(stream, ending, b)
  {
    assert a.data == frame.data[..|a.data|] && b.data == frame.data[|a.data|..];
  }

  /** The frames taken and the frames left are the queue as it was, except that one frame may have been cut in two. */
  ghost predicate Resplit(queue: seq<Frame>, taken: seq<Frame>, left: seq<Frame>) {
    taken + left == queue || exists k :: SplitAt(queue, k, taken, left)
  }

  ghost predicate SplitAt(queue: seq<Frame>, k: int, taken: seq<Frame>, left: seq<Frame>) {
    && 0 <= k < |queue| && |taken| == k + 1 && |left| == |queue| - k && taken[..k] == queue[..k]
       && left[1..] == queue[k + 1..]
    && Splits(queue[k], taken[k], left[0])
  }

  /** All frames are slices of the stream and agree on its end. */
  ghost predicate AllOf(stream: seq<Byte>, ended: bool, ending: Ending, fs: set<Frame>) {
    forall f :: f in fs ==> IsSlice(stream, ended, f) && Tailed(stream, ending, f)
  }

  /** Frames of an open stream stay what they are when a frame is added to it. */
  lemma AllGrow(stream: seq<Byte>, frame: Frame, ending: Ending, fs: set<Frame>)
    requires AllOf(stream, false, Open, fs) && (frame.data == [] ==> frame.fin)
    requires ending == if !frame.fin then Open else if frame.data == [] then Alone else WithData
    ensures AllOf(stream + frame.data, frame.fin, ending, fs)
  {
    forall f | f in fs
      ensures IsSlice(stream + frame.data, frame.fin, f) && Tailed(stream + frame.data, ending, f)
    {
      SliceGrows(stream, false, frame.data, frame.fin, f);
    }
  }

  /** Slices stay slices while the stream grows; nothing is added to a stream that has ended. */
  lemma SliceGrows(stream: seq<Byte>, ended: bool, more: seq<Byte>, ended': bool, f: Frame)
    requires IsSlice(stream, ended, f) && (ended ==> more == [] && ended')
    ensures IsSlice(stream + more, ended', f)
  {
    assert (stream + more)[f.offset..f.End()] == stream[f.offset..f.End()];
  }
}
