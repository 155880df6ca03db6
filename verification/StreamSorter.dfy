/**
 Reassembly of stream frames that arrive in any order, overlap and repeat.
 */
module StreamSorter {
  import opened Common
  import opened StreamGaps

  const MAX_STREAM_FRAME_SORTER_GAPS: nat := 2500

  datatype Frame = Frame(offset: nat, data: seq<Byte>, fin: bool) {
    function End(): nat {
      offset + |data|
    }
  }

  datatype PushResult = Stored | Duplicate | EmptyData | TooManyGaps | NoGap | NoEndGap

  type Queue = map<nat, Frame>

  /** The bytes that reassembly will deliver, by position. */
  type ByteMap = map<nat, Byte>

  ghost predicate Holds(bytes: ByteMap, f: Frame) {
    forall x: nat :: Covers(f, x) ==> x in bytes && bytes[x] == f.data[x - f.offset]
  }

  ghost predicate Covers(f: Frame, x: nat) {
    f.offset <= x < f.End()
  }

  /** Some live frame covers position x. */
  ghost predicate Covered(queue: Queue, live: set<nat>, x: nat)
    requires live <= queue.Keys
  {
    exists k :: k in live && Covers(queue[k], x)
  }

  /** The live frames hold exactly the received bytes from the read position on, without overlap. */
  ghost predicate Tiled(queue: Queue, readPosition: nat, live: set<nat>, bytes: ByteMap) {
    && live <= queue.Keys
    && (forall k :: k in live ==> queue[k].offset == k >= readPosition && |queue[k].data| > 0 && Holds(bytes, queue[k]))
    && (forall x {:trigger Covered(queue, live, x)} :: x in bytes && x >= readPosition ==> Covered(queue, live, x))
    && (forall k, l :: k in live && l in live && k < l ==> queue[k].End() <= l)
  }

  /** A frame that is queued but not live is an empty last frame, or its bytes have arrived and it starts below the read
      position or strictly inside a live frame: it will never be read. */
  ghost predicate Unreachable(queue: Queue, readPosition: nat, live: set<nat>, bytes: ByteMap, k: nat)
    requires k in queue && live <= queue.Keys
  {
    && queue[k].offset == k && (queue[k].data == [] ==> queue[k].fin)
    && (|queue[k].data| > 0 ==>
          && (forall x: nat :: Covers(queue[k], x) ==> x in bytes)
          && (k < readPosition || exists l :: l in live && l < k < queue[l].End()))
  }

  ghost predicate OthersUnreachable(queue: Queue, readPosition: nat, live: set<nat>, bytes: ByteMap)
    requires live <= queue.Keys
  {
    forall k {:trigger Unreachable(queue, readPosition, live, bytes, k)} ::
      k in queue && k !in live ==> Unreachable(queue, readPosition, live, bytes, k)
  }

  /** The received positions are those outside the gaps. */
  ghost predicate Complement(gaps: seq<Gap>, bytes: ByteMap) {
    forall x: nat {:trigger x in bytes} {:trigger Missing(gaps, x)} :: x in bytes <==>
          x < MAX_BYTE_COUNT && !Missing(gaps, x)
  }

  ghost predicate Consistent(queue: Queue, readPosition: nat, gaps: seq<Gap>, live: set<nat>, bytes: ByteMap) {
    && Ordered(gaps) && Complement(gaps, bytes)
    && readPosition <= gaps[0].start
    && Tiled(queue, readPosition, live, bytes)
    && OthersUnreachable(queue, readPosition, live, bytes)
  }

  /** The live frame that covers the first byte above a gap starts there. */
  lemma RunStart(queue: Queue, readPosition: nat, gaps: seq<Gap>, live: set<nat>, bytes: ByteMap, i: nat)
    requires Ordered(gaps) && Complement(gaps, bytes) && readPosition <= gaps[0].start
    requires Tiled(queue, readPosition, live, bytes) && i < |gaps| && gaps[i].end < MAX_BYTE_COUNT
    ensures gaps[i].end in live
  {
    var x := gaps[i].end;
    AtGapEnd(gaps, i);
    assert readPosition <= x by { assert i > 0 ==> gaps[0].end < gaps[i].start; }
    assert Covered(queue, live, x);
    var k :| k in live && Covers(queue[k], x);
    assert !Covers(queue[k], x - 1);
  }

  /** The live frames after a new frame has taken the positions from start to end. */
  function Taken(live: set<nat>, start: nat, end: nat): set<nat> {
    (set k | k in live && !(start <= k < end)) + {start}
  }

  ghost function BytesOf(f: Frame): ByteMap {
    map x: nat | f.offset <= x < f.End() && Covers(f, x) :: f.data[x - f.offset]
  }

  /** The frame fills the gaps i to j between its ends, and covers everything in between. */
  ghost predicate Fits(gaps: seq<Gap>, i: nat, j: nat, f: Frame) {
    FillsGaps(gaps, i, j, f.offset, f.End())
  }

  /** g lies strictly inside f or apart from it. */
  ghost predicate InsideOrApart(f: Frame, g: Frame) {
    && g.offset != f.offset
    && if f.offset < g.offset < f.End() then g.End() < f.End() else g.End() <= f.offset || f.End() <= g.offset
  }

  lemma ArrivedFrames(gaps: seq<Gap>, i: nat, j: nat, f: Frame, g: Frame)
    requires Fits(gaps, i, j, f) && |g.data| > 0 && forall x: nat :: Covers(g, x) ==> !Missing(gaps, x)
    ensures InsideOrApart(f, g)
  {
    assert InGap(gaps[i], f.offset) && InGap(gaps[j], f.End() - 1);
    assert !Covers(g, f.offset) && !Covers(g, f.End() - 1);
  }

  ghost predicate Stores(queue: Queue, live: set<nat>, f: Frame, deleted: set<nat>, queue': Queue) {
    && queue' == (queue - deleted)[f.offset := f]
    && forall k :: k in deleted ==> k in live && f.offset < k < f.End()
  }

  lemma StoreCovers(queue: Queue, readPosition: nat, live: set<nat>, bytes: ByteMap, f: Frame, deleted: set<nat>,
                    queue': Queue)
    requires Tiled(queue, readPosition, live, bytes) && readPosition <= f.offset && |f.data| > 0
    requires forall k :: k in live ==> InsideOrApart(f, queue[k])
    requires Stores(queue, live, f, deleted, queue')
    ensures Taken(live, f.offset, f.End()) <= queue'.Keys
    ensures forall x {:trigger Covered(queue', Taken(live, f.offset, f.End()), x)} ::
              x in bytes + BytesOf(f) && x >= readPosition ==> Covered(queue', Taken(live, f.offset, f.End()), x)
  {
    var live' := Taken(live, f.offset, f.End());
    forall x {:trigger Covered(queue', live', x)} | x in bytes + BytesOf(f) && x >= readPosition
      ensures Covered(queue', live', x)
    {
      if Covers(f, x) {
        assert f.offset in live';
      } else {
        assert Covered(queue, live, x);
        var k :| k in live && Covers(queue[k], x);
        assert k in live' && queue'[k] == queue[k];
      }
    }
  }

  lemma StoreTiles(queue: Queue, readPosition: nat, live: set<nat>, bytes: ByteMap, f: Frame, deleted: set<nat>,
                   queue': Queue)
    requires Tiled(queue, readPosition, live, bytes) && readPosition <= f.offset && |f.data| > 0
    requires forall k :: k in live ==> InsideOrApart(f, queue[k])
    requires Stores(queue, live, f, deleted, queue')
    ensures Tiled(queue', readPosition, Taken(live, f.offset, f.End()), bytes + BytesOf(f))
  {
    var live', bytes' := Taken(live, f.offset, f.End()), bytes + BytesOf(f);
    StoreCovers(queue, readPosition, live, bytes, f, deleted, queue');
    forall k | k in live'
      ensures queue'[k].offset == k >= readPosition && |queue'[k].data| > 0 && Holds(bytes', queue'[k])
    {
      if k != f.offset {
        assert queue'[k] == queue[k] && InsideOrApart(f, queue[k]);
      }
    }
  }

  lemma StoreUnreachable(queue: Queue, readPosition: nat, live: set<nat>, bytes: ByteMap, f: Frame, deleted: set<nat>,
                         queue': Queue)
    requires Tiled(queue, readPosition, live, bytes) && OthersUnreachable(queue, readPosition, live, bytes)
    requires readPosition <= f.offset && |f.data| > 0
    requires forall k :: k in live ==> InsideOrApart(f, queue[k])
    requires Stores(queue, live, f, deleted, queue')
    requires Taken(live, f.offset, f.End()) <= queue'.Keys
    ensures OthersUnreachable(queue', readPosition, Taken(live, f.offset, f.End()), bytes + BytesOf(f))
  {
    var live', bytes' := Taken(live, f.offset, f.End()), bytes + BytesOf(f);
    forall k {:trigger Unreachable(queue', readPosition, live', bytes', k)} | k in queue' && k !in live'
      ensures Unreachable(queue', readPosition, live', bytes', k)
    {
      assert queue'[k] == queue[k];
      if k in live {
        assert f.offset in live' && f.offset < k < queue'[f.offset].End();
      } else {
        assert Unreachable(queue, readPosition, live, bytes, k);
        if |queue[k].data| > 0 && k >= readPosition {
          var l :| l in live && l < k < queue[l].End();
          assert InsideOrApart(f, queue[l]);
          if l in live' {
            assert queue'[l] == queue[l];
          } else {
            assert f.offset in live' && f.offset < k < queue'[f.offset].End();
          }
        }
      }
    }
  }

  /** Storing a frame that fits, and dropping queued frames inside it, keeps the queue consistent. */
  lemma StoreConsistent(queue: Queue, readPosition: nat, gaps: seq<Gap>, live: set<nat>, bytes: ByteMap,
                        i: nat, j: nat, f: Frame, deleted: set<nat>, queue': Queue)
    requires Consistent(queue, readPosition, gaps, live, bytes) && Fits(gaps, i, j, f)
    requires Stores(queue, live, f, deleted, queue')
    ensures Consistent(queue', readPosition, Fill(gaps, i, j, f.offset, f.End()), Taken(live, f.offset, f.End()),
                       bytes + BytesOf(f))
  {
    var gaps' := Fill(gaps, i, j, f.offset, f.End());
    assert readPosition <= f.offset by { assert i > 0 ==> gaps[0].end < gaps[i].start; }
    forall k | k in live
      ensures InsideOrApart(f, queue[k])
    {
      assert Holds(bytes, queue[k]);
      ArrivedFrames(gaps, i, j, f, queue[k]);
    }
    FillOrdered(gaps, i, j, f.offset, f.End());
    forall x: nat {:trigger Missing(gaps', x)}
      ensures x in bytes + BytesOf(f) <==> x < MAX_BYTE_COUNT && !Missing(gaps', x)
    {
      FillMissing(gaps, i, j, f.offset, f.End(), x);
      assert x in BytesOf(f) <==> Covers(f, x);
    }
    StoreTiles(queue, readPosition, live, bytes, f, deleted, queue');
    StoreUnreachable(queue, readPosition, live, bytes, f, deleted, queue');
  }

  /** The ends of the gaps i .. j - 1. */
  ghost function Ends(gaps: seq<Gap>, i: nat, j: nat): set<nat>
    requires i <= j <= |gaps|
  {
    if i == j then {} else Ends(gaps, i, j - 1) + {gaps[j - 1].end}
  }

  lemma {:induction false} EndsMember(gaps: seq<Gap>, i: nat, j: nat, k: nat) returns (m: nat)
    requires i <= j <= |gaps| && k in Ends(gaps, i, j)
    ensures i <= m < j && gaps[m].end == k
  {
    if k == gaps[j - 1].end {
      m := j - 1;
    } else {
      m := EndsMember(gaps, i, j - 1, k);
    }
  }

  /** The list without the gaps strictly between i and j. */
  function Skip(all: seq<Gap>, i: nat, j: nat): seq<Gap>
    requires i < |all| && i < j <= |all|
  {
    all[..i + 1] + all[j..]
  }

  /** The list that PassGaps leaves. */
  function Passed(all: seq<Gap>, i: nat, j: nat, dropped: bool): seq<Gap>
    requires i <= j < |all|
  {
    if j == i then all else Skip(all, i, if dropped then j + 1 else j)
  }

  lemma SkipStep(all: seq<Gap>, i: nat, j: nat)
    requires i < j < |all|
    ensures |Skip(all, i, j)| == i + 1 + |all| - j
    ensures Skip(all, i, j)[..i + 1] + Skip(all, i, j)[i + 2..] == Skip(all, i, j + 1)
    ensures j + 1 < |all| ==> Skip(all, i, j)[i + 2] == all[j + 1]
  {
  }

  lemma SkipNone(all: seq<Gap>, i: nat)
    requires i < |all|
    ensures Skip(all, i, i + 1) == all
  {
  }

  class FrameSorter {
    var queuedFrames: Queue
    var readPosition: nat
    var gaps: seq<Gap>
    ghost var live: set<nat>
    ghost var bytes: ByteMap

    ghost predicate Valid()
      reads this
    {
      Consistent(queuedFrames, readPosition, gaps, live, bytes)
    }

    constructor ()
      ensures Valid() && bytes == map[] && readPosition == 0 && live == {} && queuedFrames == map[] && |gaps| == 1
    {
      queuedFrames, readPosition, gaps := map[], 0, [Gap(0, MAX_BYTE_COUNT)];
      live, bytes := {}, map[];
      new;
      forall x: nat
        ensures x < MAX_BYTE_COUNT ==> Missing(gaps, x)
      {
        assert x < MAX_BYTE_COUNT ==> InGap(gaps[0], x);
      }
    }

    /** Skips the gaps before a frame; finds the first one the frame may reach, or none if it is a duplicate. */
    method FindGap(start: nat, end: nat) returns (i: nat, duplicate: bool)
      requires Ordered(gaps) && start < end <= MAX_BYTE_COUNT
      ensures i < |gaps| && forall m :: 0 <= m < i ==> gaps[m].end < start
      ensures if duplicate then end <= gaps[i].start else gaps[i].start < end && start <= gaps[i].end
    {
      i := 0;
      while true
        invariant i < |gaps| && forall m :: 0 <= m < i ==> gaps[m].end < start
        decreases |gaps| - i
      {
        if end <= gaps[i].start {
          return i, true;
        }
        if end > gaps[i].start && start <= gaps[i].end {
          return i, false;
        }
        i := i + 1;  // the last gap is open at the top, so there is a next one
      }
    }

    /** Looks for the last gap that a frame ending at `end` reaches. The gaps passed on the way are removed, and with
        each the first queued frame above it. `dropped` says that the gap found was removed as well. */
    method PassGaps(i: nat, end: nat) returns (ok: bool, endGap: Gap, same: bool, dropped: bool, ghost j: nat)
      requires i < |gaps| && gaps[i].start < end <= MAX_BYTE_COUNT == gaps[|gaps| - 1].end
      modifies `gaps, `queuedFrames
      ensures !ok ==> end == MAX_BYTE_COUNT
      ensures ok ==> Reaches(old(gaps), i, j, end) && endGap == old(gaps)[j]
      ensures ok ==> queuedFrames == old(queuedFrames) - Ends(old(gaps), i, j)
      ensures ok ==> same == (j == i) && dropped == (j > i && end >= endGap.end)
      ensures ok ==> gaps == Passed(old(gaps), i, j, dropped)
    {
      ghost var all := gaps;
      endGap, same, dropped, j := gaps[i], true, false, i;
      var e := i;
      while end >= endGap.end
        invariant i <= j < |all| && endGap == all[j] && all[j].start < end && !dropped
        invariant e == (if j == i then i else i + 1) && same == (j == i)
        invariant gaps == if j == i then all else Skip(all, i, j)
        invariant queuedFrames == old(queuedFrames) - Ends(all, i, j)
        decreases |all| - j
      {
        if j > i {
          SkipStep(all, i, j);
        } else {
          SkipNone(all, i);
        }
        if e + 1 >= |gaps| {
          return false, endGap, e == i, dropped, j;
        }
        var next := gaps[e + 1];
        assert next == all[j + 1];
        if e != i {
          gaps := gaps[..e] + gaps[e + 1..];
        }
        assert gaps == Skip(all, i, j + 1);
        if end <= next.start {
          dropped := e != i;
          break;
        }
        queuedFrames := queuedFrames - {endGap.end};
        assert queuedFrames == old(queuedFrames) - (Ends(all, i, j) + {all[j].end});
        endGap, same, j, e := next, false, j + 1, i + 1;
      }
      ok := true;
    }

    /** Takes the positions from start to end out of the gap list, which PassGaps has prepared. */
    method AdjustGaps(i: nat, endGap: Gap, same: bool, dropped: bool, start: nat, end: nat, ghost all: seq<Gap>,
                      ghost j: nat)
      requires i <= j < |all| && endGap == all[j] && end <= endGap.end && (j > i ==> end >= all[i].end)
      requires same == (j == i) && dropped == (j > i && end == endGap.end)
      requires gaps == Passed(all, i, j, dropped)
      modifies `gaps
      ensures gaps == Fill(all, i, j, start, end)
    {
      var gap := gaps[i];
      assert gap == all[i] && gaps[..i] == all[..i];
      assert gaps[i + 1..] == all[if same || dropped then j + 1 else j..];
      if start == gap.start {
        if end >= gap.end {
          // the frame fills the first gap
          gaps := gaps[..i] + gaps[i + 1..];
        }
        if end < endGap.end {
          // the frame covers the beginning of the last gap
          gaps := gaps[i := Gap(end, endGap.end)];
        }
      } else if end == endGap.end {
        // the frame covers the end of the last gap
        gaps := gaps[i := Gap(gap.start, start)];
      } else if same {
        // the frame splits a gap
        gaps := gaps[..i + 1] + [Gap(end, gap.end)] + gaps[i + 1..];
        gaps := gaps[i := Gap(gap.start, start)];
      } else {
        gaps := gaps[i := Gap(gap.start, start)];
        gaps := gaps[i + 1 := Gap(end, endGap.end)];
      }
    }

    /** Cuts off the part of a frame below a position. */
    static method CutBelow(frame: Frame, start: nat) returns (f: Frame)
      requires start <= frame.End()
      ensures IsPart(frame, f) && f.End() == frame.End()
      ensures f.offset == if frame.offset < start then start else frame.offset
    {
      f := frame;
      if frame.offset < start {
        var add := start - frame.offset;
        f := Frame(frame.offset + add, frame.data[add..], frame.fin);
      }
    }

    /** Cuts off the part of a frame above a position. The mark that ends the stream stays on. */
    static method CutAbove(frame: Frame, end: nat) returns (f: Frame)
      requires frame.offset <= end
      ensures IsPart(frame, f) && f.offset == frame.offset
      ensures f.End() == if frame.End() > end then end else frame.End()
    {
      f := frame;
      if frame.End() > end {
        f := Frame(frame.offset, frame.data[..end - frame.offset], frame.fin);
      }
    }

    /** Cuts a frame above the last gap it reaches, takes it out of the gap list and queues it. */
    method Finish(frame0: Frame, i: nat, endGap: Gap, same: bool, dropped: bool, ghost all: seq<Gap>, ghost j: nat)
      returns (r: PushResult, ghost f: Frame)
      requires i <= j < |all| && endGap == all[j] && frame0.offset < endGap.end
               && (j > i ==> all[i].end <= frame0.End() && all[i].end <= endGap.end)
      requires same == (j == i) && dropped == (j > i && frame0.End() >= endGap.end)
               && gaps == Passed(all, i, j, dropped)
      modifies `gaps, `queuedFrames
      ensures r == if |gaps| > MAX_STREAM_FRAME_SORTER_GAPS then TooManyGaps else Stored
      ensures IsPart(frame0, f) && f.offset == frame0.offset && f.End() == if frame0.End() > endGap.end then endGap.end
              else frame0.End()
      ensures gaps == Fill(all, i, j, f.offset, f.End()) && |gaps| <= |all| + 1
      ensures queuedFrames == if r.Stored? then old(queuedFrames)[f.offset := f] else old(queuedFrames)
    {
      var frame := CutAbove(frame0, endGap.end);
      f := frame;
      AdjustGaps(i, endGap, same, dropped, frame.offset, frame.End(), all, j);
      FillLength(all, i, j, f.offset, f.End());
      if |gaps| > MAX_STREAM_FRAME_SORTER_GAPS {
        return TooManyGaps, f;
      }
      queuedFrames := queuedFrames[frame.offset := frame];
      return Stored, f;
    }

    /** Stores what is new in a frame, given the first gap that it reaches. */
    method Insert(frame0: Frame, i: nat) returns (r: PushResult, ghost f: Frame, ghost j: nat)
      requires frame0.data != [] && frame0.End() <= MAX_BYTE_COUNT && Ordered(gaps)
      requires i < |gaps| && gaps[i].start < frame0.End() && frame0.offset < gaps[i].end
      modifies `gaps, `queuedFrames
      ensures r.Stored? || r.TooManyGaps? || r.NoEndGap?
      ensures r.NoEndGap? <==> frame0.End() == MAX_BYTE_COUNT
      ensures !r.NoEndGap? ==> Reaches(old(gaps), i, j, frame0.End()) && CutTo(old(gaps), i, j, frame0, f)
      ensures !r.NoEndGap? ==> gaps == Fill(old(gaps), i, j, f.offset, f.End()) && |gaps| <= |old(gaps)| + 1
      // the gaps are counted once the frame has been taken out of them, and before it is queued
      ensures r.TooManyGaps? <==> !r.NoEndGap? && |gaps| > MAX_STREAM_FRAME_SORTER_GAPS
      ensures r.Stored? ==> queuedFrames == (old(queuedFrames) - Ends(old(gaps), i, j))[f.offset := f]
      ensures r.TooManyGaps? ==> queuedFrames == old(queuedFrames) - Ends(old(gaps), i, j)
    {
      ghost var all := gaps;
      var frame := CutBelow(frame0, gaps[i].start);
      f := frame;
      var ok, endGap, same, dropped;
      ok, endGap, same, dropped, j := PassGaps(i, frame.End());
      if !ok {
        return NoEndGap, f, j;
      }
      GapsAscend(all, i, j);
      ReachesBelow(all, i, j, frame.End());
      ghost var head := f;
      r, f := Finish(frame, i, endGap, same, dropped, all, j);
      PartTransitive(frame0, head, f);
    }

    /** Takes in a frame that is not empty, cut to what lies above the frame queued at its offset. */
    method PushData(ghost frame0: Frame, frame: Frame) returns (r: PushResult, ghost f: Frame)
      requires Valid() && frame0.End() <= MAX_BYTE_COUNT && frame.data != [] && IsPart(frame0, frame)
      requires frame.offset == if frame0.offset in queuedFrames then queuedFrames[frame0.offset].End()
               else frame0.offset
      requires forall x: nat :: Covers(frame0, x) && !Covers(frame, x) ==> x in bytes
      modifies `queuedFrames, `gaps, `live, `bytes
      ensures r.Duplicate? || r.Stored? || r.TooManyGaps? || r.NoEndGap?
      ensures r.NoEndGap? <==> frame.End() == MAX_BYTE_COUNT
      ensures r.TooManyGaps? ==> |old(gaps)| >= MAX_STREAM_FRAME_SORTER_GAPS && |gaps| > MAX_STREAM_FRAME_SORTER_GAPS
      ensures r.Stored? ==> |gaps| <= |old(gaps)| + 1 && |gaps| <= MAX_STREAM_FRAME_SORTER_GAPS
      ensures r.Duplicate? ==>
                queuedFrames == old(queuedFrames) && gaps == old(gaps) && live == old(live) && bytes == old(bytes)
      ensures r.Duplicate? <==> Known(old(bytes), frame0)
      ensures r.Stored? ==> Valid()
      ensures r.Stored? ==>
                Takes(old(queuedFrames), old(gaps), old(live), old(bytes), frame0, f, queuedFrames, live, bytes)
    {
      f := frame0;
      var i, duplicate := FindGap(frame.offset, frame.End());
      if duplicate {
        DuplicateArrived(gaps, bytes, i, frame);
        return Duplicate, f;
      }
      NotAtGapEnd(queuedFrames, readPosition, gaps, live, bytes, frame0, frame, i);
      ReachesUnknown(gaps, bytes, i, frame0, frame);
      ghost var j;
      r, f, j := Insert(frame, i);
      if r.Stored? {
        live, bytes := Taken(live, f.offset, f.End()), bytes + BytesOf(f);
        InsertMeaning(old(queuedFrames), readPosition, old(gaps), old(live), old(bytes), i, j, frame0, frame, f,
                      queuedFrames, gaps, live, bytes);
      }
    }

    /** Takes in a frame. f is the part of it that is stored. */
    method Push(frame0: Frame) returns (r: PushResult, ghost f: Frame)
      requires Valid() && frame0.End() <= MAX_BYTE_COUNT
      modifies `queuedFrames, `gaps, `live, `bytes
      ensures r.EmptyData? <==> frame0.data == [] && !frame0.fin
      ensures r.EmptyData? || r.Duplicate? ==>
                queuedFrames == old(queuedFrames) && gaps == old(gaps) && live == old(live) && bytes == old(bytes)
      // an empty frame that ends the stream is queued as it is
      ensures frame0.data == [] && frame0.fin ==>
                r.Stored? && queuedFrames == old(queuedFrames)[frame0.offset := frame0]
                && gaps == old(gaps) && live == old(live) && bytes == old(bytes) && (frame0.offset !in live ==> Valid())
      // a duplicate holds nothing new
      ensures r.Duplicate? <==> frame0.data != [] && Known(old(bytes), frame0)
      // otherwise the part of the frame from its first to its last missing byte is stored
      ensures r.Stored? && frame0.data != [] ==> Valid()
      ensures r.Stored? && frame0.data != [] ==>
                Takes(old(queuedFrames), old(gaps), old(live), old(bytes), frame0, f, queuedFrames, live, bytes)
      // the errors: too many gaps, and two reported as bugs, of which the first never occurs and the second exactly at
      // the very last position
      ensures r.TooManyGaps? ==> |old(gaps)| >= MAX_STREAM_FRAME_SORTER_GAPS && |gaps| > MAX_STREAM_FRAME_SORTER_GAPS
      ensures r.Stored? ==> |gaps| <= |old(gaps)| + 1 && (frame0.data != [] ==> |gaps| <= MAX_STREAM_FRAME_SORTER_GAPS)
      ensures r != NoGap && (r == NoEndGap <==> frame0.data != [] && frame0.End() == MAX_BYTE_COUNT)
    {
      f := frame0;
      if |frame0.data| == 0 {
        if frame0.fin {
          EmptyKeeps(queuedFrames, readPosition, gaps, live, bytes, frame0);
          queuedFrames := queuedFrames[frame0.offset := frame0];
          return Stored, f;
        }
        return EmptyData, f;
      }
      var frame := frame0;
      if frame0.offset in queuedFrames {
        var oldLen := |queuedFrames[frame0.offset].data|;
        KeyArrived(queuedFrames, readPosition, live, bytes, frame0.offset);
        if |frame.data| <= oldLen {
          LastMissing(gaps, bytes, frame0);
          return Duplicate, f;
        }
        frame := Frame(frame0.offset + oldLen, frame0.data[oldLen..], frame0.fin);
      }
      r, f := PushData(frame0, frame);
    }

    /** The frame at the read position. It holds data exactly when the byte there has arrived. */
    method Head() returns (head: Option<Frame>)
      requires Valid()
      ensures head.Some? ==>
                readPosition in queuedFrames && head.value == queuedFrames[readPosition]
                && head.value.offset == readPosition
      ensures head.None? ==> readPosition !in queuedFrames
      ensures readPosition in bytes <==> head.Some? && head.value.data != []
      ensures readPosition in bytes <==> readPosition in live
      ensures head.Some? ==> Holds(bytes, head.value) && (head.value.data == [] ==> head.value.fin)
    {
      HeadIsLive(queuedFrames, readPosition, gaps, live, bytes);
      if readPosition in queuedFrames {
        head := Some(queuedFrames[readPosition]);
      } else {
        head := None;
      }
    }

    /** Removes the frame at the read position and moves the position past it. */
    method Pop() returns (head: Option<Frame>)
      requires Valid()
      modifies `queuedFrames, `readPosition, `live
      ensures Valid()
      ensures old(readPosition) in old(queuedFrames) <==> head.Some?
      ensures head.Some? ==>
                head.value == old(queuedFrames)[old(readPosition)]
                && readPosition == old(readPosition) + |head.value.data|
                             && queuedFrames == old(queuedFrames) - {old(readPosition)}
                                && live == old(live) - {old(readPosition)}
      ensures head.None? ==> readPosition == old(readPosition) && queuedFrames == old(queuedFrames) && live == old(live)
    {
      head := Head();
      if head.Some? {
        PopConsistent(queuedFrames, readPosition, gaps, live, bytes);
        live := live - {readPosition};
        queuedFrames := queuedFrames - {head.value.offset};
        readPosition := readPosition + |head.value.data|;
      }
    }
  }

  /** All bytes of the frame have arrived. */
  ghost predicate Known(bytes: ByteMap, frame: Frame) {
    forall x: nat :: Covers(frame, x) ==> x in bytes
  }

  lemma ReachesBelow(gaps: seq<Gap>, i: nat, j: nat, end: nat)
    requires Ordered(gaps) && Reaches(gaps, i, j, end)
    ensures end < MAX_BYTE_COUNT
  {
  }

  /** The very last byte never arrives. */
  lemma LastMissing(gaps: seq<Gap>, bytes: ByteMap, frame: Frame)
    requires Ordered(gaps) && Complement(gaps, bytes) && Known(bytes, frame) && frame.data != []
    ensures frame.End() != MAX_BYTE_COUNT
  {
    assert InGap(gaps[|gaps| - 1], MAX_BYTE_COUNT - 1);
    assert Missing(gaps, MAX_BYTE_COUNT - 1);
    assert Covers(frame, frame.End() - 1);
  }

  /** A frame that reaches into a gap has a byte that is missing. */
  lemma ReachesUnknown(gaps: seq<Gap>, bytes: ByteMap, i: nat, frame0: Frame, frame: Frame)
    requires Complement(gaps, bytes) && i < |gaps| && gaps[i].start < frame.End() && frame.offset < gaps[i].end
    requires gaps[i].start < gaps[i].end && frame.data != [] && IsPart(frame0, frame)
    ensures !Known(bytes, frame0)
  {
    var x := if frame.offset < gaps[i].start then gaps[i].start else frame.offset;
    assert InGap(gaps[i], x);
    assert Missing(gaps, x) && Covers(frame0, x);
  }

  lemma HeadIsLive(queue: Queue, readPosition: nat, gaps: seq<Gap>, live: set<nat>, bytes: ByteMap)
    requires Consistent(queue, readPosition, gaps, live, bytes)
    ensures readPosition in bytes <==> readPosition in live
    ensures readPosition in queue && readPosition !in live ==> queue[readPosition].data == [] && queue[readPosition].fin
    ensures readPosition in queue ==> queue[readPosition].offset == readPosition && Holds(bytes, queue[readPosition])
  {
    if readPosition in bytes {
      assert Covered(queue, live, readPosition);
      var k :| k in live && Covers(queue[k], readPosition);
    }
    if readPosition in live {
      assert Covers(queue[readPosition], readPosition);
    } else if readPosition in queue {
      assert Unreachable(queue, readPosition, live, bytes, readPosition);
    }
  }

  lemma PopConsistent(queue: Queue, readPosition: nat, gaps: seq<Gap>, live: set<nat>, bytes: ByteMap)
    requires Consistent(queue, readPosition, gaps, live, bytes) && readPosition in queue
    ensures Consistent(queue - {readPosition}, queue[readPosition].End(), gaps, live - {readPosition}, bytes)
  {
    HeadIsLive(queue, readPosition, gaps, live, bytes);
    var head, queue', live' := queue[readPosition], queue - {readPosition}, live - {readPosition};
    assert Missing(gaps, gaps[0].start) by { assert InGap(gaps[0], gaps[0].start); }
    assert !Covers(head, gaps[0].start);
    forall x {:trigger Covered(queue', live', x)} | x in bytes && x >= head.End()
      ensures Covered(queue', live', x)
    {
      assert Covered(queue, live, x);
      var k :| k in live && Covers(queue[k], x);
      assert k != readPosition && queue'[k] == queue[k];
    }
    forall k {:trigger Unreachable(queue', head.End(), live', bytes, k)} | k in queue' && k !in live'
      ensures Unreachable(queue', head.End(), live', bytes, k)
    {
      assert Unreachable(queue, readPosition, live, bytes, k);
      if |queue[k].data| > 0 && k >= head.End() {
        var l :| l in live && l < k < queue[l].End();
        assert l in live' && queue'[l] == queue[l];
      }
    }
  }

  /** f, the stretch of f0 from its first to its last missing byte, has been stored; all other frames that do not start
      inside f are as they were. */
  ghost predicate Takes(queue: Queue, gaps: seq<Gap>, live: set<nat>, bytes: ByteMap, f0: Frame, f: Frame,
                        queue': Queue, live': set<nat>, bytes': ByteMap) {
    && Stretch(gaps, bytes, f0, f) && f.offset in queue' && queue'[f.offset] == f
    && bytes' == bytes + BytesOf(f) && live' == Taken(live, f.offset, f.End())
    && (forall k :: k in queue' && k != f.offset ==> k in queue && queue'[k] == queue[k])
    && (forall k :: k in queue && !(f.offset <= k < f.End()) ==> k in queue' && queue'[k] == queue[k])
  }

  lemma InsertMeaning(queue: Queue, readPosition: nat, gaps: seq<Gap>, live: set<nat>, bytes: ByteMap,
                      i: nat, j: nat, f0: Frame, cut: Frame, f: Frame,
                      queue': Queue, gaps': seq<Gap>, live': set<nat>, bytes': ByteMap)
    requires Consistent(queue, readPosition, gaps, live, bytes)
    requires IsPart(f0, cut) && cut.data != [] && cut.End() <= MAX_BYTE_COUNT
    requires forall x: nat :: Covers(f0, x) && !Covers(cut, x) ==> x in bytes
    requires Reaches(gaps, i, j, cut.End()) && CutTo(gaps, i, j, cut, f)
    requires (i > 0 ==> gaps[i - 1].end <= cut.offset) && gaps[i].start < cut.End() && cut.offset < gaps[i].end
    requires queue' == (queue - Ends(gaps, i, j))[f.offset := f] && gaps' == Fill(gaps, i, j, f.offset, f.End())
    requires live' == Taken(live, f.offset, f.End()) && bytes' == bytes + BytesOf(f)
    ensures Consistent(queue', readPosition, gaps', live', bytes')
    ensures Takes(queue, gaps, live, bytes, f0, f, queue', live', bytes')
  {
    CutFits(gaps, bytes, i, j, cut, f);
    DeletedInside(queue, readPosition, gaps, live, bytes, i, j, f);
    StoreConsistent(queue, readPosition, gaps, live, bytes, i, j, f, Ends(gaps, i, j), queue');
    StretchOfPart(gaps, bytes, f0, cut, f);
    StoreTakes(queue, gaps, live, bytes, f0, f, Ends(gaps, i, j), queue');
  }

  lemma StoreTakes(queue: Queue, gaps: seq<Gap>, live: set<nat>, bytes: ByteMap, f0: Frame, f: Frame, deleted: set<nat>,
                   queue': Queue)
    requires Stretch(gaps, bytes, f0, f) && Stores(queue, live, f, deleted, queue')
    ensures Takes(queue, gaps, live, bytes, f0, f, queue', Taken(live, f.offset, f.End()), bytes + BytesOf(f))
  {
  }

  lemma FillLength(gaps: seq<Gap>, i: nat, j: nat, start: nat, end: nat)
    requires i <= j < |gaps|
    ensures |Fill(gaps, i, j, start, end)| <= |gaps| + 1
  {
  }

  lemma GapsAscend(gaps: seq<Gap>, i: nat, j: nat)
    requires Ordered(gaps) && i <= j < |gaps|
    ensures gaps[i].start < gaps[i].end && gaps[j].start < gaps[j].end && (i < j ==> gaps[i].end < gaps[j].start)
  {
  }

  /** f is f0 without what lies below gap i and above gap j. */
  ghost predicate CutTo(gaps: seq<Gap>, i: nat, j: nat, f0: Frame, f: Frame) {
    && i < |gaps| && j < |gaps| && IsPart(f0, f)
    && f.offset == (if f0.offset < gaps[i].start then gaps[i].start else f0.offset)
    && f.End() == (if f0.End() > gaps[j].end then gaps[j].end else f0.End())
  }

  /** The frame between the two cuts fits the gaps from i to j, and nothing new was cut off. */
  lemma CutFits(gaps: seq<Gap>, bytes: ByteMap, i: nat, j: nat, f0: Frame, f: Frame)
    requires Ordered(gaps) && Complement(gaps, bytes) && Reaches(gaps, i, j, f0.End()) && f0.End() <= MAX_BYTE_COUNT
    requires (i > 0 ==> gaps[i - 1].end <= f0.offset) && gaps[i].start < f0.End() && f0.offset < gaps[i].end
    requires CutTo(gaps, i, j, f0, f) && f0.data != []
    ensures Fits(gaps, i, j, f) && Stretch(gaps, bytes, f0, f)
  {
    assert j + 1 < |gaps| ==> gaps[j].end < gaps[|gaps| - 1].start;
    assert InGap(gaps[i], f.offset) && InGap(gaps[j], f.End() - 1);
    forall x: nat | Covers(f0, x) && !Covers(f, x)
      ensures x in bytes
    {
      if x < f.offset {
        BelowGap(gaps, i, x);
      } else {
        BetweenGaps(gaps, j, x);
      }
    }
  }

  lemma DuplicateArrived(gaps: seq<Gap>, bytes: ByteMap, i: nat, f: Frame)
    requires Ordered(gaps) && Complement(gaps, bytes) && i < |gaps| && f.End() <= gaps[i].start
    requires i > 0 ==> gaps[i - 1].end < f.offset
    ensures forall x: nat :: Covers(f, x) ==> x in bytes
  {
    forall x: nat | Covers(f, x)
      ensures x in bytes
    {
      BelowGap(gaps, i, x);
    }
  }

  lemma BelowGap(gaps: seq<Gap>, i: nat, x: nat)
    requires Ordered(gaps) && i < |gaps| && x < gaps[i].start && (i > 0 ==> gaps[i - 1].end <= x)
    ensures !Missing(gaps, x)
  {
    if i > 0 {
      BetweenGaps(gaps, i - 1, x);
    }
  }

  lemma StretchOfPart(gaps: seq<Gap>, bytes: ByteMap, f0: Frame, cut: Frame, f: Frame)
    requires IsPart(f0, cut) && Stretch(gaps, bytes, cut, f)
    requires forall x: nat :: Covers(f0, x) && !Covers(cut, x) ==> x in bytes
    ensures Stretch(gaps, bytes, f0, f)
  {
  }

  /** A frame that is not cut by a queued frame at its own offset cannot start right above a gap: the first frame
      above every gap is queued there. */
  lemma NotAtGapEnd(queue: Queue, readPosition: nat, gaps: seq<Gap>, live: set<nat>, bytes: ByteMap, f0: Frame,
                    f: Frame, i: nat)
    requires Consistent(queue, readPosition, gaps, live, bytes) && i < |gaps| && f.offset < MAX_BYTE_COUNT
    requires f.offset == if f0.offset in queue then queue[f0.offset].End() else f0.offset
    ensures f.offset != gaps[i].end
  {
    AtGapEnd(gaps, i);
    if gaps[i].end < MAX_BYTE_COUNT {
      RunStart(queue, readPosition, gaps, live, bytes, i);
    }
    if f0.offset in queue {
      KeyArrived(queue, readPosition, live, bytes, f0.offset);
      assert !Covers(queue[f0.offset], gaps[i].end - 1);
    }
  }

  /** The queued frames dropped on the way are live and strictly inside the new frame. */
  lemma DeletedInside(queue: Queue, readPosition: nat, gaps: seq<Gap>, live: set<nat>, bytes: ByteMap, i: nat, j: nat,
                      f: Frame)
    requires Consistent(queue, readPosition, gaps, live, bytes) && Fits(gaps, i, j, f)
    ensures forall k :: k in Ends(gaps, i, j) ==> k in live && f.offset < k < f.End()
  {
    forall k | k in Ends(gaps, i, j)
      ensures k in live && f.offset < k < f.End()
    {
      var m := EndsMember(gaps, i, j, k);
      assert gaps[m].end < gaps[j].start && gaps[i].end <= gaps[m].end;
      RunStart(queue, readPosition, gaps, live, bytes, m);
    }
  }

  /** Queuing an empty frame where no live frame starts changes nothing for the others. */
  lemma EmptyKeeps(queue: Queue, readPosition: nat, gaps: seq<Gap>, live: set<nat>, bytes: ByteMap, f: Frame)
    requires Consistent(queue, readPosition, gaps, live, bytes) && f.data == [] && f.fin
    ensures f.offset !in live ==> Consistent(queue[f.offset := f], readPosition, gaps, live, bytes)
  {
    var queue' := queue[f.offset := f];
    if f.offset !in live {
      forall x {:trigger Covered(queue', live, x)} | x in bytes && x >= readPosition
        ensures Covered(queue', live, x)
      {
        assert Covered(queue, live, x);
        var k :| k in live && Covers(queue[k], x);
        assert queue'[k] == queue[k];
      }
      forall k {:trigger Unreachable(queue', readPosition, live, bytes, k)} | k in queue' && k !in live
        ensures Unreachable(queue', readPosition, live, bytes, k)
      {
        if k != f.offset {
          assert Unreachable(queue, readPosition, live, bytes, k);
        }
      }
    }
  }

  /** The bytes of every queued frame have arrived. */
  lemma KeyArrived(queue: Queue, readPosition: nat, live: set<nat>, bytes: ByteMap, k: nat)
    requires Tiled(queue, readPosition, live, bytes) && OthersUnreachable(queue, readPosition, live, bytes)
             && k in queue
    ensures queue[k].offset == k && forall x: nat :: Covers(queue[k], x) ==> x in bytes
  {
    if k !in live {
      assert Unreachable(queue, readPosition, live, bytes, k);
    }
  }

  /** f is a stretch of f0. */
  ghost predicate IsPart(f0: Frame, f: Frame) {
    && f0.offset <= f.offset <= f.End() <= f0.End() && f.fin == f0.fin
    && f.data == f0.data[f.offset - f0.offset..f.End() - f0.offset]
  }

  lemma PartTransitive(f0: Frame, f1: Frame, f2: Frame)
    requires IsPart(f0, f1) && IsPart(f1, f2)
    ensures IsPart(f0, f2)
  {
  }

  /** f reaches from the first to the last missing byte of f0. */
  ghost predicate Stretch(gaps: seq<Gap>, bytes: ByteMap, f0: Frame, f: Frame) {
    && IsPart(f0, f) && |f.data| > 0 && Missing(gaps, f.offset) && Missing(gaps, f.End() - 1)
    && forall x: nat :: Covers(f0, x) && !Covers(f, x) ==> x in bytes
  }

  /** j is the last gap that a frame ending at `end` reaches, counting from i. */
  ghost predicate Reaches(gaps: seq<Gap>, i: nat, j: nat, end: nat) {
    && i <= j < |gaps| && gaps[j].start < end
    && (end < gaps[j].end || (j + 1 < |gaps| && end <= gaps[j + 1].start))
  }
}
