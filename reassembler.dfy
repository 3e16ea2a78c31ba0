/**
 * The protocol reassembler (process_data): one raw chunk from the read loop is
 * checked for the record magic, stripped of its 12-byte header, appended to the
 * write slot and scanned for a frame end; a completed frame is frozen in its
 * slot, the write cursor advances and, if the ring is full, the oldest waiting
 * frame is dropped.
 */
module Reassembler {
  import opened Protocol
  import opened FrameRing

  /** The chunk carries a record with at least one payload byte. */
  predicate Accepted(chunk: seq<byte>)
  {
    HasMagic(chunk) && |chunk| > HEADER_SIZE
  }

  function Payload(chunk: seq<byte>): seq<byte>
    requires Accepted(chunk)
  {
    chunk[HEADER_SIZE..]
  }

  /**
   * What is kept of the write slot when a payload arrives: a payload that
   * starts with SOI discards an unfinished frame.
   */
  function KeptBytes(slot: Slot, payload: seq<byte>): (kept: seq<byte>)
    ensures StartsWithSOI(payload) && !slot.ready ==> kept == []
    ensures !StartsWithSOI(payload) || slot.ready ==> kept == slot.data
  {
    if StartsWithSOI(payload) && |slot.data| > 0 && !slot.ready then [] else slot.data
  }

  /** Appending the payload would exceed the slot's capacity. */
  predicate Overflows(r: Ring, chunk: seq<byte>)
    requires WellFormed(r) && Accepted(chunk)
  {
    |KeptBytes(r.slots[r.write], Payload(chunk))| + |Payload(chunk)| > BUFFER_SIZE
  }

  /** The write slot's bytes after the payload is appended. */
  function Appended(r: Ring, chunk: seq<byte>): seq<byte>
    requires WellFormed(r) && Accepted(chunk)
  {
    KeptBytes(r.slots[r.write], Payload(chunk)) + Payload(chunk)
  }

  /** The frame this chunk completes, if it completes one. */
  function CompletedFrame(r: Ring, chunk: seq<byte>): Option<seq<byte>>
    requires WellFormed(r)
  {
    if !Accepted(chunk) || Overflows(r, chunk) then None
    else
      match FrameEnd(Appended(r, chunk))
      case Some(e) => Some(Appended(r, chunk)[..e + 1])
      case None => None
  }

  /**
   * Freeze `frame` in the write slot, advance the write cursor, drop the
   * oldest frame if the cursor lands on it, and seed the new write slot with
   * the leftover bytes when they start with SOI.
   */
  function Complete(r: Ring, frame: seq<byte>, leftover: seq<byte>): Ring
    requires WellFormed(r)
  {
    var slots := r.slots[r.write := Slot(frame, true)];
    var next := (r.write + 1) % SLOT_COUNT;
    var drop := next == r.read && slots[r.read].ready;
    var seed := if |leftover| >= 2 && StartsWithSOI(leftover) then leftover else [];
    Ring(slots[next := Slot(seed, false)], next,
         if drop then (r.read + 1) % SLOT_COUNT else r.read,
         r.captured + 1,
         if drop then r.dropped + 1 else r.dropped)
  }

  /** Safety valve: an unfinished write slot longer than MAX_JPEG_SIZE is emptied. */
  function DiscardOversized(r: Ring): Ring
    requires WellFormed(r)
  {
    var w := r.slots[r.write];
    if |w.data| > MAX_JPEG_SIZE && !w.ready then r.(slots := r.slots[r.write := EmptySlot]) else r
  }

  /** process_data, one chunk of at most BUFFER_SIZE bytes. */
  function Process(r: Ring, chunk: seq<byte>): (r': Ring)
    requires WellFormed(r) && |chunk| <= BUFFER_SIZE
    ensures WellFormed(r')
  {
    if !Accepted(chunk) then r
    else
      var payload := Payload(chunk);
      if Overflows(r, chunk) then
        r.(slots := r.slots[r.write := Slot(if StartsWithSOI(payload) then payload else [], false)])
      else
        var d := Appended(r, chunk);
        var r1 := r.(slots := r.slots[r.write := Slot(d, r.slots[r.write].ready)]);
        match FrameEnd(d)
        case Some(e) => DiscardOversized(Complete(r1, d[..e + 1], d[e + 1..]))
        case None => DiscardOversized(r1)
  }

  // ---------------------------------------------------------------------
  // Properties of one chunk.
  // ---------------------------------------------------------------------

  /** A chunk without the magic, or with nothing after the header, changes nothing. */
  lemma IgnoredChunkChangesNothing(r: Ring, chunk: seq<byte>)
    requires WellFormed(r) && |chunk| <= BUFFER_SIZE
    requires |chunk| < 3 || chunk[0] != 0xAA || chunk[1] != 0xBB || chunk[2] != 0x07 || |chunk| <= HEADER_SIZE
    ensures Process(r, chunk) == r
    ensures CompletedFrame(r, chunk) == None
  {
  }

  /**
   * An SOI payload arriving on an unfinished write slot replaces the slot's
   * earlier bytes: the slot then holds exactly that payload.
   */
  lemma SoiPreemptsUnfinishedFrame(r: Ring, chunk: seq<byte>)
    requires Inv(r) && |chunk| <= BUFFER_SIZE && Accepted(chunk)
    requires StartsWithSOI(Payload(chunk))
    ensures !Overflows(r, chunk)
    ensures Appended(r, chunk) == Payload(chunk)
    ensures CompletedFrame(r, chunk).None? && |Payload(chunk)| <= MAX_JPEG_SIZE ==>
      Process(r, chunk) == r.(slots := r.slots[r.write := Slot(Payload(chunk), false)])
  {
    WriteSlotNeverReady(r);
    assert [] + Payload(chunk) == Payload(chunk);
  }

  /**
   * On overflow the slot is emptied, or holds exactly the payload when it
   * starts with SOI; nothing is scanned and cursors and counters are kept.
   */
  lemma OverflowDiscardsSlot(r: Ring, chunk: seq<byte>)
    requires Inv(r) && |chunk| <= BUFFER_SIZE && Accepted(chunk) && Overflows(r, chunk)
    ensures var r' := Process(r, chunk);
      && r'.slots[r.write] == Slot(if StartsWithSOI(Payload(chunk)) then Payload(chunk) else [], false)
      && (forall k :: 0 <= k < SLOT_COUNT && k != r.write ==> r'.slots[k] == r.slots[k])
      && r'.write == r.write && r'.read == r.read
      && r'.captured == r.captured && r'.dropped == r.dropped
      && |r'.slots[r.write].data| <= BUFFER_SIZE
    ensures CompletedFrame(r, chunk) == None
  {
  }

  /**
   * A chunk that completes no frame keeps cursors and counters; the write
   * slot holds the appended bytes, or nothing once they pass MAX_JPEG_SIZE.
   */
  lemma NoFrameEndKeepsAccumulating(r: Ring, chunk: seq<byte>)
    requires Inv(r) && |chunk| <= BUFFER_SIZE && Accepted(chunk) && !Overflows(r, chunk)
    requires FrameEnd(Appended(r, chunk)).None?
    ensures var r' := Process(r, chunk);
      && r'.slots[r.write] == (if |Appended(r, chunk)| > MAX_JPEG_SIZE then EmptySlot
                               else Slot(Appended(r, chunk), false))
      && (forall k :: 0 <= k < SLOT_COUNT && k != r.write ==> r'.slots[k] == r.slots[k])
      && r'.write == r.write && r'.read == r.read
      && r'.captured == r.captured && r'.dropped == r.dropped
  {
    WriteSlotNeverReady(r);
  }

  /**
   * The frame a chunk completes is the appended slot's prefix up to its first
   * qualifying EOI: SOI..EOI and at least MIN_JPEG_SIZE bytes.
   */
  lemma CompletedFrameIsFirstFrame(r: Ring, chunk: seq<byte>)
    requires WellFormed(r) && |chunk| <= BUFFER_SIZE && CompletedFrame(r, chunk).Some?
    ensures Accepted(chunk) && !Overflows(r, chunk) && FrameEnd(Appended(r, chunk)).Some?
    ensures var d := Appended(r, chunk);
      var e := FrameEnd(d).value;
      && CompletedFrame(r, chunk).value == d[..e + 1]
      && Qualifies(d, e) && (forall j :: 1 <= j < e ==> !Qualifies(d, j))
      && IsFrame(d[..e + 1])
  {
    FrameEndGivesFrame(Appended(r, chunk));
  }

  /** On completion, process_data is the safety valve applied after Complete. */
  lemma ProcessOnCompletion(r: Ring, chunk: seq<byte>)
    requires Inv(r) && |chunk| <= BUFFER_SIZE && CompletedFrame(r, chunk).Some?
    ensures Accepted(chunk) && !Overflows(r, chunk) && FrameEnd(Appended(r, chunk)).Some?
    ensures var d := Appended(r, chunk);
      var e := FrameEnd(d).value;
      && Inv(r.(slots := r.slots[r.write := Slot(d, false)]))
      && Process(r, chunk) == DiscardOversized(Complete(r.(slots := r.slots[r.write := Slot(d, false)]), d[..e + 1], d[e + 1..]))
  {
    CompletedFrameIsFirstFrame(r, chunk);
    WriteSlotNeverReady(r);
    WriteSlotUpdateKeepsQueue(r, Slot(Appended(r, chunk), false));
  }

  /**
   * When a chunk completes a frame: the frame is frozen in the old write
   * slot, frames_captured grows by one, the write cursor moves on by one
   * modulo SLOT_COUNT, the oldest frame is dropped exactly when the cursor
   * lands on it, and the new write slot is unready and holds the leftover
   * bytes only when they start with SOI and pass the safety valve.
   */
  lemma CompletionAdvancesWriteCursor(r: Ring, chunk: seq<byte>)
    requires Inv(r) && |chunk| <= BUFFER_SIZE && CompletedFrame(r, chunk).Some?
    ensures Accepted(chunk) && !Overflows(r, chunk) && FrameEnd(Appended(r, chunk)).Some?
    ensures var d := Appended(r, chunk);
      var e := FrameEnd(d).value;
      var leftover := d[e + 1..];
      var r' := Process(r, chunk);
      var next := (r.write + 1) % SLOT_COUNT;
      var drop := next == r.read;
      && r'.slots[r.write] == Slot(CompletedFrame(r, chunk).value, true)
      && r'.captured == r.captured + 1
      && r'.write == next
      && r'.read == (if drop then (r.read + 1) % SLOT_COUNT else r.read)
      && r'.dropped == (if drop then r.dropped + 1 else r.dropped)
      && r'.slots[next] == (if StartsWithSOI(leftover) && |leftover| <= MAX_JPEG_SIZE
                            then Slot(leftover, false) else EmptySlot)
  {
    CompletedFrameIsFirstFrame(r, chunk);
    ProcessOnCompletion(r, chunk);
    var d := Appended(r, chunk);
    var e := FrameEnd(d).value;
    var r1 := r.(slots := r.slots[r.write := Slot(d, false)]);
    var r2 := Complete(r1, d[..e + 1], d[e + 1..]);
    CompleteCursors(r1, d[..e + 1], d[e + 1..]);
    var next := (r.write + 1) % SLOT_COUNT;
    assert r2.slots[r.write] == Slot(d[..e + 1], true);
    assert r2.write == next && next != r.write;
  }

  // ---------------------------------------------------------------------
  // The ring invariant and the queue of waiting frames.
  // ---------------------------------------------------------------------

  /** The cursor moved on by Complete, and whether it drops the oldest frame. */
  lemma CompleteCursors(r: Ring, frame: seq<byte>, leftover: seq<byte>)
    requires Inv(r)
    ensures var r' := Complete(r, frame, leftover);
      var next := (r.write + 1) % SLOT_COUNT;
      && (Pending(r) == SLOT_COUNT - 1 <==> next == r.read)
      && r'.write == next
      && (next == r.read ==> r'.read == (r.read + 1) % SLOT_COUNT && r'.dropped == r.dropped + 1)
      && (next != r.read ==> r'.read == r.read && r'.dropped == r.dropped)
      && r'.captured == r.captured + 1
  {
    var next := (r.write + 1) % SLOT_COUNT;
    WriteSlotNeverReady(r);
    if next == r.read {
      InRangeSlotInQueue(r, r.read);
    }
  }

  /** Complete keeps the ring invariant when it freezes a valid frame. */
  lemma CompleteKeepsInv(r: Ring, frame: seq<byte>, leftover: seq<byte>)
    requires Inv(r) && IsFrame(frame) && |leftover| <= BUFFER_SIZE
    ensures Inv(Complete(r, frame, leftover))
  {
    var r' := Complete(r, frame, leftover);
    CompleteCursors(r, frame, leftover);
    forall k | 0 <= k < SLOT_COUNT
      ensures r'.slots[k].ready <==> InQueue(r'.read, r'.write, k)
    {
    }
  }

  /** On a full ring, Complete drops the oldest waiting frame and appends the new one. */
  lemma CompleteOnFullRing(r: Ring, frame: seq<byte>, leftover: seq<byte>)
    requires Inv(r) && IsFrame(frame) && |leftover| <= BUFFER_SIZE
    requires Pending(r) == SLOT_COUNT - 1
    ensures var r' := Complete(r, frame, leftover);
      Inv(r') && Queue(r') == Queue(r)[1..] + [frame]
  {
    var r' := Complete(r, frame, leftover);
    CompleteKeepsInv(r, frame, leftover);
    FullRingPending(r, frame, leftover);
    forall i | 0 <= i < Pending(r')
      ensures Queue(r')[i] == (Queue(r)[1..] + [frame])[i]
    {
      FullRingQueueEntry(r, frame, leftover, i);
    }
  }

  /** On a full ring, Complete moves both cursors on by one. */
  lemma FullRingPending(r: Ring, frame: seq<byte>, leftover: seq<byte>)
    requires Inv(r) && Pending(r) == SLOT_COUNT - 1
    ensures var r' := Complete(r, frame, leftover);
      && r'.read == (r.read + 1) % SLOT_COUNT && r'.write == r.read
      && Pending(r') == Pending(r)
  {
    CompleteCursors(r, frame, leftover);
  }

  /** Position i of the queue after Complete on a full ring. */
  lemma FullRingQueueEntry(r: Ring, frame: seq<byte>, leftover: seq<byte>, i: nat)
    requires Inv(r) && Pending(r) == SLOT_COUNT - 1 && i < Pending(r)
    ensures var r' := Complete(r, frame, leftover);
      Pending(r') == Pending(r) && Queue(r')[i] == (Queue(r)[1..] + [frame])[i]
  {
    FullRingPending(r, frame, leftover);
    var r' := Complete(r, frame, leftover);
    var j := (r.read + i + 1) % SLOT_COUNT;
    assert (r'.read + i) % SLOT_COUNT == j;
    if i < Pending(r) - 1 {
      QueueSlotInRange(r, i + 1);
      assert j != r.write && j != r.read;
      assert Queue(r)[i + 1] == r.slots[j].data;
    } else {
      assert j == r.write;
    }
  }

  /** On a ring that is not full, Complete appends the new frame to the queue. */
  lemma CompleteOnRingWithRoom(r: Ring, frame: seq<byte>, leftover: seq<byte>)
    requires Inv(r) && IsFrame(frame) && |leftover| <= BUFFER_SIZE
    requires Pending(r) < SLOT_COUNT - 1
    ensures var r' := Complete(r, frame, leftover);
      Inv(r') && Queue(r') == Queue(r) + [frame]
  {
    var r' := Complete(r, frame, leftover);
    CompleteCursors(r, frame, leftover);
    CompleteKeepsInv(r, frame, leftover);
    assert Pending(r') == Pending(r) + 1;
    forall i | 0 <= i < Pending(r')
      ensures Queue(r')[i] == (Queue(r) + [frame])[i]
    {
      if i < Pending(r) {
        QueueSlotInRange(r, i);
      } else {
        assert (r.read + i) % SLOT_COUNT == r.write;
      }
    }
  }

  /**
   * Completing a frame appends it to the queue of waiting frames; on a full
   * ring (SLOT_COUNT - 1 waiting) the oldest is dropped first.
   */
  lemma CompleteAppendsToQueue(r: Ring, frame: seq<byte>, leftover: seq<byte>)
    requires Inv(r) && IsFrame(frame) && |leftover| <= BUFFER_SIZE
    ensures var r' := Complete(r, frame, leftover);
      && Inv(r')
      && r'.captured == r.captured + 1
      && (Pending(r) == SLOT_COUNT - 1 ==> r'.dropped == r.dropped + 1 && Queue(r') == Queue(r)[1..] + [frame])
      && (Pending(r) < SLOT_COUNT - 1 ==> r'.dropped == r.dropped && Queue(r') == Queue(r) + [frame])
  {
    WriteSlotNeverReady(r);
    CompleteCursors(r, frame, leftover);
    if Pending(r) == SLOT_COUNT - 1 {
      CompleteOnFullRing(r, frame, leftover);
    } else {
      CompleteOnRingWithRoom(r, frame, leftover);
    }
  }

  /** The safety valve touches only the write slot, which is not in the queue. */
  lemma DiscardOversizedKeepsQueue(r: Ring)
    requires Inv(r)
    ensures var r' := DiscardOversized(r);
      Inv(r') && Queue(r') == Queue(r) && r'.captured == r.captured && r'.dropped == r.dropped
      && r'.write == r.write && r'.read == r.read
  {
    var r' := DiscardOversized(r);
    WriteSlotNeverReady(r);
    forall i | 0 <= i < Pending(r)
      ensures Queue(r')[i] == Queue(r)[i]
    {
      QueueSlotInRange(r, i);
    }
  }

  /** Replacing the write slot by an unready one of bounded size keeps the queue. */
  lemma WriteSlotUpdateKeepsQueue(r: Ring, s: Slot)
    requires Inv(r) && !s.ready && |s.data| <= BUFFER_SIZE
    ensures var r' := r.(slots := r.slots[r.write := s]);
      Inv(r') && Queue(r') == Queue(r)
  {
    var r' := r.(slots := r.slots[r.write := s]);
    forall i | 0 <= i < Pending(r)
      ensures Queue(r')[i] == Queue(r)[i]
    {
      QueueSlotInRange(r, i);
    }
  }

  /**
   * process_data keeps the ring invariant and behaves on the queue of waiting
   * frames as a bounded FIFO with drop-oldest: a chunk either leaves the
   * queue and both counters alone, or appends exactly the frame it completes
   * (a valid SOI..EOI frame), counting it in frames_captured and, when
   * SLOT_COUNT - 1 frames were already waiting, dropping and counting the
   * oldest.
   */
  lemma ProcessIsFifoWithDropOldest(r: Ring, chunk: seq<byte>)
    requires Inv(r) && |chunk| <= BUFFER_SIZE
    ensures var r' := Process(r, chunk);
      && Inv(r')
      && (CompletedFrame(r, chunk).None? ==>
            Queue(r') == Queue(r) && r'.captured == r.captured && r'.dropped == r.dropped)
      && (CompletedFrame(r, chunk).Some? ==>
            var f := CompletedFrame(r, chunk).value;
            && IsFrame(f)
            && r'.captured == r.captured + 1
            && (|Queue(r)| == SLOT_COUNT - 1 ==> Queue(r') == Queue(r)[1..] + [f] && r'.dropped == r.dropped + 1)
            && (|Queue(r)| < SLOT_COUNT - 1 ==> Queue(r') == Queue(r) + [f] && r'.dropped == r.dropped))
  {
    WriteSlotNeverReady(r);
    if !Accepted(chunk) {
    } else if Overflows(r, chunk) {
      var payload := Payload(chunk);
      WriteSlotUpdateKeepsQueue(r, Slot(if StartsWithSOI(payload) then payload else [], false));
    } else if CompletedFrame(r, chunk).Some? {
      CompletingChunkAppendsFrame(r, chunk);
    } else {
      UnfinishedChunkKeepsQueue(r, chunk);
    }
  }

  /** The completing case of ProcessIsFifoWithDropOldest. */
  lemma CompletingChunkAppendsFrame(r: Ring, chunk: seq<byte>)
    requires Inv(r) && |chunk| <= BUFFER_SIZE && CompletedFrame(r, chunk).Some?
    ensures var r' := Process(r, chunk);
      var f := CompletedFrame(r, chunk).value;
      && Inv(r') && IsFrame(f)
      && r'.captured == r.captured + 1
      && (|Queue(r)| == SLOT_COUNT - 1 ==> Queue(r') == Queue(r)[1..] + [f] && r'.dropped == r.dropped + 1)
      && (|Queue(r)| < SLOT_COUNT - 1 ==> Queue(r') == Queue(r) + [f] && r'.dropped == r.dropped)
  {
    WriteSlotNeverReady(r);
    CompletedFrameIsFirstFrame(r, chunk);
    ProcessOnCompletion(r, chunk);
    var d := Appended(r, chunk);
    var e := FrameEnd(d).value;
    var r1 := r.(slots := r.slots[r.write := Slot(d, false)]);
    WriteSlotUpdateKeepsQueue(r, Slot(d, false));
    CompleteAppendsToQueue(r1, d[..e + 1], d[e + 1..]);
    DiscardOversizedKeepsQueue(Complete(r1, d[..e + 1], d[e + 1..]));
  }

  /** The accumulating case of ProcessIsFifoWithDropOldest. */
  lemma UnfinishedChunkKeepsQueue(r: Ring, chunk: seq<byte>)
    requires Inv(r) && |chunk| <= BUFFER_SIZE && Accepted(chunk) && !Overflows(r, chunk)
    requires CompletedFrame(r, chunk).None?
    ensures var r' := Process(r, chunk);
      Inv(r') && Queue(r') == Queue(r) && r'.captured == r.captured && r'.dropped == r.dropped
  {
    WriteSlotNeverReady(r);
    var d := Appended(r, chunk);
    var r1 := r.(slots := r.slots[r.write := Slot(d, false)]);
    WriteSlotUpdateKeepsQueue(r, Slot(d, false));
    assert r1 == r.(slots := r.slots[r.write := Slot(d, r.slots[r.write].ready)]);
    assert Process(r, chunk) == DiscardOversized(r1);
    DiscardOversizedKeepsQueue(r1);
  }

  // ---------------------------------------------------------------------
  // A sequence of chunks.
  // ---------------------------------------------------------------------

  /** Every chunk fits the read loop's transfer buffer. */
  predicate Bounded(chunks: seq<seq<byte>>)
  {
    forall i :: 0 <= i < |chunks| ==> |chunks[i]| <= BUFFER_SIZE
  }

  /** Feed the chunks to process_data in order. */
  function FeedAll(r: Ring, chunks: seq<seq<byte>>): (r': Ring)
    requires WellFormed(r) && Bounded(chunks)
    ensures WellFormed(r')
    decreases |chunks|
  {
    if chunks == [] then r else FeedAll(Process(r, chunks[0]), chunks[1..])
  }

  /**
   * Whatever chunks arrive, the invariant holds afterwards: only complete
   * frames are ever ready, the ready slots are [read, write), no slot holds
   * more than BUFFER_SIZE bytes, and the counters never decrease.
   */
  lemma {:induction false} FeedAllPreservesInv(r: Ring, chunks: seq<seq<byte>>)
    requires Inv(r) && Bounded(chunks)
    ensures Inv(FeedAll(r, chunks))
    ensures FeedAll(r, chunks).captured >= r.captured
    ensures FeedAll(r, chunks).dropped >= r.dropped
    ensures FeedAll(r, chunks).dropped - r.dropped <= FeedAll(r, chunks).captured - r.captured
    decreases |chunks|
  {
    if chunks != [] {
      ProcessIsFifoWithDropOldest(r, chunks[0]);
      FeedAllPreservesInv(Process(r, chunks[0]), chunks[1..]);
    }
  }

  // ---------------------------------------------------------------------
  // A frame split across chunks.
  // ---------------------------------------------------------------------

  /** Every chunk carries a record with at least one payload byte. */
  predicate AllAccepted(chunks: seq<seq<byte>>)
  {
    forall i :: 0 <= i < |chunks| ==> Accepted(chunks[i])
  }

  /** Records that continue a frame: none of their payloads starts with SOI. */
  predicate Continuation(chunks: seq<seq<byte>>)
    ensures Continuation(chunks) ==> AllAccepted(chunks)
  {
    forall i :: 0 <= i < |chunks| ==> Accepted(chunks[i]) && !StartsWithSOI(Payload(chunks[i]))
  }

  /** The payloads of the chunks, joined in order. */
  function Joined(chunks: seq<seq<byte>>): (s: seq<byte>)
    requires AllAccepted(chunks)
    ensures |s| >= |chunks|
  {
    if chunks == [] then []
    else
      assert AllAccepted(chunks[1..]);
      Payload(chunks[0]) + Joined(chunks[1..])
  }

  /**
   * A frame the reassembler completes at its last byte: an SOI..EOI frame
   * that passes the safety valve and has no qualifying EOI before its end.
   */
  predicate LoneFrame(f: seq<byte>)
  {
    && IsFrame(f) && |f| <= MAX_JPEG_SIZE
    && (forall j :: 1 <= j < |f| - 1 ==> !Qualifies(f, j))
  }

  /** A prefix of a slot agrees with the slot on every EOI it contains. */
  lemma PrefixQualifies(p: seq<byte>, f: seq<byte>, j: nat)
    requires |p| <= |f| && f[..|p|] == p && j < |p|
    ensures Qualifies(p, j) <==> Qualifies(f, j)
  {
    if |p| >= 2 {
      assert p[0] == f[0] && p[1] == f[1];
    }
    if 1 <= j {
      assert p[j - 1] == f[j - 1] && p[j] == f[j];
    }
  }

  /**
   * One chunk whose appended slot is a prefix of a lone frame: a proper
   * prefix is kept, unready, in the write slot; the whole frame is completed
   * with nothing left over.
   */
  lemma ChunkExtendsFrame(r: Ring, chunk: seq<byte>, f: seq<byte>)
    requires Inv(r) && |chunk| <= BUFFER_SIZE && Accepted(chunk) && LoneFrame(f)
    requires |Appended(r, chunk)| <= |f| && f[..|Appended(r, chunk)|] == Appended(r, chunk)
    ensures var q := Appended(r, chunk);
      && (|q| < |f| ==> Process(r, chunk) == r.(slots := r.slots[r.write := Slot(q, false)]))
      && (|q| == |f| ==> Process(r, chunk) == Complete(r.(slots := r.slots[r.write := Slot(f, false)]), f, []))
  {
    WriteSlotNeverReady(r);
    var q := Appended(r, chunk);
    assert !Overflows(r, chunk);
    var r1 := r.(slots := r.slots[r.write := Slot(q, false)]);
    assert r1 == r.(slots := r.slots[r.write := Slot(q, r.slots[r.write].ready)]);
    if |q| < |f| {
      forall j | 1 <= j < |q|
        ensures !Qualifies(q, j)
      {
        PrefixQualifies(q, f, j);
      }
      assert FrameEnd(q).None?;
      assert Process(r, chunk) == DiscardOversized(r1);
    } else {
      assert q == f;
      assert Qualifies(f, |f| - 1);
      assert FrameEnd(f) == Some(|f| - 1);
      assert f[..|f|] == f && f[|f|..] == [];
      assert Process(r, chunk) == DiscardOversized(Complete(r1, f, []));
    }
  }

  /**
   * The chunks after the first: each payload continues the unfinished frame
   * in the write slot, and the last one completes it.
   */
  lemma {:induction false} FeedRestOfFrame(r: Ring, p: seq<byte>, chunks: seq<seq<byte>>, f: seq<byte>)
    requires Inv(r) && r.slots[r.write] == Slot(p, false) && LoneFrame(f)
    requires Bounded(chunks) && Continuation(chunks) && |chunks| > 0
    requires p + Joined(chunks) == f
    ensures FeedAll(r, chunks) == Complete(r.(slots := r.slots[r.write := Slot(f, false)]), f, [])
    decreases |chunks|
  {
    var c := chunks[0];
    var rest := chunks[1..];
    assert AllAccepted(rest) && Bounded(rest);
    var q := p + Payload(c);
    assert Appended(r, c) == q;
    assert f == q + Joined(rest);
    assert f[..|q|] == q;
    ChunkExtendsFrame(r, c, f);
    if rest == [] {
      assert FeedAll(r, chunks) == FeedAll(Process(r, c), rest);
    } else {
      var r2 := r.(slots := r.slots[r.write := Slot(q, false)]);
      WriteSlotUpdateKeepsQueue(r, Slot(q, false));
      assert Continuation(rest);
      FeedRestOfFrame(r2, q, rest, f);
      assert r2.(slots := r2.slots[r2.write := Slot(f, false)]) == r.(slots := r.slots[r.write := Slot(f, false)]);
    }
  }

  /**
   * The first record of a frame: its SOI payload replaces whatever the write
   * slot held, and either waits there unready or, when it is the whole
   * frame, completes it.
   */
  lemma FirstChunkOfFrame(r: Ring, chunk: seq<byte>, f: seq<byte>)
    requires Inv(r) && |chunk| <= BUFFER_SIZE && Accepted(chunk) && StartsWithSOI(Payload(chunk))
    requires LoneFrame(f) && |Payload(chunk)| <= |f| && f[..|Payload(chunk)|] == Payload(chunk)
    ensures var p := Payload(chunk);
      && (|p| < |f| ==> Process(r, chunk) == r.(slots := r.slots[r.write := Slot(p, false)]))
      && (|p| == |f| ==> Process(r, chunk) == Complete(r.(slots := r.slots[r.write := Slot(f, false)]), f, []))
  {
    SoiPreemptsUnfinishedFrame(r, chunk);
    ChunkExtendsFrame(r, chunk, f);
  }

  /** Fed a split lone frame, process_data ends as if it had completed it in one chunk. */
  lemma SplitFrameCompletes(r: Ring, chunks: seq<seq<byte>>)
    requires Inv(r) && Bounded(chunks) && |chunks| > 0
    requires Accepted(chunks[0]) && StartsWithSOI(Payload(chunks[0])) && Continuation(chunks[1..])
    requires LoneFrame(Joined(chunks))
    ensures FeedAll(r, chunks) ==
      Complete(r.(slots := r.slots[r.write := Slot(Joined(chunks), false)]), Joined(chunks), [])
  {
    var f := Joined(chunks);
    var c := chunks[0];
    var rest := chunks[1..];
    var p := Payload(c);
    assert f == p + Joined(rest);
    assert f[..|p|] == p;
    FirstChunkOfFrame(r, c, f);
    assert FeedAll(r, chunks) == FeedAll(Process(r, c), rest);
    if rest != [] {
      var r1 := r.(slots := r.slots[r.write := Slot(p, false)]);
      WriteSlotUpdateKeepsQueue(r, Slot(p, false));
      FeedRestOfFrame(r1, p, rest, f);
      assert r1.(slots := r1.slots[r1.write := Slot(f, false)]) == r.(slots := r.slots[r.write := Slot(f, false)]);
    }
  }

  /**
   * Chunk boundaries do not matter: a frame whose payload is split over any
   * number of records, only the first starting with SOI, is queued exactly
   * once and whole, as if it had arrived in one chunk; it is counted in
   * frames_captured, the oldest waiting frame is dropped when the ring was
   * full, and the new write slot starts empty.
   */
  lemma SplitFrameIsQueuedOnce(r: Ring, chunks: seq<seq<byte>>)
    requires Inv(r) && Bounded(chunks) && |chunks| > 0
    requires Accepted(chunks[0]) && StartsWithSOI(Payload(chunks[0])) && Continuation(chunks[1..])
    requires LoneFrame(Joined(chunks))
    ensures var f := Joined(chunks);
      var r' := FeedAll(r, chunks);
      && Inv(r')
      && r'.captured == r.captured + 1
      && r'.slots[r'.write] == EmptySlot
      && (|Queue(r)| == SLOT_COUNT - 1 ==> Queue(r') == Queue(r)[1..] + [f] && r'.dropped == r.dropped + 1)
      && (|Queue(r)| < SLOT_COUNT - 1 ==> Queue(r') == Queue(r) + [f] && r'.dropped == r.dropped)
  {
    var f := Joined(chunks);
    var rf := r.(slots := r.slots[r.write := Slot(f, false)]);
    SplitFrameCompletes(r, chunks);
    WriteSlotNeverReady(r);
    WriteSlotUpdateKeepsQueue(r, Slot(f, false));
    CompleteAppendsToQueue(rf, f, []);
    CompleteCursors(rf, f, []);
  }
}
