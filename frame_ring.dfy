/**
 * The frame ring shared by the producer (the reassembler) and the consumer
 * (camera_read_frame): SLOT_COUNT slots, a write cursor, a read cursor and the
 * two statistics counters. The ready slots are exactly the cyclic range
 * [read, write); read in that order they form the queue of frames waiting for
 * the consumer.
 */
module FrameRing {
  import opened Protocol

  /** One slot: its logical content (the first `size` bytes) and its ready flag. */
  datatype Slot = Slot(data: seq<byte>, ready: bool)

  const EmptySlot := Slot([], false)

  datatype Ring = Ring(slots: seq<Slot>, write: nat, read: nat, captured: nat, dropped: nat)

  predicate WellFormed(r: Ring)
  {
    |r.slots| == SLOT_COUNT && r.write < SLOT_COUNT && r.read < SLOT_COUNT
  }

  /** Slot k lies in the cyclic range [read, write). */
  predicate InQueue(read: nat, write: nat, k: nat)
  {
    if read <= write then read <= k < write else read <= k || k < write
  }

  /** The ring invariant kept by every operation of the session. */
  predicate Inv(r: Ring)
  {
    && WellFormed(r)
    && (forall k :: 0 <= k < SLOT_COUNT ==> |r.slots[k].data| <= BUFFER_SIZE)
    && (forall k :: 0 <= k < SLOT_COUNT ==> (r.slots[k].ready <==> InQueue(r.read, r.write, k)))
    && (forall k :: 0 <= k < SLOT_COUNT && r.slots[k].ready ==> IsFrame(r.slots[k].data))
  }

  /** The ring with every slot cleared and both cursors at 0, counters kept. */
  function Cleared(r: Ring): (c: Ring)
    ensures Inv(c)
    ensures c.captured == r.captured && c.dropped == r.dropped
  {
    Ring(seq(SLOT_COUNT, _ => EmptySlot), 0, 0, r.captured, r.dropped)
  }

  /** Number of frames waiting: (write - read) mod SLOT_COUNT. */
  function Pending(r: Ring): nat
    requires WellFormed(r)
  {
    if r.read <= r.write then r.write - r.read else r.write + SLOT_COUNT - r.read
  }

  /** The frames waiting for the consumer, oldest first. */
  function Queue(r: Ring): seq<seq<byte>>
    requires WellFormed(r)
  {
    seq(Pending(r), i requires 0 <= i < Pending(r) => r.slots[(r.read + i) % SLOT_COUNT].data)
  }

  /** Position i of the queue is a slot inside [read, write). */
  lemma QueueSlotInRange(r: Ring, i: nat)
    requires WellFormed(r) && r.write < SLOT_COUNT && i < Pending(r)
    ensures InQueue(r.read, r.write, (r.read + i) % SLOT_COUNT)
  {
  }

  /** Every slot of [read, write) is at some queue position. */
  lemma InRangeSlotInQueue(r: Ring, k: nat)
    requires WellFormed(r) && k < SLOT_COUNT && InQueue(r.read, r.write, k)
    ensures Pending(r) > 0
    ensures var i := if r.read <= k then k - r.read else k + SLOT_COUNT - r.read;
            i < Pending(r) && (r.read + i) % SLOT_COUNT == k
  {
  }

  /** The write slot is never ready, so at most SLOT_COUNT - 1 frames wait. */
  lemma WriteSlotNeverReady(r: Ring)
    requires Inv(r)
    ensures !r.slots[r.write].ready
    ensures Pending(r) < SLOT_COUNT
    ensures |Queue(r)| == Pending(r)
  {
  }

  /** Every frame in the queue is a complete SOI..EOI frame. */
  lemma QueuedFramesAreFrames(r: Ring)
    requires Inv(r)
    ensures forall i :: 0 <= i < |Queue(r)| ==> IsFrame(Queue(r)[i])
  {
    forall i | 0 <= i < |Queue(r)|
      ensures IsFrame(Queue(r)[i])
    {
      QueueSlotInRange(r, i);
    }
  }

  /** Number of ready flags among the first n slots. */
  function ReadyCount(slots: seq<Slot>, n: nat): nat
    requires n <= |slots|
  {
    if n == 0 then 0 else ReadyCount(slots, n - 1) + (if slots[n - 1].ready then 1 else 0)
  }

  /** Number of indices below n inside [read, write). */
  function InQueueBelow(read: nat, write: nat, n: nat): nat
  {
    if read <= write then
      (if n <= read then 0 else if n <= write then n - read else write - read)
    else
      (if n <= write then n else if n <= read then write else write + n - read)
  }

  lemma {:induction false} ReadyCountPrefix(r: Ring, n: nat)
    requires Inv(r) && n <= SLOT_COUNT
    ensures ReadyCount(r.slots, n) == InQueueBelow(r.read, r.write, n)
  {
    if n > 0 {
      ReadyCountPrefix(r, n - 1);
    }
  }

  /** The number of ready slots is exactly the number of waiting frames. */
  lemma ReadyCountIsPending(r: Ring)
    requires Inv(r)
    ensures ReadyCount(r.slots, SLOT_COUNT) == Pending(r) == |Queue(r)|
    ensures ReadyCount(r.slots, SLOT_COUNT) <= SLOT_COUNT - 1
  {
    ReadyCountPrefix(r, SLOT_COUNT);
  }

  // ---------------------------------------------------------------------
  // Consumer side: one locked attempt of camera_read_frame.
  // ---------------------------------------------------------------------

  datatype TakeOutcome = Taken(frame: seq<byte>) | TooSmall(need: nat) | NothingReady

  datatype TakeResult = TakeResult(outcome: TakeOutcome, ring: Ring)

  /**
   * Look at the slot under the read cursor: a ready frame that fits is handed
   * out, its slot cleared and the read cursor advanced; one that does not fit
   * is left where it is.
   */
  function Take(r: Ring, bufferSize: nat): TakeResult
    requires WellFormed(r)
  {
    var s := r.slots[r.read];
    if !s.ready then TakeResult(NothingReady, r)
    else if |s.data| > bufferSize then TakeResult(TooSmall(|s.data|), r)
    else TakeResult(Taken(s.data),
                    r.(slots := r.slots[r.read := EmptySlot], read := (r.read + 1) % SLOT_COUNT))
  }

  /** Handing out the frame under the read cursor shifts the queue by one. */
  lemma TakeHeadShiftsQueue(r: Ring)
    requires Inv(r) && r.slots[r.read].ready
    ensures |Queue(r)| > 0 && Queue(r)[0] == r.slots[r.read].data
    ensures var r' := r.(slots := r.slots[r.read := EmptySlot], read := (r.read + 1) % SLOT_COUNT);
      Inv(r') && Queue(r') == Queue(r)[1..]
  {
    InRangeSlotInQueue(r, r.read);
    var r' := r.(slots := r.slots[r.read := EmptySlot], read := (r.read + 1) % SLOT_COUNT);
    assert Pending(r') == Pending(r) - 1;
    forall k | 0 <= k < SLOT_COUNT
      ensures r'.slots[k].ready <==> InQueue(r'.read, r'.write, k)
    {
    }
    forall i | 0 <= i < Pending(r')
      ensures Queue(r')[i] == Queue(r)[1..][i]
    {
      assert (r'.read + i) % SLOT_COUNT == (r.read + i + 1) % SLOT_COUNT;
    }
  }

  /**
   * The consumer sees a FIFO queue: it gets the oldest waiting frame, which is
   * a complete frame no larger than its buffer, and the rest stay in order.
   * Only the read slot and the read cursor change: the producer's write
   * cursor and its unfinished write slot are left as they were.
   */
  lemma TakeIsFifo(r: Ring, bufferSize: nat)
    requires Inv(r)
    ensures var t := Take(r, bufferSize);
      && Inv(t.ring)
      && t.ring.captured == r.captured && t.ring.dropped == r.dropped
      && t.ring.write == r.write && t.ring.slots[r.write] == r.slots[r.write]
      && (forall k :: 0 <= k < SLOT_COUNT && k != r.read ==> t.ring.slots[k] == r.slots[k])
      && (t.outcome.Taken? ==> t.ring.read == (r.read + 1) % SLOT_COUNT && t.ring.slots[r.read] == EmptySlot)
      && (t.outcome.NothingReady? <==> Queue(r) == [])
      && (t.outcome.NothingReady? ==> t.ring == r)
      && (t.outcome.TooSmall? ==> t.ring == r && |Queue(r)| > 0 && t.outcome.need == |Queue(r)[0]| > bufferSize)
      && (t.outcome.Taken? ==>
            && |Queue(r)| > 0
            && t.outcome.frame == Queue(r)[0]
            && IsFrame(t.outcome.frame)
            && |t.outcome.frame| <= bufferSize
            && Queue(t.ring) == Queue(r)[1..])
  {
    WriteSlotNeverReady(r);
    if r.slots[r.read].ready {
      TakeHeadShiftsQueue(r);
    }
  }
}
