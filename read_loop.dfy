/**
 * The producer loop (read_thread_proc) as a fold over the outcomes of its bulk
 * reads. Before each read the loop checks whether the session asked it to
 * stop; a read that timed out is retried, any other transport error ends the
 * loop, and a non-empty transfer is handed to the reassembler.
 */
module ReadLoop {
  import opened Protocol
  import opened FrameRing
  import opened Reassembler

  /** The Win32 error codes a timed-out WinUsb_ReadPipe reports. */
  const ERROR_SEM_TIMEOUT: nat := 121
  const ERROR_TIMEOUT: nat := 1460

  predicate IsTimeout(error: nat)
  {
    error == ERROR_SEM_TIMEOUT || error == ERROR_TIMEOUT
  }

  /** What one WinUsb_ReadPipe call returned. */
  datatype ReadOutcome = Received(data: seq<byte>) | ReadFailed(error: nat)

  /**
   * One turn of the loop: whether the stop request (streaming cleared or the
   * stop event set) is visible at the check, and what the read then returns.
   */
  datatype ReadStep = ReadStep(stopSignalled: bool, outcome: ReadOutcome)

  datatype LoopExit = StopRequested | TransportFailed(error: nat) | InputExhausted

  /** The ring after the loop, why it ended, and how many reads it issued. */
  datatype LoopResult = LoopResult(ring: Ring, exit: LoopExit, issued: nat)

  /** A read error that ends the loop. */
  predicate IsFatal(o: ReadOutcome)
  {
    o.ReadFailed? && !IsTimeout(o.error)
  }

  /** Every transfer fits the loop's BUFFER_SIZE-byte buffer. */
  predicate StepsBounded(steps: seq<ReadStep>)
  {
    forall i :: 0 <= i < |steps| && steps[i].outcome.Received? ==> |steps[i].outcome.data| <= BUFFER_SIZE
  }

  /** What one read hands to the reassembler: its transfer, if non-empty. */
  function ChunkOf(o: ReadOutcome): seq<seq<byte>>
  {
    if o.Received? && |o.data| > 0 then [o.data] else []
  }

  /** The ring after one read that did not end the loop. */
  function AfterRead(r: Ring, o: ReadOutcome): (r': Ring)
    requires WellFormed(r) && (o.Received? ==> |o.data| <= BUFFER_SIZE)
    ensures WellFormed(r')
  {
    if o.Received? && |o.data| > 0 then Process(r, o.data) else r
  }

  /** The transfers the loop hands to the reassembler: the non-empty ones, in order. */
  function Chunks(steps: seq<ReadStep>): (cs: seq<seq<byte>>)
    ensures StepsBounded(steps) ==> Bounded(cs)
    ensures |cs| <= |steps|
  {
    if steps == [] then []
    else
      assert StepsBounded(steps) ==> StepsBounded(steps[1..]);
      ChunkOf(steps[0].outcome) + Chunks(steps[1..])
  }

  function Shifted(res: LoopResult, n: nat): LoopResult
  {
    res.(issued := res.issued + n)
  }

  /**
   * read_thread_proc over the given turns. The loop reads only while no stop
   * is signalled and no fatal error has occurred; it ends at a stop (before
   * reading), right after a fatal error, or when the turns run out.
   */
  function Run(r: Ring, steps: seq<ReadStep>): (res: LoopResult)
    requires WellFormed(r) && StepsBounded(steps)
    ensures WellFormed(res.ring)
    ensures res.issued <= |steps|
    ensures forall j :: 0 <= j < res.issued ==> !steps[j].stopSignalled
    ensures forall j :: 0 <= j < res.issued - 1 ==> !IsFatal(steps[j].outcome)
    ensures res.exit == StopRequested ==> res.issued < |steps| && steps[res.issued].stopSignalled
    ensures res.exit.TransportFailed? ==>
      1 <= res.issued && steps[res.issued - 1].outcome == ReadFailed(res.exit.error) && !IsTimeout(res.exit.error)
    ensures res.exit == InputExhausted ==> res.issued == |steps| && (|steps| > 0 ==> !IsFatal(steps[|steps| - 1].outcome))
    decreases |steps|
  {
    if steps == [] then LoopResult(r, InputExhausted, 0)
    else if steps[0].stopSignalled then LoopResult(r, StopRequested, 0)
    else if IsFatal(steps[0].outcome) then LoopResult(r, TransportFailed(steps[0].outcome.error), 1)
    else
      assert StepsBounded(steps[1..]);
      Shifted(Run(AfterRead(r, steps[0].outcome), steps[1..]), 1)
  }

  /** The chunks of a non-empty prefix: the first read's, then the rest's. */
  lemma ChunksOfPrefix(steps: seq<ReadStep>, n: nat)
    requires 1 <= n <= |steps|
    ensures Chunks(steps[..n]) == ChunkOf(steps[0].outcome) + Chunks(steps[1..][..n - 1])
  {
    assert steps[..n][1..] == steps[1..][..n - 1];
  }

  /** Feeding one read's chunk and then the rest is feeding the rest after that read. */
  lemma FeedAfterRead(r: Ring, o: ReadOutcome, tail: seq<seq<byte>>)
    requires WellFormed(r) && (o.Received? ==> |o.data| <= BUFFER_SIZE) && Bounded(tail)
    ensures Bounded(ChunkOf(o) + tail)
    ensures FeedAll(r, ChunkOf(o) + tail) == FeedAll(AfterRead(r, o), tail)
  {
    if o.Received? && |o.data| > 0 {
      assert (ChunkOf(o) + tail)[1..] == tail;
    } else {
      assert ChunkOf(o) + tail == tail;
    }
  }

  /**
   * The ring the loop leaves behind is the reassembler fed, in order, with
   * exactly the non-empty transfers of the reads it issued.
   */
  lemma {:induction false} RunFeedsReceivedChunks(r: Ring, steps: seq<ReadStep>)
    requires WellFormed(r) && StepsBounded(steps)
    ensures var res := Run(r, steps);
      Bounded(Chunks(steps[..res.issued])) && res.ring == FeedAll(r, Chunks(steps[..res.issued]))
    decreases |steps|
  {
    var res := Run(r, steps);
    if res.issued == 0 {
      assert steps[..0] == [];
    } else if IsFatal(steps[0].outcome) {
      assert steps[..1] == [steps[0]];
      assert Chunks(steps[..1]) == [];
    } else {
      var rest := steps[1..];
      assert StepsBounded(rest);
      var o := steps[0].outcome;
      RunFeedsReceivedChunks(AfterRead(r, o), rest);
      ChunksOfPrefix(steps, res.issued);
      FeedAfterRead(r, o, Chunks(rest[..res.issued - 1]));
    }
  }

  /** Whatever the reads return, the ring invariant holds when the loop ends. */
  lemma RunPreservesInv(r: Ring, steps: seq<ReadStep>)
    requires Inv(r) && StepsBounded(steps)
    ensures Inv(Run(r, steps).ring)
    ensures Run(r, steps).ring.captured >= r.captured
  {
    RunFeedsReceivedChunks(r, steps);
    FeedAllPreservesInv(r, Chunks(steps[..Run(r, steps).issued]));
  }
}
