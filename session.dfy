/**
 * The session of one opened camera as a state machine: the streaming flag,
 * the stop event, the read thread, the frame ring and the ordered transport
 * steps issued so far. camera_start_streaming, camera_stop_streaming,
 * camera_close and the locked retry loop of camera_read_frame are functions
 * of this state and of the outcomes the transport reports.
 */
module Session {
  import opened Protocol
  import opened FrameRing
  import opened Reassembler

  // ---------------------------------------------------------------------
  // Result codes (include/useeplus_camera.h).
  // ---------------------------------------------------------------------

  datatype Status =
    | Success | NotFound | OpenFailed | InitFailed | NoFrame
    | BufferSmall | InvalidParam | UsbFailed | Timeout

  /** The integer an API call returns for a status. */
  function Code(s: Status): (c: int)
    ensures -8 <= c <= 0
    ensures c == 0 <==> s == Success
  {
    match s
    case Success => 0
    case NotFound => -1
    case OpenFailed => -2
    case InitFailed => -3
    case NoFrame => -4
    case BufferSmall => -5
    case InvalidParam => -6
    case UsbFailed => -7
    case Timeout => -8
  }

  /** The status a returned integer stands for, if any. */
  function StatusOf(c: int): (s: Option<Status>)
    ensures s.Some? <==> -8 <= c <= 0
    ensures s.Some? ==> Code(s.value) == c
  {
    if c == 0 then Some(Success)
    else if c == -1 then Some(NotFound)
    else if c == -2 then Some(OpenFailed)
    else if c == -3 then Some(InitFailed)
    else if c == -4 then Some(NoFrame)
    else if c == -5 then Some(BufferSmall)
    else if c == -6 then Some(InvalidParam)
    else if c == -7 then Some(UsbFailed)
    else if c == -8 then Some(Timeout)
    else None
  }

  /** Distinct statuses are returned as distinct integers. */
  lemma CodeIsInjective(s: Status, t: Status)
    ensures Code(s) == Code(t) ==> s == t
    ensures StatusOf(Code(s)) == Some(s)
  {
  }

  // ---------------------------------------------------------------------
  // Transport steps.
  // ---------------------------------------------------------------------

  /** Bulk IN endpoint 0x81 and bulk OUT endpoint 0x01 of interface 1. */
  datatype Pipe = PipeIn | PipeOut

  function Endpoint(p: Pipe): (address: byte)
    ensures (address >= 0x80) <==> p == PipeIn
  {
    match p
    case PipeIn => 0x81
    case PipeOut => 0x01
  }

  /** One step the session asks of WinUSB, Win32 events or the scheduler, in issue order. */
  datatype Action =
    | AbortPipe(pipe: Pipe)
    | FlushPipe(pipe: Pipe)
    | ResetPipe(pipe: Pipe)
    | SetAlternateSetting(setting: nat)
    | QueryInterfaceSettings
    | WritePipe(pipe: Pipe, bytes: seq<byte>)
    | Delay(ms: nat)
    | ResetStopEvent
    | SignalStopEvent
    | CreateReadThread
    | JoinReadThread
    | ResetFrameReadyEvent
    | FreeInterface
    | CloseDevice

  /** The connection command, written once to the OUT pipe to start the stream. */
  const CONNECT_CMD: seq<byte> := [0xBB, 0xAA, 0x05, 0x00, 0x00]
  const CONNECT_CMD_SIZE: nat := 5

  /** Clearing stale state on open: abort, flush, reset both pipes, then alternate setting 0. */
  const OpenClearSequence: seq<Action> :=
    [AbortPipe(PipeIn), AbortPipe(PipeOut), FlushPipe(PipeIn), FlushPipe(PipeOut),
     ResetPipe(PipeIn), ResetPipe(PipeOut), SetAlternateSetting(0), Delay(100),
     QueryInterfaceSettings]

  /** What start issues before the alternate setting 1 request can fail. */
  const StartPreamble: seq<Action> :=
    [QueryInterfaceSettings, SetAlternateSetting(0), Delay(10),
     ResetPipe(PipeIn), FlushPipe(PipeIn), SetAlternateSetting(1)]

  /** The cleanup close issues after stopping, before the handles are released. */
  const CloseSequence: seq<Action> :=
    [AbortPipe(PipeIn), AbortPipe(PipeOut), Delay(50),
     FlushPipe(PipeIn), FlushPipe(PipeOut), Delay(50),
     ResetPipe(PipeIn), ResetPipe(PipeOut), Delay(50),
     SetAlternateSetting(0), Delay(100),
     FreeInterface, CloseDevice]

  // ---------------------------------------------------------------------
  // send_command.
  // ---------------------------------------------------------------------

  /** What WinUsb_WritePipe reported: failure, or the number of bytes sent. */
  datatype WriteResult = WriteFailed | Wrote(bytesSent: nat)

  /** A command succeeds only if the write succeeded and sent every byte. */
  function SendCommand(len: nat, w: WriteResult): (s: Status)
    ensures s == Success <==> w == Wrote(len)
    ensures s != Success ==> s == UsbFailed
  {
    match w
    case WriteFailed => UsbFailed
    case Wrote(n) => if n != len then UsbFailed else Success
  }

  // ---------------------------------------------------------------------
  // The session state and its transitions.
  // ---------------------------------------------------------------------

  datatype State = State(
    streaming: bool,
    stopSignalled: bool,
    readThread: bool,
    ring: Ring,
    log: seq<Action>)

  /** The session as camera_open_path leaves it: idle, empty ring, zero counters. */
  function Opened(): (s: State)
    ensures !s.streaming && Inv(s.ring) && Queue(s.ring) == []
    ensures s.ring.captured == 0 && s.ring.dropped == 0
  {
    State(false, false, false, Ring(seq(SLOT_COUNT, _ => EmptySlot), 0, 0, 0, 0), OpenClearSequence)
  }

  /** The outcomes the transport reports to one start attempt. */
  datatype StartInputs = StartInputs(altSettingOk: bool, write: WriteResult, threadCreated: bool)

  datatype Started = Started(status: Status, state: State)

  /** camera_start_streaming on an opened session. */
  function Start(s: State, inp: StartInputs): Started
  {
    if s.streaming then Started(Success, s)
    else
      var pre := s.log + StartPreamble;
      if !inp.altSettingOk then Started(InitFailed, s.(log := pre))
      else
        var sent := SendCommand(CONNECT_CMD_SIZE, inp.write);
        var wrote := pre + [WritePipe(PipeOut, CONNECT_CMD)];
        if sent != Success then Started(sent, s.(log := wrote))
        else
          var launched := wrote + [ResetStopEvent, CreateReadThread];
          if !inp.threadCreated then
            Started(InitFailed, s.(stopSignalled := false, log := launched))
          else
            Started(Success, s.(streaming := true, stopSignalled := false, readThread := true, log := launched))
  }

  /** The status start reports, by the first step that failed. */
  lemma StartStatusByFirstFailure(s: State, inp: StartInputs)
    ensures var st := Start(s, inp);
      && (s.streaming ==> st == Started(Success, s))
      && (!s.streaming ==>
            && (st.status == Success <==> inp.altSettingOk && inp.write == Wrote(CONNECT_CMD_SIZE) && inp.threadCreated)
            && (!inp.altSettingOk ==> st.status == InitFailed)
            && (inp.altSettingOk && inp.write != Wrote(CONNECT_CMD_SIZE) ==> st.status == UsbFailed)
            && (inp.altSettingOk && inp.write == Wrote(CONNECT_CMD_SIZE) && !inp.threadCreated ==> st.status == InitFailed))
  {
  }

  /**
   * Start never touches the ring; it streams afterwards exactly when it
   * reports success; the connection command is written only after
   * alternate setting 1 was selected, and at most once.
   */
  lemma StartKeepsRing(s: State, inp: StartInputs)
    ensures var st := Start(s, inp);
      && st.state.ring == s.ring
      && st.state.streaming == (s.streaming || st.status == Success)
      && (!s.streaming ==> st.state.streaming == (st.status == Success))
      && (st.state.log == s.log || (|st.state.log| > |s.log| && st.state.log[..|s.log|] == s.log))
      && (!s.streaming && inp.altSettingOk ==>
            st.state.log[|s.log| + |StartPreamble|] == WritePipe(PipeOut, CONNECT_CMD))
  {
  }

  /** Starting a session that is streaming changes nothing and succeeds. */
  lemma {:induction false} StartIsIdempotent(s: State, first: StartInputs, again: StartInputs)
    requires Start(s, first).status == Success
    ensures Start(s, first).state.streaming
    ensures Start(Start(s, first).state, again) == Started(Success, Start(s, first).state)
  {
    if !s.streaming {
      StartStatusByFirstFailure(s, first);
    }
  }

  /** What stop issues, given whether a read thread is running. */
  function StopSequence(readThread: bool): seq<Action>
  {
    [SignalStopEvent, AbortPipe(PipeIn)] + (if readThread then [JoinReadThread] else [])
      + [FlushPipe(PipeIn), ResetPipe(PipeIn), ResetFrameReadyEvent, Delay(50)]
  }

  /** camera_stop_streaming: a no-op unless streaming; otherwise halt the thread and clear the ring. */
  function Stop(s: State): State
  {
    if !s.streaming then s
    else State(false, true, false, Cleared(s.ring), s.log + StopSequence(s.readThread))
  }

  /**
   * After stop the session is not streaming and no frame waits; a streaming
   * session has every slot cleared and both cursors at 0, while the
   * statistics counters are kept.
   */
  lemma StopClearsRingKeepsCounters(s: State)
    ensures var t := Stop(s);
      && !t.streaming
      && t.ring.captured == s.ring.captured && t.ring.dropped == s.ring.dropped
      && (s.streaming ==>
            && Inv(t.ring) && Queue(t.ring) == []
            && t.ring.read == 0 && t.ring.write == 0
            && (forall k :: 0 <= k < SLOT_COUNT ==> t.ring.slots[k] == EmptySlot)
            && !t.readThread && t.stopSignalled)
      && (!s.streaming ==> t == s)
  {
  }

  /** Stopping twice is stopping once. */
  lemma StopIsIdempotent(s: State)
    ensures Stop(Stop(s)) == Stop(s)
  {
  }

  /**
   * A successful start followed by a stop returns the session to idle with an
   * empty queue and the counters it had, after exactly the start steps and
   * the stop steps.
   */
  lemma {:induction false} StartThenStop(s: State, inp: StartInputs)
    requires !s.streaming && Start(s, inp).status == Success
    ensures var t := Stop(Start(s, inp).state);
      && !t.streaming && Inv(t.ring) && Queue(t.ring) == []
      && t.ring.captured == s.ring.captured && t.ring.dropped == s.ring.dropped
      && t.log == s.log + StartPreamble + [WritePipe(PipeOut, CONNECT_CMD), ResetStopEvent, CreateReadThread]
                  + StopSequence(true)
  {
    StartStatusByFirstFailure(s, inp);
    StopClearsRingKeepsCounters(Start(s, inp).state);
  }

  /** camera_close: stop, then the cleanup sequence; the steps it issues. */
  function CloseLog(s: State): seq<Action>
  {
    Stop(s).log + CloseSequence
  }

  /**
   * Close stops a streaming session first; its cleanup aborts both pipes
   * before any flush, flushes before any reset, and returns to alternate
   * setting 0 before the interface and device handles are released.
   */
  lemma CloseOrdersCleanup(s: State)
    ensures var l := CloseLog(s);
      && l == s.log + (if s.streaming then StopSequence(s.readThread) else []) + CloseSequence
      && l[|l| - 4] == SetAlternateSetting(0)
      && l[|l| - 2] == FreeInterface && l[|l| - 1] == CloseDevice
      && (forall i, j :: 0 <= i < j < |CloseSequence| && CloseSequence[j].AbortPipe? ==> !CloseSequence[i].FlushPipe?)
      && (forall i, j :: 0 <= i < j < |CloseSequence| && CloseSequence[j].FlushPipe? ==> !CloseSequence[i].ResetPipe?)
  {
  }

  // ---------------------------------------------------------------------
  // camera_read_frame: the locked retry loop.
  // ---------------------------------------------------------------------

  /** INFINITE, the wait-forever timeout of WaitForSingleObject. */
  const INFINITE: nat := 0xFFFF_FFFF

  /** A timeout of 0 means wait forever. */
  function WaitTimeout(timeoutMs: nat): (t: nat)
    ensures t == INFINITE <==> timeoutMs == 0 || timeoutMs == INFINITE
    ensures timeoutMs != 0 ==> t == timeoutMs
  {
    if timeoutMs == 0 then INFINITE else timeoutMs
  }

  /**
   * How one wait on the frame-ready event ends. While the consumer waits the
   * read thread may process chunks; `produced` are the chunks it processed
   * before the event woke the consumer.
   */
  datatype Wake = Signalled(produced: seq<seq<byte>>) | WaitTimedOut | WaitFailed

  predicate WakesBounded(wakes: seq<Wake>)
  {
    forall i :: 0 <= i < |wakes| && wakes[i].Signalled? ==> Bounded(wakes[i].produced)
  }

  /** What the retry loop returns: a status and the frame copied out, or still blocked. */
  datatype Reply = Replied(status: Status, frame: seq<byte>) | StillWaiting

  datatype Awaited = Awaited(reply: Reply, ring: Ring)

  /**
   * The retry loop: take the frame under the read cursor if one is ready;
   * otherwise wait, report a timeout or a failed wait, or look again once the
   * event is signalled.
   */
  function AwaitFrame(r: Ring, bufferSize: nat, wakes: seq<Wake>): (a: Awaited)
    requires WellFormed(r) && WakesBounded(wakes)
    ensures WellFormed(a.ring)
    decreases |wakes|
  {
    var t := Take(r, bufferSize);
    match t.outcome
    case Taken(f) => Awaited(Replied(Success, f), t.ring)
    case TooSmall(_) => Awaited(Replied(BufferSmall, []), r)
    case NothingReady =>
      if wakes == [] then Awaited(StillWaiting, r)
      else
        assert WakesBounded(wakes[1..]);
        match wakes[0]
        case WaitTimedOut => Awaited(Replied(Timeout, []), r)
        case WaitFailed => Awaited(Replied(UsbFailed, []), r)
        case Signalled(p) => AwaitFrame(FeedAll(r, p), bufferSize, wakes[1..])
  }

  /**
   * The loop keeps the ring invariant and the counters never decrease; only
   * Success, BufferSmall, Timeout and UsbFailed can come out of it; a frame
   * handed out is a complete frame that fits the caller's buffer, and a
   * timeout, a failed wait or a still-blocked caller leaves no frame waiting.
   */
  lemma {:induction false} AwaitFrameKeepsInv(r: Ring, bufferSize: nat, wakes: seq<Wake>)
    requires Inv(r) && WakesBounded(wakes)
    ensures var a := AwaitFrame(r, bufferSize, wakes);
      && Inv(a.ring)
      && a.ring.captured >= r.captured && a.ring.dropped >= r.dropped
      && (a.reply.Replied? ==> a.reply.status in {Success, BufferSmall, Timeout, UsbFailed})
      && (a.reply.Replied? && a.reply.status == Success ==>
            IsFrame(a.reply.frame) && |a.reply.frame| <= bufferSize)
      && (a.reply.Replied? && a.reply.status != Success ==> a.reply.frame == [])
      && (a.reply.Replied? && a.reply.status == BufferSmall ==>
            |Queue(a.ring)| > 0 && |Queue(a.ring)[0]| > bufferSize)
      && (a.reply.Replied? && a.reply.status in {Timeout, UsbFailed} ==> Queue(a.ring) == [])
      && (a.reply.StillWaiting? ==> Queue(a.ring) == [])
    decreases |wakes|
  {
    TakeIsFifo(r, bufferSize);
    if !r.slots[r.read].ready && wakes != [] && wakes[0].Signalled? {
      assert WakesBounded(wakes[1..]);
      FeedAllPreservesInv(r, wakes[0].produced);
      AwaitFrameKeepsInv(FeedAll(r, wakes[0].produced), bufferSize, wakes[1..]);
    }
  }

  /**
   * With a frame already waiting the caller never blocks: it gets the oldest
   * waiting frame and the rest stay queued in order, with only the read slot
   * and read cursor changed, or BufferSmall with the ring untouched when that
   * frame does not fit.
   */
  lemma ReadyFrameIsServedOldestFirst(r: Ring, bufferSize: nat, wakes: seq<Wake>)
    requires Inv(r) && WakesBounded(wakes) && Queue(r) != []
    ensures var a := AwaitFrame(r, bufferSize, wakes);
      && (|Queue(r)[0]| <= bufferSize ==>
            && a.reply == Replied(Success, Queue(r)[0]) && Queue(a.ring) == Queue(r)[1..]
            && a.ring.read == (r.read + 1) % SLOT_COUNT && a.ring.slots[r.read] == EmptySlot
            && a.ring.write == r.write && a.ring.slots[r.write] == r.slots[r.write]
            && a.ring.captured == r.captured && a.ring.dropped == r.dropped)
      && (|Queue(r)[0]| > bufferSize ==> a.reply == Replied(BufferSmall, []) && a.ring == r)
  {
    TakeIsFifo(r, bufferSize);
  }

  /** With nothing waiting, a timed-out wait reports Timeout and changes nothing. */
  lemma EmptyRingTimesOut(r: Ring, bufferSize: nat, rest: seq<Wake>)
    requires Inv(r) && WakesBounded([WaitTimedOut] + rest) && Queue(r) == []
    ensures AwaitFrame(r, bufferSize, [WaitTimedOut] + rest) == Awaited(Replied(Timeout, []), r)
  {
    TakeIsFifo(r, bufferSize);
  }
}
