/**
 * The opened camera (camera_device_t) as an object whose methods update its
 * slots, cursors, counters and flags in place. Each locked region of the
 * driver is one method; each is proved to move the object exactly as the
 * corresponding function of the pure model moves its abstract value.
 */
module Camera {
  import opened Protocol
  import opened FrameRing
  import opened Reassembler
  import opened ReadLoop
  import opened Session

  class Device {
    /** The frame ring: SLOT_COUNT slots, each its logical bytes and ready flag. */
    var frames: array<Slot>
    var writeFrame: nat
    var readFrame: nat
    var framesCaptured: nat
    var framesDropped: nat
    var streaming: bool
    /** The manual-reset stop event. */
    var stopSignalled: bool
    /** A read thread handle is held. */
    var readThread: bool
    /** The transport steps issued so far, in order. */
    var log: seq<Action>
    /** The handle has not been closed. */
    var isOpen: bool

    ghost function View(): Ring
      reads this, frames
    {
      Ring(frames[..], writeFrame, readFrame, framesCaptured, framesDropped)
    }

    ghost function Snapshot(): State
      reads this, frames
    {
      State(streaming, stopSignalled, readThread, View(), log)
    }

    ghost predicate Valid()
      reads this, frames
    {
      frames.Length == SLOT_COUNT && Inv(View())
    }

    /** camera_open_path once the device and its WinUSB interface are open. */
    constructor Open()
      ensures Valid() && isOpen && fresh(frames)
      ensures Snapshot() == Opened()
    {
      frames := new Slot[SLOT_COUNT](_ => EmptySlot);
      writeFrame, readFrame := 0, 0;
      framesCaptured, framesDropped := 0, 0;
      streaming, stopSignalled, readThread := false, false, false;
      log := OpenClearSequence;
      isOpen := true;
      new;
      assert frames[..] == seq(SLOT_COUNT, _ => EmptySlot);
    }

    /** The slot array and both cursors have the ring's shape. */
    ghost predicate Shaped()
      reads this, frames
    {
      frames.Length == SLOT_COUNT && WellFormed(View())
    }

    /** process_data: one chunk from the read loop, under the frame lock. */
    method ProcessData(data: seq<byte>)
      requires Valid() && |data| <= BUFFER_SIZE
      modifies this, frames
      ensures Valid() && frames == old(frames) && isOpen == old(isOpen)
      ensures Snapshot() == old(Snapshot()).(ring := Process(old(View()), data))
    {
      ghost var r := View();
      ProcessIsFifoWithDropOldest(r, data);
      if |data| >= 3 && data[0] == 0xAA && data[1] == 0xBB && data[2] == 0x07 && |data| > HEADER_SIZE {
        var content, fits := StorePayload(data[HEADER_SIZE..]);
        if fits {
          ghost var r1 := View();
          var end := ScanForFrameEnd(content);
          if end.Some? {
            assert Process(r, data) == DiscardOversized(Complete(r1, content[..end.value + 1], content[end.value + 1..]));
            CompleteFrame(content, end.value);
          } else {
            assert Process(r, data) == DiscardOversized(r1);
          }
          DiscardOversizedSlot();
        }
      }
      assert View() == Process(r, data);
    }

    /**
     * The first half of process_data for an accepted record: an SOI payload
     * discards an unfinished slot; a payload that does not fit empties the
     * slot, or re-seeds it with the payload when that starts with SOI;
     * otherwise the payload is appended.
     */
    method StorePayload(payload: seq<byte>) returns (content: seq<byte>, fits: bool)
      requires Shaped() && |payload| <= BUFFER_SIZE
      modifies frames
      ensures Shaped()
      ensures var slot := old(frames[writeFrame]);
        && (fits <==> |KeptBytes(slot, payload)| + |payload| <= BUFFER_SIZE)
        && (fits ==> content == KeptBytes(slot, payload) + payload)
        && Snapshot() == old(Snapshot()).(ring := old(View()).(slots := old(View()).slots[writeFrame :=
             if fits then Slot(content, slot.ready)
             else Slot(if StartsWithSOI(payload) then payload else [], false)]))
    {
      var frame := frames[writeFrame];
      content := frame.data;
      if |payload| >= 2 && payload[0] == 0xFF && payload[1] == 0xD8 {
        if |content| > 0 && !frame.ready {
          content := [];
        }
      }
      if |content| + |payload| > BUFFER_SIZE {
        var seed := if |payload| >= 2 && payload[0] == 0xFF && payload[1] == 0xD8 then payload else [];
        frames[writeFrame] := Slot(seed, false);
        return content, false;
      }
      content := content + payload;
      frames[writeFrame] := Slot(content, frame.ready);
      return content, true;
    }

    /**
     * The frame-completion branch of process_data: freeze content[..e + 1]
     * in the write slot, advance the write cursor (dropping the oldest frame
     * when it lands on it) and seed the new write slot with the leftover.
     */
    method CompleteFrame(content: seq<byte>, e: nat)
      requires Shaped() && e < |content|
      modifies this, frames
      ensures Shaped() && frames == old(frames) && isOpen == old(isOpen)
      ensures Snapshot() == old(Snapshot()).(ring := Complete(old(View()), content[..e + 1], content[e + 1..]))
    {
      var leftover := content[e + 1..];
      frames[writeFrame] := Slot(content[..e + 1], true);
      framesCaptured := framesCaptured + 1;
      var next := (writeFrame + 1) % SLOT_COUNT;
      if next == readFrame && frames[readFrame].ready {
        framesDropped := framesDropped + 1;
        readFrame := (readFrame + 1) % SLOT_COUNT;
      }
      writeFrame := next;
      if |leftover| >= 2 && leftover[0] == 0xFF && leftover[1] == 0xD8 {
        frames[writeFrame] := Slot(leftover, false);
      } else {
        frames[writeFrame] := Slot([], false);
      }
    }

    /** The safety valve of process_data, applied to the current write slot. */
    method DiscardOversizedSlot()
      requires Shaped()
      modifies frames
      ensures Shaped()
      ensures Snapshot() == old(Snapshot()).(ring := DiscardOversized(old(View())))
    {
      if |frames[writeFrame].data| > MAX_JPEG_SIZE && !frames[writeFrame].ready {
        frames[writeFrame] := EmptySlot;
      }
    }

    /**
     * The locked look at the read cursor in camera_read_frame: a ready frame
     * that fits is copied into the caller's buffer, its slot cleared and the
     * read cursor advanced; otherwise nothing changes.
     */
    method TakeReady(buffer: array<byte>, bufferSize: nat) returns (outcome: TakeOutcome)
      requires Valid() && bufferSize <= buffer.Length
      modifies frames, this`readFrame, buffer
      ensures Valid()
      ensures var t := Take(old(View()), bufferSize);
        outcome == t.outcome && Snapshot() == old(Snapshot()).(ring := t.ring)
      ensures outcome.Taken? ==> |outcome.frame| <= buffer.Length && buffer[..|outcome.frame|] == outcome.frame
      ensures outcome.Taken? ==> buffer[|outcome.frame|..] == old(buffer[|outcome.frame|..])
      ensures !outcome.Taken? ==> buffer[..] == old(buffer[..])
    {
      TakeIsFifo(View(), bufferSize);
      var slot := frames[readFrame];
      if !slot.ready {
        return NothingReady;
      }
      if |slot.data| > bufferSize {
        return TooSmall(|slot.data|);
      }
      CopyOut(slot.data, buffer);
      frames[readFrame] := EmptySlot;
      readFrame := (readFrame + 1) % SLOT_COUNT;
      return Taken(slot.data);
    }

    /** The locked region of camera_stop_streaming: every slot emptied, both cursors at 0. */
    method ClearSlots()
      requires Shaped()
      modifies this`readFrame, this`writeFrame, frames
      ensures Valid()
      ensures Snapshot() == old(Snapshot()).(ring := Cleared(old(View())))
    {
      for i := 0 to SLOT_COUNT
        invariant forall k :: 0 <= k < i ==> frames[k] == EmptySlot
      {
        frames[i] := EmptySlot;
      }
      readFrame := 0;
      writeFrame := 0;
      assert frames[..] == seq(SLOT_COUNT, _ => EmptySlot);
    }

    /** The read thread processing, in order, chunks it received. */
    method ProcessAll(chunks: seq<seq<byte>>)
      requires Valid() && Bounded(chunks)
      modifies this, frames
      ensures Valid() && frames == old(frames) && isOpen == old(isOpen)
      ensures Snapshot() == old(Snapshot()).(ring := FeedAll(old(View()), chunks))
    {
      var i := 0;
      while i < |chunks|
        invariant 0 <= i <= |chunks|
        invariant Valid() && frames == old(frames) && isOpen == old(isOpen)
        invariant FeedAll(old(View()), chunks) == FeedAll(View(), chunks[i..])
        invariant Snapshot() == old(Snapshot()).(ring := View())
      {
        assert chunks[i..][1..] == chunks[i + 1..];
        ProcessData(chunks[i]);
        i := i + 1;
      }
    }

    /**
     * read_thread_proc over the turns it gets: stop before reading when the
     * stop is signalled, retry a timed-out read, end on any other error, and
     * hand every non-empty transfer to process_data.
     */
    method ReadThread(steps: seq<ReadStep>) returns (exit: LoopExit, issued: nat)
      requires Valid() && StepsBounded(steps)
      modifies this, frames
      ensures Valid() && frames == old(frames) && isOpen == old(isOpen)
      ensures var res := Run(old(View()), steps);
        && exit == res.exit && issued == res.issued
        && Snapshot() == old(Snapshot()).(ring := res.ring)
    {
      var i := 0;
      while i < |steps|
        invariant 0 <= i <= |steps|
        invariant Valid() && frames == old(frames) && isOpen == old(isOpen)
        invariant StepsBounded(steps[i..])
        invariant Run(old(View()), steps) == Shifted(Run(View(), steps[i..]), i)
        invariant Snapshot() == old(Snapshot()).(ring := View())
      {
        ghost var before := View();
        ghost var rest := steps[i..];
        assert rest[0] == steps[i] && rest[1..] == steps[i + 1..];
        if steps[i].stopSignalled {
          assert Run(before, rest) == LoopResult(before, StopRequested, 0);
          return StopRequested, i;
        }
        match steps[i].outcome {
          case ReadFailed(error) =>
            if !IsTimeout(error) {
              assert Run(before, rest) == LoopResult(before, TransportFailed(error), 1);
              return TransportFailed(error), i + 1;
            }
          case Received(data) =>
            if |data| > 0 {
              ProcessData(data);
            }
        }
        assert View() == AfterRead(before, steps[i].outcome);
        assert Run(before, rest) == Shifted(Run(View(), steps[i + 1..]), 1);
        i := i + 1;
      }
      return InputExhausted, i;
    }
  }

  /** What the objects a session operation may change are. */
  function Footprint(dev: Device?): set<object>
    reads dev
  {
    if dev == null then {} else var d: Device := dev; {d, d.frames}
  }

  /** camera_is_streaming. */
  function IsStreaming(dev: Device?): (b: bool)
    reads dev
    ensures b <==> dev != null && dev.streaming
  {
    if dev == null then false else dev.streaming
  }

  datatype Stats = Stats(status: Status, captured: Option<nat>, dropped: Option<nat>)

  /** camera_get_stats: each counter is reported only to a caller that asked for it. */
  function GetStats(dev: Device?, wantCaptured: bool, wantDropped: bool): (st: Stats)
    reads dev
    ensures dev == null ==> st == Stats(InvalidParam, None, None)
    ensures dev != null ==> st.status == Success
    ensures st.captured.Some? <==> dev != null && wantCaptured
    ensures st.dropped.Some? <==> dev != null && wantDropped
    ensures st.captured.Some? ==> st.captured.value == dev.framesCaptured
    ensures st.dropped.Some? ==> st.dropped.value == dev.framesDropped
  {
    if dev == null then Stats(InvalidParam, None, None)
    else Stats(Success,
               if wantCaptured then Some(dev.framesCaptured) else None,
               if wantDropped then Some(dev.framesDropped) else None)
  }

  /** camera_start_streaming. */
  method StartStreaming(dev: Device?, inp: StartInputs) returns (s: Status)
    requires dev != null ==> dev.Valid() && dev.isOpen
    modifies dev
    ensures dev == null ==> s == InvalidParam
    ensures dev != null ==> dev.Valid() && dev.isOpen && dev.frames == old(dev.frames)
    ensures dev != null ==> Started(s, dev.Snapshot()) == Start(old(dev.Snapshot()), inp)
  {
    if dev == null {
      return InvalidParam;
    }
    if dev.streaming {
      return Success;
    }
    dev.log := dev.log + [QueryInterfaceSettings];
    dev.log := dev.log + [SetAlternateSetting(0), Delay(10)];
    dev.log := dev.log + [ResetPipe(PipeIn), FlushPipe(PipeIn)];
    dev.log := dev.log + [SetAlternateSetting(1)];
    assert dev.log == old(dev.log) + StartPreamble;
    if !inp.altSettingOk {
      return InitFailed;
    }
    dev.log := dev.log + [WritePipe(PipeOut, CONNECT_CMD)];
    var ret := SendCommand(CONNECT_CMD_SIZE, inp.write);
    if ret != Success {
      return ret;
    }
    dev.stopSignalled := false;
    dev.log := dev.log + [ResetStopEvent];
    dev.streaming := true;
    dev.log := dev.log + [CreateReadThread];
    if !inp.threadCreated {
      dev.streaming := false;
      return InitFailed;
    }
    dev.readThread := true;
    return Success;
  }

  /** camera_stop_streaming. */
  method StopStreaming(dev: Device?)
    requires dev != null ==> dev.Valid() && dev.isOpen
    modifies Footprint(dev)
    ensures dev != null ==> dev.Valid() && dev.isOpen && dev.frames == old(dev.frames)
    ensures dev != null ==> dev.Snapshot() == Stop(old(dev.Snapshot()))
  {
    if dev == null || !dev.streaming {
      return;
    }
    ghost var before := dev.Snapshot();
    dev.streaming := false;
    dev.stopSignalled := true;
    dev.log := dev.log + [SignalStopEvent];
    dev.log := dev.log + [AbortPipe(PipeIn)];
    if dev.readThread {
      dev.log := dev.log + [JoinReadThread];
      dev.readThread := false;
    }
    dev.log := dev.log + [FlushPipe(PipeIn), ResetPipe(PipeIn)];
    dev.ClearSlots();
    dev.log := dev.log + [ResetFrameReadyEvent];
    dev.log := dev.log + [Delay(50)];
    assert dev.log == before.log + StopSequence(before.readThread);
  }

  /** camera_close: stop, then the cleanup sequence, then release the handle. */
  method Close(dev: Device?)
    requires dev != null ==> dev.Valid() && dev.isOpen
    modifies Footprint(dev)
    ensures dev != null ==> !dev.isOpen && dev.log == CloseLog(old(dev.Snapshot()))
  {
    if dev == null {
      return;
    }
    StopStreaming(dev);
    dev.log := dev.log + [AbortPipe(PipeIn), AbortPipe(PipeOut), Delay(50)];
    dev.log := dev.log + [FlushPipe(PipeIn), FlushPipe(PipeOut), Delay(50)];
    dev.log := dev.log + [ResetPipe(PipeIn), ResetPipe(PipeOut), Delay(50)];
    dev.log := dev.log + [SetAlternateSetting(0), Delay(100)];
    dev.log := dev.log + [FreeInterface, CloseDevice];
    assert dev.log == Stop(old(dev.Snapshot())).log + CloseSequence;
    dev.isOpen := false;
  }

  /** The memcpy of a frame into the start of the caller's buffer. */
  method CopyOut(data: seq<byte>, buffer: array<byte>)
    requires |data| <= buffer.Length
    modifies buffer
    ensures buffer[..|data|] == data
    ensures buffer[|data|..] == old(buffer[|data|..])
  {
    forall k | 0 <= k < |data| {
      buffer[k] := data[k];
    }
  }

  /** What camera_read_frame returns, and what it stored through bytes_read. */
  datatype FrameReadResult = FrameReadResult(reply: Reply, bytesRead: Option<nat>)

  /**
   * camera_read_frame. `buffer` is the caller's buffer (null when absent),
   * `hasBytesRead` whether the out-pointer is non-null, and `wakes` how the
   * waits on the frame-ready event end.
   */
  method ReadFrame(dev: Device?, buffer: array?<byte>, bufferSize: nat, hasBytesRead: bool,
                   timeoutMs: nat, wakes: seq<Wake>) returns (res: FrameReadResult)
    requires dev != null ==> dev.Valid() && dev.isOpen
    requires buffer != null ==> bufferSize <= buffer.Length
    requires timeoutMs < 0x1_0000_0000 && WakesBounded(wakes)
    requires WaitTimeout(timeoutMs) == INFINITE ==> forall i :: 0 <= i < |wakes| ==> !wakes[i].WaitTimedOut?
    modifies Footprint(dev), buffer
    ensures dev == null || buffer == null || !hasBytesRead ==>
      res == FrameReadResult(Replied(InvalidParam, []), None)
    ensures dev != null ==> dev.Valid() && dev.frames == old(dev.frames)
    ensures dev != null && buffer != null && hasBytesRead && !old(dev.streaming) ==>
      res == FrameReadResult(Replied(NoFrame, []), Some(0)) && dev.Snapshot() == old(dev.Snapshot())
    ensures dev != null && buffer != null && hasBytesRead && old(dev.streaming) ==>
      var a := AwaitFrame(old(dev.View()), bufferSize, wakes);
      && res.reply == a.reply
      && dev.Snapshot() == old(dev.Snapshot()).(ring := a.ring)
      && res.bytesRead == Some(if a.reply.Replied? && a.reply.status == Success then |a.reply.frame| else 0)
      && (a.reply.Replied? && a.reply.status == Success ==>
            |a.reply.frame| <= buffer.Length && buffer[..|a.reply.frame|] == a.reply.frame)
    ensures dev != null ==> dev.isOpen
    ensures dev != null && (buffer == null || !hasBytesRead) ==> dev.Snapshot() == old(dev.Snapshot())
    ensures buffer != null && !(res.reply.Replied? && res.reply.status == Success) ==> buffer[..] == old(buffer[..])
    ensures buffer != null && res.reply.Replied? && res.reply.status == Success ==>
      |res.reply.frame| <= buffer.Length && buffer[|res.reply.frame|..] == old(buffer[|res.reply.frame|..])
  {
    if dev == null || buffer == null || !hasBytesRead {
      return FrameReadResult(Replied(InvalidParam, []), None);
    }
    if !dev.streaming {
      return FrameReadResult(Replied(NoFrame, []), Some(0));
    }
    var i := 0;
    while true
      invariant 0 <= i <= |wakes|
      invariant dev.Valid() && dev.frames == old(dev.frames) && dev.isOpen
      invariant WakesBounded(wakes[i..])
      invariant AwaitFrame(old(dev.View()), bufferSize, wakes) == AwaitFrame(dev.View(), bufferSize, wakes[i..])
      invariant dev.Snapshot() == old(dev.Snapshot()).(ring := dev.View())
      invariant buffer[..] == old(buffer[..])
      decreases |wakes| - i
    {
      var taken := dev.TakeReady(buffer, bufferSize);
      match taken {
        case Taken(frame) =>
          return FrameReadResult(Replied(Success, frame), Some(|frame|));
        case TooSmall(_) =>
          return FrameReadResult(Replied(BufferSmall, []), Some(0));
        case NothingReady =>
      }
      if i == |wakes| {
        return FrameReadResult(StillWaiting, Some(0));
      }
      assert wakes[i..][1..] == wakes[i + 1..];
      match wakes[i] {
        case WaitTimedOut =>
          return FrameReadResult(Replied(Timeout, []), Some(0));
        case WaitFailed =>
          return FrameReadResult(Replied(UsbFailed, []), Some(0));
        case Signalled(produced) =>
          dev.ProcessAll(produced);
      }
      i := i + 1;
    }
  }
}
