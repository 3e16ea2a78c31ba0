# Useeplus SuperCamera driver core, modelled in Dafny

This project models the deterministic core of the Useeplus SuperCamera Windows
user-mode driver (`src/useeplus_camera.c`). The camera streams JPEG images over
a USB bulk endpoint, in chunks of up to 64 KiB. Each chunk carries a 12-byte
proprietary record header that starts `AA BB 07`.

The driver works in three layers:

- **The reassembler** (`process_data`) strips the headers and accumulates the
  payloads in the current write slot of a 12-slot frame ring. It freezes a
  frame once the slot holds an SOI `FF D8` … EOI `FF D9` span of at least 1000
  bytes; these markers are defined in Annex B.1.1.3, Table B.1 of ITU-T T.81.
  It then advances the write cursor, dropping the oldest waiting frame when
  the ring is full.
- **The consumer** (`camera_read_frame`) hands out frames oldest-first.
- **The session functions** start, stop and close the stream.

Every operation is proved against the pure model; the properties are stated
as lemmas.

Modules, one per component:

- `Protocol` (protocol.dfy): constants, the record/JPEG marker predicates and
  the EOI scan, both as a function and as the loop of `process_data`.
- `FrameRing` (frame_ring.dfy): the ring as a value.
  - The invariant `Inv`: the ready slots are exactly the cyclic range
    [read, write), and every ready slot holds a complete frame.
  - The queue view `Queue`.
  - `Take`: the locked part of `camera_read_frame`.
- `Reassembler` (reassembler.dfy): `process_data` as the function `Process`.
  Its lemmas cover every branch and prove that, on the queue, the ring is a
  bounded FIFO that drops the oldest frame. They also prove that chunk
  boundaries do not matter for a frame split over several records, within the
  limits the code sets:
  - only the first record's payload starts with SOI; a later one would
    restart the frame;
  - no EOI qualifies before the frame's last byte;
  - the frame is at most 61440 bytes, the size the safety valve allows.
- `ReadLoop` (read_loop.dfy): `read_thread_proc` as a fold over the outcomes of
  its reads.
- `Session` (session.dfy):
  - the status codes;
  - start, stop and close as transitions of a session state that records the
    ordered transport steps;
  - the retry loop of `camera_read_frame`.
- `Camera` (camera.dfy): the `Device` class. It holds the slot array, the
  cursors, the counters and the flags. Its methods update them in place, and
  each is proved equal to the pure transition.
- `Discovery` (discovery.dfy): the device-path rules of `camera_enumerate`,
  the "count every match, fill at most `max_devices`" rule, and the two-pass
  fallback.

## Model

| member | source | states |
|---|---|---|
| Protocol.FindFrameEnd | src/useeplus_camera.c:872-880 | the index found is an EOI whose prefix is at least MIN_JPEG_SIZE bytes in a slot starting with SOI, and no earlier index qualifies; the search goes on past EOIs that do not qualify |
| Protocol.ScanForFrameEnd | src/useeplus_camera.c:872-880 | the scanning loop of process_data returns exactly the first qualifying EOI, or none |
| Protocol.FrameEndGivesFrame | src/useeplus_camera.c:872-899 | the slot prefix through the first qualifying EOI starts with FF D8, ends with FF D9 and is 1000..65536 bytes long, and no shorter prefix is such a frame |
| FrameRing.Cleared | src/useeplus_camera.c:702-709 | the cleared ring (all slots empty and unready, both cursors 0) satisfies the ring invariant and keeps both counters |
| FrameRing.WriteSlotNeverReady | src/useeplus_camera.c:901-940 | under the ring invariant the write slot is never ready, so fewer than 12 frames wait |
| FrameRing.ReadyCountIsPending | src/useeplus_camera.c:901-910 | the number of ready slots equals (write - read) mod 12, the queue length, and is at most 11 |
| FrameRing.QueuedFramesAreFrames | src/useeplus_camera.c:878-899 | every waiting frame is an SOI..EOI frame of at least 1000 bytes |
| FrameRing.TakeHeadShiftsQueue | src/useeplus_camera.c:997-1009 | clearing the ready slot under the read cursor and advancing the cursor keeps the invariant and removes exactly the oldest frame from the queue |
| FrameRing.TakeIsFifo | src/useeplus_camera.c:986-1009 | a locked look at the read cursor: nothing ready iff the queue is empty; a frame larger than the buffer leaves the ring untouched; otherwise the oldest frame, which fits, is handed out, its slot emptied, the read cursor advanced by 1 mod 12 and the rest stay in order; every slot but the read slot, the write cursor and the counters are unchanged |
| Reassembler.KeptBytes | src/useeplus_camera.c:844-850 | an SOI payload discards the bytes of an unready slot; any other payload keeps them |
| Reassembler.IgnoredChunkChangesNothing | src/useeplus_camera.c:822-838 | a chunk without AA BB 07, or of at most 12 bytes, changes no slot, cursor or counter and completes no frame |
| Reassembler.SoiPreemptsUnfinishedFrame | src/useeplus_camera.c:844-869 | an SOI payload on an unfinished write slot never overflows, and the slot then holds exactly that payload |
| Reassembler.OverflowDiscardsSlot | src/useeplus_camera.c:853-865 | on overflow the write slot becomes unready and holds the payload if it starts with SOI, otherwise nothing; no other slot, cursor or counter changes and no frame is completed |
| Reassembler.NoFrameEndKeepsAccumulating | src/useeplus_camera.c:868-953 | without a qualifying EOI the payload is appended (or the slot emptied past 61440 bytes) and cursors and counters are unchanged |
| Reassembler.CompletedFrameIsFirstFrame | src/useeplus_camera.c:872-899 | the frame a chunk completes is the appended slot's prefix through its first qualifying EOI, starts with FF D8, ends with FF D9 and is 1000..65536 bytes long |
| Reassembler.CompletionAdvancesWriteCursor | src/useeplus_camera.c:872-940 | a completed frame is frozen ready in the old write slot, captured grows by 1, the write cursor moves on by 1 mod 12, the oldest frame is dropped and counted exactly when the cursor lands on the read cursor, and the new write slot is unready and holds the leftover only if it starts with SOI (and passes the 61440-byte valve) |
| Reassembler.CompleteCursors | src/useeplus_camera.c:901-912 | the cursor lands on the read cursor exactly when 11 frames wait; then read advances and dropped grows by 1, otherwise both stay |
| Reassembler.CompleteKeepsInv | src/useeplus_camera.c:893-940 | freezing a valid frame and seeding the next slot keeps the ring invariant |
| Reassembler.CompleteOnFullRing | src/useeplus_camera.c:905-912 | on a full ring the queue becomes its tail plus the new frame |
| Reassembler.CompleteOnRingWithRoom | src/useeplus_camera.c:901-924 | on a ring with room the new frame is appended to the queue |
| Reassembler.CompleteAppendsToQueue | src/useeplus_camera.c:893-940 | completion appends the frame to the queue, dropping and counting the oldest on a full ring; captured grows by 1 |
| Reassembler.DiscardOversizedKeepsQueue | src/useeplus_camera.c:949-953 | the safety valve touches only the write slot and leaves the queue, cursors and counters unchanged |
| Reassembler.WriteSlotUpdateKeepsQueue | src/useeplus_camera.c:853-869 | replacing the write slot by an unready slot of at most 65536 bytes keeps the invariant and the queue |
| Reassembler.ProcessIsFifoWithDropOldest | src/useeplus_camera.c:796-958 | process_data keeps the ring invariant; a chunk either leaves queue and counters alone, or appends exactly the valid frame it completes, counting it, and drops and counts the oldest when 11 were waiting |
| Camera.CopyOut | src/useeplus_camera.c:998 | the memcpy writes the frame into the start of the caller's buffer and leaves the bytes past it alone |
| Reassembler.ChunkExtendsFrame | src/useeplus_camera.c:867-899 | a chunk whose appended slot is a proper prefix of a frame with no earlier qualifying EOI leaves exactly that prefix unready in the write slot, and one that appends its last byte completes it with no leftover |
| Reassembler.FirstChunkOfFrame | src/useeplus_camera.c:844-899 | a record whose payload starts with SOI replaces the unfinished write slot and either waits there or completes the frame |
| Reassembler.SplitFrameCompletes | src/useeplus_camera.c:796-958 | a frame split over records, only the first starting with SOI, ends exactly as if the whole frame had been completed in one chunk, with nothing left over |
| Reassembler.SplitFrameIsQueuedOnce | src/useeplus_camera.c:796-958 | chunk boundaries do not matter: such a split frame is appended once and whole to the queue (after dropping the oldest on a full ring), captured grows by 1 and the new write slot is empty |
| Reassembler.FeedAllPreservesInv | src/useeplus_camera.c:796-958 | after any sequence of chunks the invariant holds, the counters never decrease, and no more frames are dropped than were captured |
| ReadLoop.Chunks | src/useeplus_camera.c:760-762 | the transfers handed to the reassembler fit its buffer and are no more than the reads |
| ReadLoop.AfterRead | src/useeplus_camera.c:747-762 | one read that does not end the loop leaves a well-formed ring |
| ReadLoop.Run | src/useeplus_camera.c:737-763 | the loop reads only while no stop is signalled and no fatal error occurred; it ends before a read on a stop, right after a read error other than 121 or 1460, or when the reads run out; timeouts are retried |
| ReadLoop.RunFeedsReceivedChunks | src/useeplus_camera.c:737-763 | the ring after the loop is the reassembler fed, in order, with exactly the non-empty transfers of the reads issued |
| ReadLoop.RunPreservesInv | src/useeplus_camera.c:737-763 | whatever the reads return, the ring invariant holds when the loop ends and frames_captured has not decreased |
| Session.Code | include/useeplus_camera.h:36-44 | every status is returned as a value in -8..0, and 0 exactly for success |
| Session.StatusOf | include/useeplus_camera.h:36-44 | exactly the integers -8..0 are status codes, each the code of the status it decodes to |
| Session.Endpoint | src/useeplus_camera.c:59-60 | the IN pipe is the only endpoint with the direction bit 0x80 set |
| Session.SendCommand | src/useeplus_camera.c:572-593 | a command succeeds iff the write succeeded and sent every byte; every failure is USB_FAILED |
| Session.Opened | src/useeplus_camera.c:400-487 | a freshly opened session is not streaming, its ring satisfies the invariant with no frame waiting, and both counters are 0 |
| Session.StartStatusByFirstFailure | src/useeplus_camera.c:596-665 | start on a streaming session returns success and changes nothing; otherwise success iff alternate setting 1, the full 5-byte write and thread creation all succeed, with INIT_FAILED, USB_FAILED, INIT_FAILED for the first one that failed |
| Session.StartKeepsRing | src/useeplus_camera.c:596-665 | start never touches the ring, streams afterwards exactly when it reports success, only appends transport steps, and writes the connect command right after selecting alternate setting 1 |
| Session.StartIsIdempotent | src/useeplus_camera.c:608-611 | starting a session that a successful start left streaming returns success and changes nothing |
| Session.StopClearsRingKeepsCounters | src/useeplus_camera.c:668-714 | after stop the session is not streaming; a streaming session has every slot empty and unready, both cursors at 0, no frame waiting, the stop event set, no thread, and unchanged counters; a non-streaming one is unchanged |
| Session.StopIsIdempotent | src/useeplus_camera.c:668-671 | stopping twice is stopping once |
| Session.StartThenStop | src/useeplus_camera.c:596-714 | a successful start followed by stop returns to idle with an empty queue and the old counters, after exactly the start steps and the stop steps |
| Session.CloseOrdersCleanup | src/useeplus_camera.c:502-545 | close stops a streaming session first, aborts both pipes before flushing, flushes before resetting, and returns to alternate setting 0 before freeing the interface and closing the device |
| Session.WaitTimeout | src/useeplus_camera.c:969 | a timeout of 0 waits forever (INFINITE); any other value is used as given |
| Session.AwaitFrameKeepsInv | src/useeplus_camera.c:984-1028 | the retry loop keeps the invariant, returns only success, BUFFER_SMALL, TIMEOUT or USB_FAILED, hands out only complete frames that fit, and reports a timeout or failed wait only with no frame waiting |
| Session.ReadyFrameIsServedOldestFirst | src/useeplus_camera.c:986-1009 | with a frame waiting the caller never waits: it gets the oldest frame, the rest stay in order, only the read slot and read cursor change (write cursor, unfinished write slot and counters kept), or BUFFER_SMALL with the ring untouched |
| Session.EmptyRingTimesOut | src/useeplus_camera.c:1015-1019 | with no frame waiting, a timed-out wait returns TIMEOUT and changes nothing |
| Camera.Device.Open | src/useeplus_camera.c:400-487 | the opened device has 12 empty slots, zero cursors and counters, is not streaming, and has issued the pipe-clearing sequence |
| Camera.Device.ProcessData | src/useeplus_camera.c:796-958 | the in-place process_data moves the device exactly as Process moves the ring and keeps the invariant; nothing else changes |
| Camera.Device.StorePayload | src/useeplus_camera.c:838-869 | the SOI discard, the overflow test with its re-seeding, and the append, on the write slot only |
| Camera.Device.CompleteFrame | src/useeplus_camera.c:881-940 | the completion branch, in place, equals Complete on the ring |
| Camera.Device.DiscardOversizedSlot | src/useeplus_camera.c:949-953 | the safety valve, in place, equals DiscardOversized on the ring |
| Camera.Device.TakeReady | src/useeplus_camera.c:986-1009 | the locked look at the read cursor equals Take; a frame handed out is copied byte for byte into the start of the caller's buffer and the rest of the buffer is kept; on BUFFER_SMALL or nothing ready the buffer is untouched |
| Camera.Device.ClearSlots | src/useeplus_camera.c:702-709 | the clearing loop of stop leaves the cleared ring with the counters kept |
| Camera.Device.ProcessAll | src/useeplus_camera.c:760-762 | processing the chunks in order equals FeedAll |
| Camera.Device.ReadThread | src/useeplus_camera.c:717-766 | the read thread's loop returns the exit reason and read count of Run and leaves the ring Run computes |
| Camera.IsStreaming | src/useeplus_camera.c:774-777 | true exactly for a non-null handle that is streaming |
| Camera.GetStats | src/useeplus_camera.c:780-793 | INVALID_PARAM and nothing reported for a null handle; otherwise success, and each counter is reported exactly when asked for |
| Camera.StartStreaming | src/useeplus_camera.c:596-665 | INVALID_PARAM for a null handle; otherwise the status and new state are those of Start |
| Camera.StopStreaming | src/useeplus_camera.c:668-714 | a null handle is ignored; otherwise the new state is that of Stop |
| Camera.Close | src/useeplus_camera.c:502-569 | a null handle is ignored; otherwise the steps issued are those of CloseLog and the handle is no longer open |
| Camera.ReadFrame | src/useeplus_camera.c:961-1029 | INVALID_PARAM with bytes_read untouched and the device and buffer unchanged for a null handle, buffer or out-pointer; NO_FRAME with bytes_read 0 when not streaming; otherwise the reply and ring of AwaitFrame, bytes_read the frame size on success and 0 otherwise, and the frame copied into the buffer, which is otherwise left as it was (wholly so on every reply but success) |
| Discovery.ToLower | src/useeplus_camera.c:271 | only A..Z change, each to its lower-case letter, and no capital survives |
| Discovery.Lower | src/useeplus_camera.c:268-271 | the lowered path has the same length and is lowered character by character |
| Discovery.Truncated | src/useeplus_camera.c:268-269 | the copy is a prefix of at most n characters, and the whole string when it fits |
| Discovery.Contains | src/useeplus_camera.c:272-274 | true exactly when the pattern occurs at some position |
| Discovery.WinUsbMatchIgnoresCase | src/useeplus_camera.c:266-274 | two paths equal up to letter case are both accepted or both rejected by the WinUSB rule |
| Discovery.FallbackMatchesAreCameraPaths | src/useeplus_camera.c:340-341 | a path accepted by the case-sensitive fallback rule that also names mi_01 within 511 characters is accepted by the WinUSB rule |
| Discovery.LowerPreservesLowerCaseOccurrence | src/useeplus_camera.c:266-274 | a lower-case marker found in a path is still found after lower-casing |
| Discovery.Entry | src/useeplus_camera.c:275-286 | every entry carries VID 0x2ce3 and PID 0x3828 and a path that is a prefix of at most 255 characters of the interface path |
| Discovery.MatchingPathsAreAcceptedPaths | src/useeplus_camera.c:241-291 | the matches are exactly the fetched paths the rule accepts |
| Discovery.Filled | src/useeplus_camera.c:275-287 | entry k is written exactly when k < max_devices and k < the number of matches; every other element keeps its value |
| Discovery.ScanInterfaceSet | src/useeplus_camera.c:236-297 | one pass counts every match, even past max_devices, and fills at most max_devices entries in order |
| Discovery.Enumerate | src/useeplus_camera.c:222-362 | the result and filled array are those of Enumeration |
| Discovery.EnumerationCountsEveryMatch | src/useeplus_camera.c:222-362 | the result is negative only as NOT_FOUND, exactly when the WinUSB pass matched nothing and the USB device set could not be opened; otherwise it counts every match of the deciding pass and its entries are exactly that pass's entries: the WinUSB pass when it matched something, else the USB device set; every entry is for the camera |

## Left out

- WinUSB, SetupAPI and Win32 calls are not executed. They are inputs:
  - the success of alternate setting 1, the write result and thread creation (`StartInputs`);
  - the outcome of each bulk read (`ReadStep`);
  - how each wait on the frame-ready event ends (`Wake`);
  - the interface paths each SetupAPI pass yields.

  The calls the session issues appear only as the ordered `Action` log.
- Threads, events and the critical section are not modelled as concurrency.
  - Each locked region is one atomic method.
  - The read thread's work while a consumer waits is the `produced` chunks of a `Signalled` wake.
  - The stop request is the per-read `stopSignalled` flag of a `ReadStep`.
- Camera.ReadFrame: blocks only as long as the given wakes last. When they run out with no frame ready it returns `StillWaiting` instead of blocking forever.
- Camera.ReadFrame: assumes that an INFINITE wait is never reported as timed out.
- Slot storage is modelled as values. Each slot is its logical content (the first `size` bytes of its 64 KiB buffer) and its ready flag. The stale bytes past `size` and the buffer pointers are not modelled.
- `malloc` failures in `process_data` (slot buffer, leftover copy) are not modelled, nor in `camera_enumerate` (detail data). The enumeration models an interface whose detail cannot be obtained as a skipped (`None`) path.
- The `unsigned int` counters are unbounded naturals; their 32-bit wrap-around is not modelled.
- `camera_open_path` is modelled only on its success path. Its failure paths (CreateFileA or WinUsb_Initialize failing) are not modelled.
- `camera_open` (open the first enumerated device) is not modelled.
- Debug logging and the packet hex dump are not modelled.
- `set_error` / `camera_get_error` error strings are not modelled; only the status codes are.
- The pipe policies set by the read thread (transfer timeout, RAW_IO) are not modelled. The read timeout appears only as error codes 121 and 1460.
- Camera.Close: states only the steps issued and that the handle is closed. The freeing of the slot buffers and the release of the event and lock handles are not modelled.
- Discovery.Enumerate: the fallback pass copies at most 255 path characters without writing a terminating NUL. Because the model works on path values, it does not capture that missing terminator.
- The example applications (live viewers, capture tool) and the diagnostic tools are not part of this model.
