# Keyboard recorder verification

Dafny model of a keyboard recorder and player built from two computers. A Raspberry Pi Pico sits between a physical
keyboard and a PC: it passes reports through, records them, or plays back reports at absolute deadlines. A Raspberry Pi
Zero stores recordings and feeds them back over a UART. The model covers the parts in which bytes, interrupts and a slow
USB endpoint interleave:

- `Firmware.dfy` is `pico/src/main.c` with the playback scheduler and the mode state machine as one class, because they
  share state and call each other back. The alarm interrupt may run before every access to the clock, the alarm pool or
  the fired flag; clock, alarm pool and room for frames are nondeterministic, and what arrives and what HID takes are
  inputs. `Theorems.dfy` says what its invariant means to an observer. `PlaybackQueue.dfy`, `Lateness.dfy`,
  `KeyboardCapture.dfy`, `PhysicalPath.dfy` and `Messages.dfy` are the parts it uses; `PlaybackRuns.dfy` is the ghost
  history the theorems speak about.
- `CreditProtocol.dfy` is the credit-controlled feeder of `zero/app/playback.py` against the Pico queue: two processes,
  two FIFO channels, any capacity, window, prebuffer and recording length, and every interleaving. `PipelineWindow.dfy`
  is about its batches and what they leave in flight. `CreditRefinement.dfy` shows that the Pico of this protocol is what
  the firmware class does, step by step and over whole playbacks.
- `Crc16.dfy`, `Framing.dfy`, `PicoParser.dfy`, `UartTransport.dfy`, `ZeroDecoder.dfy` and `Payloads.dfy` are the frame
  format and both its ends; `Links.dfy` composes them into end-to-end theorems for each direction. `Rings.dfy` holds the
  facts every circular buffer shares. `CrcPolynomial.dfy` states the CRC as polynomial division, and `WireLayout.dfy` the
  byte at each position of a frame and of every payload, in numbers.
- `ZeroTransport.dfy`, `Recording.dfy`, `Expansion.dfy` and `RecordPath.dfy` are the way from the Pico's transmit ring to
  a saved recording and back to playback offsets; `Delivery.dfy` starts from the firmware's own messages.

`dafny verify dfyconfig.toml` checks the whole project.

## What the model found

- Credit safety fails when underruns occur. A PLAY_UNDERRUN that arrives while Zero waits for acknowledgements is put
  back at the front of the deque, and a later `_await_credit` spends its free capacity as if it were current. The queue
  is then overrun, which the firmware answers with a protocol error. `CreditProtocol.OverrunIffLonger` shows that this
  can happen if and only if the recording is longer than the prebuffer and the queue capacity together.
- The pipeline window is not respected after an underrun. While Zero waits for acknowledgements it counts every
  BUFFER_STATUS, also the one the Pico sends on its own when a full queue opens, so an event can still be in flight when
  the next batch begins. `PipelineWindow.FlightIsAccounted` says by how many, `PipelineWindow.UnawaitedIffLonger` that this
  can happen if and only if the recording is longer than prebuffer and capacity together, and
  `PipelineWindow.WindowExceeded` gives a run with more events in flight than the window allows.
- The deadline is a 64-bit sum that wraps. Zero accepts offsets up to 2^64 - 1, so an offset exists for which the report
  counts as due before the run began (`Theorems.WrappedHeadIsDue`, `Theorems.WrappedHeadRun`), and a report leaves no
  earlier than epoch plus offset exactly when that sum fits (`PlaybackRuns.NeverEarly`).
- Even without faults an open queue can run empty and leave the run to the watchdog: `CreditProtocol.ExpiresIffStreamed`
  shows that the watchdog can end a run if and only if the recording does not fit the prebuffer.
- A repeated MODE_SET leaves an answer behind. `set_mode` repeats its MODE_SET after a timeout and takes one MODE_CHANGED,
  so the other answer stays in the deque or on its way; `ZeroTransport.NoReplyLeftIff` says exactly when nothing is left.
  What is left fails a recording in progress (`RecordingSession.ReceiveAndConsume`), keeps the next `set_mode` for another
  mode from succeeding (`ZeroTransport.StaleReplyDecides`), and loses a recording when both answers to MODE_SET(PASS)
  arrive together (`Recordings.BothAnswersAtOnce`).
- Test double against firmware: the fake Pico in `zero/tests/test_playback.py` reports an underrun before the credit of the
  same pop; the firmware sends the credit first, and the model follows the firmware.

## Assumptions

The Pico clock is monotone and stays below 2^63 microseconds; an alarm never fires before its deadline; a cancelled alarm
never fires. Deadlines may be any 64-bit value, and for those of 2^63 and above, which the clock never reaches, the second
of these is the model's own: the Pico SDK means absolute times only up to 2^63 - 1. `PlaybackRuns.NeverEarly` rests on it
for sums in [2^63, 2^64). Interrupt and main loop share one core, so interleaving is at statement level. Bytes are integers
below 256 and exclusive-or is defined on them arithmetically. Counters of 8, 16 and 32 bits wrap where the source lets
them wrap.

## Model

| member | source | states |
|---|---|---|
| Theorems.WellFormedTrace | pico/src/main.c:123-149 | At every boundary of the main loop each started run has had exactly one outcome on the wire unless it is still open, and a run is open exactly in PLAYING |
| Theorems.EveryRunIsGood | pico/src/playback_scheduler.c:228-287 | The i-th outcome and metrics on the wire belong to a run in which nothing was early, lost, repeated or reordered, and whose metrics are exact; the PLAY_UNDERRUNs between its PLAY_STARTED and its outcome number its maximal empty intervals, and its metrics count the same; a run of one report tells in all five figures by how many microseconds that report was past epoch plus offset |
| Theorems.MetricsBelong | pico/src/main.c:123-149 | Every PLAY_METRICS of a well-formed trace is the metrics of one of its outcomes |
| Theorems.WrappedHeadIsDue | pico/src/playback_scheduler.c:145 | The armed deadline is epoch plus offset exactly when that sum fits 64 bits; otherwise it lies before the start of the run and the head is due at once |
| Theorems.WrappedHeadRun | pico/src/playback_scheduler.c:145 | A firmware run in which that happens: one event with offset 2^64 - 1 is acknowledged in ARMED and found due as soon as playback starts |
| Theorems.ReleaseBeforeInput | pico/src/main.c:396-418 | Between any transition and a later forwarded physical report the host has taken an all-keys release in an earlier pass, and no report captured before the transition is forwarded |
| Theorems.ModeRequestAnswered | pico/src/mode_state.c:57-86 | A MODE_SET alone in an iteration of the main loop: PASS is always granted, RECORD and ARMED only from PASS or from themselves, the iteration ends in the mode granted, and the answer is among the frames it offered |
| Theorems.RecordsNeedRecord | pico/src/physical_report_dispatch.c:12-36 | After a MODE_CHANGED that names another mode there is no RECORD_EVENT before one names RECORD again |
| Theorems.CapturesInOrder | pico/src/hid_keyboard_host.c:86-91 | The RECORD_EVENTs on the wire are in the order of their timestamps, and none lies in the future |
| Theorems.ModulesAgree | pico/src/main.c:270-437 | The scheduler runs if and only if the mode is PLAYING; stopped or waiting it has no alarm pending; otherwise the queue head exists and its deadline is the one armed, and a set flag means it is due |
| Theorems.StartIsAnnounced | pico/src/main.c:275-292 | MODE_CHANGED(PLAYING, OK) is directly followed by PLAY_STARTED |
| Theorems.OutcomeTriple | pico/src/main.c:123-149 | An outcome is followed by PLAY_METRICS and then by MODE_CHANGED to a state that is not PLAYING, with nothing in between |
| Theorems.OneOutcomePerRun | pico/src/main.c:111-149 | In any well-formed trace starts and outcomes pair off, except for a run in progress |
| PlaybackRuns.NeverEarly | pico/src/playback_scheduler.c:238-250 | No report of a good run left before its own 64-bit deadline, and no recorded lateness is negative; a report left no earlier than epoch plus offset if and only if that sum fits 64 bits |
| PlaybackRuns.FinishedRunIsComplete | pico/src/playback_scheduler.c:134-142 | PLAY_FINISHED means the sequence was ended and every pushed event was sent exactly once in push order |
| PlaybackRuns.DeadlineExact | pico/src/playback_scheduler.c:145 | The deadline is the true sum of epoch and offset exactly when that sum fits 64 bits; beyond it wraps to a time before the epoch |
| PlaybackRuns.SentAt | pico/src/playback_scheduler.c:228-287 | Every single dispatch of a run is on time and contributes its own lateness and its own event |
| PlaybackRuns.LatenessIs | pico/src/playback_scheduler.c:267-279 | What a run records for a report: the clock sample less epoch plus offset, or less what is left of that sum when it does not fit 64 bits, saturated at the largest 32-bit value |
| PlaybackRuns.OneReport | pico/src/playback_scheduler.c:75-89 | In a run of one report minimum, maximum, sum, p95 and p99 are all the microseconds by which that report was past epoch plus offset |
| PlaybackRuns.ExtremesAreReports | pico/src/playback_scheduler.c:19-41 | Minimum and maximum are the recorded figures of two reports of the run, and no report lies outside them |
| PlaybackRuns.IntervalsStep | pico/src/playback_scheduler.c:95-105 | Each further look at the queue extends the current empty interval or starts a new one, and only a new one counts |
| PlaybackRuns.CompleteRun | pico/src/playback_scheduler.c:75-93 | A run closed with metrics that describe its history joins the good runs and their outcomes |
| PlaybackRuns.SentStep | pico/src/playback_scheduler.c:260-279 | One accepted report moves the head from the queue to the history without touching any other deadline |
| Firmwares.Firmware.Interrupts | pico/src/playback_scheduler.c:10-17 | Time passes and due alarms fire in any order; the interrupt only sets the flag |
| Firmwares.Firmware.AddAlarmAt | pico/src/playback_scheduler.c:146-157 | Arming may fire inside the call, may find no slot, and may fire before the caller stores the id |
| Firmwares.Firmware.SummariseRun | pico/src/playback_scheduler.c:75-89 | Ends the run with metrics that describe its whole lateness log and its underruns |
| Firmwares.Firmware.PlaybackComplete | pico/src/main.c:123-149 | Sends outcome and metrics; a drained run re-enters the mode machine and ends in ARMED with everything cleared |
| Firmwares.Firmware.Finish | pico/src/playback_scheduler.c:75-93 | Exactly one run is completed, with its exact outcome frames, whichever way it ended |
| Firmwares.Firmware.Stop | pico/src/playback_scheduler.c:216-226 | Cancels the alarm before clearing the flag, so nothing stale survives; reports a run only if one was running |
| Firmwares.Firmware.ModeClearQueue | pico/src/main.c:74-83 | The partial run is reported before its queue is discarded; afterwards queue, sequence and fault flag are clear |
| Firmwares.Firmware.ClearReleaseAndQueue | pico/src/mode_state.c:11-28 | Queue, captures and run are gone and an all-keys release is pending |
| Firmwares.Firmware.Enter | pico/src/mode_state.c:57-141 | Assigning the state after everything was cleared restores the boundary invariant and reports the state once |
| Firmwares.Firmware.PlayFinish | pico/src/mode_state.c:115-126 | PLAYING ends in ARMED with MODE_CHANGED(ARMED, FINISHED); in any other state it is refused and nothing changes |
| Firmwares.Firmware.HandleModeSet | pico/src/mode_state.c:57-86 | The next mode and the reported reason for every state and target; a mode change logs one transition, repeated and rejected requests change the wire alone |
| Firmwares.Firmware.PlayAbort | pico/src/mode_state.c:101-113 | Accepted exactly in ARMED and PLAYING, with one transition logged; a running playback reports its outcome before MODE_CHANGED |
| Firmwares.Firmware.EnterError | pico/src/mode_state.c:128-153 | Any mode but PASS and ERROR goes to ERROR and logs one transition; in those two the fault is only reported |
| Firmwares.Firmware.Leave | pico/src/mode_state.c:57-141 | Every transition that may cut a run short offers outcome, metrics, then the new state, and logs exactly one transition |
| Firmwares.Firmware.PlaybackBufferAvailable | pico/src/main.c:196-204 | A grant reports the free slots; the flow-control fault is raised if and only if the transmit ring drops the grant |
| Firmwares.Firmware.PlaybackUnderrun | pico/src/main.c:181-194 | The notice carries elapsed offset and free capacity; the flow-control fault is raised if and only if the transmit ring drops the notice |
| Firmwares.Firmware.BeginUnderrun | pico/src/playback_scheduler.c:95-113 | One PLAY_UNDERRUN and one count per maximal empty interval, stamped when it began; the fault follows a dropped notice |
| Firmwares.Firmware.CancelStale | pico/src/playback_scheduler.c:129-133 | After cancelling, neither a pending alarm nor a set flag belongs to the previous head |
| Firmwares.Firmware.ArmHead | pico/src/playback_scheduler.c:143-158 | The flag can only be set once the head itself is due, whatever the alarm pool does |
| Firmwares.Firmware.Starve | pico/src/playback_scheduler.c:135-142 | A look that finds an empty open queue starts an underrun, or continues one without a second notice |
| Firmwares.Firmware.ArmNext | pico/src/playback_scheduler.c:120-159 | Either the head is armed with its own deadline, or the run is finished, or it waits; and which one is exact |
| Firmwares.Firmware.DrainRun | pico/src/playback_scheduler.c:134-139 | A drained sequence finishes its run with outcome, metrics and MODE_CHANGED, none of which carries credit |
| Firmwares.Firmware.AcceptHead | pico/src/playback_scheduler.c:252-279 | HID acceptance pops exactly the head, grants credit only at a pop from full of an open sequence, records its lateness, and raises the fault exactly when the grant is dropped |
| Firmwares.Firmware.TakeDue | pico/src/playback_scheduler.c:238-241 | A dispatch goes ahead only when the head is due |
| Firmwares.Firmware.DispatchRound | pico/src/playback_scheduler.c:232-286 | One turn of the loop keeps conservation, deadlines and alarms; refused reports stay at the head; the empty-queue branch is never reached |
| Firmwares.Firmware.Task | pico/src/playback_scheduler.c:228-287 | Any number of turns keep the boundary invariant, with interrupts between any two statements; no head that was due at the call is left unless HID refused it, at most as many reports leave as HID takes, and the fault is raised exactly when a turn lost a grant or a notice |
| Firmwares.Firmware.BeginRun | pico/src/playback_scheduler.c:182-195 | A new run starts with a clean history and clean statistics |
| Firmwares.Firmware.Start | pico/src/playback_scheduler.c:176-197 | start() arms, waits or finishes synchronously, and leaves the boundary invariant in every case |
| Firmwares.Firmware.PlayStart | pico/src/mode_state.c:88-99 | Only ARMED becomes PLAYING, with one transition logged; the loaded queue is kept |
| Firmwares.Firmware.StartPlayback | pico/src/main.c:275-294 | The exact frames of PLAY_START, including a run that drains synchronously, with one clock sample for epoch and wire |
| Firmwares.Firmware.Launch | pico/src/main.c:283-293 | PLAY_STARTED and the start of the scheduler, which opens a clean account of the credit of the run |
| Firmwares.Firmware.AppendEvent | pico/src/main.c:226-249 | The event is appended if and only if the queue is not full |
| Firmwares.Firmware.CloseSequence | pico/src/main.c:250-260 | PLAY_READY only in ARMED, then the acknowledgement |
| Firmwares.Firmware.OpenSequence | pico/src/main.c:216-225 | QUEUE_CLEAR empties queue and sequence and acknowledges the full capacity |
| Firmwares.Firmware.DispatchQueueCommand | pico/src/main.c:209-268 | The exact new queue and the exact frames; an allowed command ends in ERROR if and only if the event finds the queue full or the acknowledgement is dropped |
| Firmwares.Firmware.ApplyQueueCommand | pico/src/main.c:215-260 | An allowed command is applied if and only if it does not overfill the queue and its acknowledgement is not dropped; what it does to the queue and which frames it offers |
| Firmwares.Firmware.DispatchCommand | pico/src/main.c:270-315 | For every command the exact mode it leads to, to ERROR only for a stated cause, and the exact frames it offers |
| Firmwares.Firmware.HandleCommand | pico/src/main.c:270-315 | For every command, from its name alone: the mode and the queue it leads to and the frames that answer it, with the outcome of a run it cuts short before the answer |
| Firmwares.ModeSetAnswers | pico/src/mode_state.c:57-86 | The next mode and reason of MODE_SET agree with the table of allowed transitions: PASS from anywhere, RECORD and ARMED from PASS or from themselves, and everything else refused without a change |
| Firmwares.PlayStartAnswers | pico/src/main.c:275-294 | PLAY_START only from ARMED: a loaded queue plays, an empty open one starves at once, an empty ended one finishes at once |
| Firmwares.PlayAbortAnswers | pico/src/mode_state.c:101-113 | PLAY_ABORT from ARMED or PLAYING ends in ARMED with an empty queue, after the outcome of a run it cuts short; from anywhere else it is refused |
| Firmwares.QueueCommandAnswers | pico/src/main.c:209-268 | QUEUE_CLEAR only in ARMED, QUEUE_EVENT and QUEUE_END in ARMED and PLAYING; done and acknowledged with the exact counts, or a protocol error |
| Firmwares.FaultAnswers | pico/src/mode_state.c:128-153 | A UART fault is only reported in PASS and ERROR and leads to ERROR with an empty queue from anywhere else, after the outcome of a run it cuts short |
| Firmwares.Firmware.HandleFault | pico/src/main.c:400-402 | A latched fault is answered by MODE_CHANGED with reason UART_FAULT, after the outcome of a run it cuts short |
| Firmwares.Firmware.TakeReports | pico/src/hid_keyboard_host.c:86-91 | The reports of an iteration join the FIFO in order, each unless the FIFO is full or the mode takes no input |
| Firmwares.Firmware.TakeInput | pico/src/main.c:397-406 | The latched fault is answered before the first command; every command is answered once and in order by its own slice of the frames offered |
| Firmwares.Firmware.Serve | pico/src/main.c:407-437 | After the input of an iteration: reports captured are forwarded as far as HID takes them, due heads dispatched as far as HID takes them, and a starved or short-changed run ended |
| Firmwares.Firmware.WatchdogMeaning | pico/src/playback_scheduler.c:294-300 | The watchdog has expired only if every look at the queue taken after underrun_since_us found it empty, an empty look was taken no later than that, and two seconds have passed |
| Firmwares.Firmware.CheckWatchdog | pico/src/main.c:433-437 | After the check no PLAYING system is in an underrun that has lasted two seconds at the sampled time; it fires only on such an underrun, loses no credit, and otherwise changes nothing but the clock and what interrupts do |
| Firmwares.Firmware.RaiseFlowControlFault | pico/src/main.c:415-418 | A lost credit frame becomes a protocol error right after task(), with the exact frames of the aborted run |
| Firmwares.Firmware.ServicePlayback | pico/src/main.c:414-418 | task() and the check of the fault flag after it: no head that was due at the call is left unless HID refused it; if task() lost a frame that carries credit the mode is ERROR, and the account of lost credit stays exact |
| Firmwares.Firmware.ReceiveReport | pico/src/hid_keyboard_host.c:86-91 | In PASS and RECORD a report of eight bytes joins the FIFO with the clock sampled when its callback began, unless the FIFO is full; in any other case nothing changes but that clock |
| Firmwares.Firmware.ServicePhysical | pico/src/main.c:407-413 | In PASS and RECORD, with no release pending, HID gets exactly as many captured reports as it takes, in order, and all of them unless it refuses; otherwise nothing is forwarded; the release stays pending unless HID takes it; a RECORD head is always recorded |
| Firmwares.Firmware.LoopIteration | pico/src/main.c:396-437 | One iteration with any reports, faults and commands: a latched fault is answered first, then every command once and in order, each as its name alone says; in PASS and RECORD HID gets the captured reports it takes; no head due when task() began is left unless HID would not take it; no underrun has lasted two seconds at the sample of the watchdog; in PLAYING no frame of the run that carries credit was ever dropped |
| Firmwares.Firmware.MainLoop | pico/src/main.c:396-437 | For any inputs and any length every reachable boundary satisfies the invariant, every command of every iteration has been answered once and in order, each iteration begins where the one before it ended, and a run still in PLAYING has lost no frame that carries credit |
| Firmwares.Firmware.constructor | pico/src/mode_state.c:30-41 | The initial state satisfies the invariant in PASS |
| Lateness.SortSamples | pico/src/playback_scheduler.c:46-56 | The in-place sort leaves the insertion sort of the samples and touches nothing beyond them |
| Lateness.SinkSample | pico/src/playback_scheduler.c:48-54 | The inner loop inserts the key into the sorted prefix |
| Lateness.SortSorted | pico/src/playback_scheduler.c:43-56 | The result is ascending |
| Lateness.SortPermutes | pico/src/playback_scheduler.c:43-56 | The result is a permutation of the samples |
| Lateness.PercentileIsQuantile | pico/src/playback_scheduler.c:58-73 | The reported value is a nearest-rank quantile of the unsorted samples: at least p percent lie at or below it, fewer than p percent strictly below |
| Lateness.RankBounds | pico/src/playback_scheduler.c:65-71 | The rank is ceil(p n / 100) within 1..n, and the 32-bit arithmetic does not overflow |
| Lateness.PercentileMonotone | pico/src/playback_scheduler.c:84-87 | p95 never exceeds p99 |
| Lateness.PercentilesDescribe | pico/src/playback_scheduler.c:84-87 | Both percentiles of any sample array are true quantiles in order, and zero for an empty one |
| Lateness.QuantileBelowMax | pico/src/playback_scheduler.c:78-89 | min <= p95 <= p99 <= max even though the percentiles see only the retained prefix |
| Lateness.SumFits | pico/src/playback_scheduler.c:33 | The 64-bit sum cannot overflow before the 32-bit count wraps |
| Lateness.LatenessLog.Record | pico/src/playback_scheduler.c:19-41 | The accumulators keep describing the full log after one more sample |
| Lateness.LatenessLog.Report | pico/src/playback_scheduler.c:75-89 | The metrics describe the full log: count, minimum, maximum, sum, retained prefix and its quantiles |
| Lateness.LatenessLog.Reset | pico/src/playback_scheduler.c:189-195 | The statistics describe the empty log |
| PlaybackQueues.PlaybackQueue.Push | pico/src/playback_queue.c:22-45 | Appends to the FIFO, or refuses a full queue or a report of the wrong length without any change |
| PlaybackQueues.PlaybackQueue.Pop | pico/src/playback_queue.c:47-58 | Removes and returns the oldest event |
| PlaybackQueues.PlaybackQueue.Peek | pico/src/playback_queue.c:60-69 | Returns the oldest event and changes nothing |
| PlaybackQueues.PlaybackQueue.Clear | pico/src/playback_queue.c:13-20 | Empties the FIFO |
| PlaybackQueues.PlaybackQueue.FreeCapacity | pico/src/playback_queue.c:75-77 | Capacity minus length |
| KeyboardCaptures.KeyboardCapture.Push | pico/src/keyboard_capture.c:23-53 | Appends to the FIFO, or refuses; the head flag is untouched |
| KeyboardCaptures.KeyboardCapture.Pop | pico/src/keyboard_capture.c:55-68 | Removes the oldest report and forgets that it was recorded |
| KeyboardCaptures.KeyboardCapture.Peek | pico/src/keyboard_capture.c:70-79 | Returns the oldest report and changes nothing |
| KeyboardCaptures.KeyboardCapture.MarkHeadRecorded | pico/src/keyboard_capture.c:95-100 | Flags a head that exists |
| KeyboardCaptures.KeyboardCapture.Clear | pico/src/keyboard_capture.c:13-21 | Empties the FIFO and clears the flag |
| PhysicalPaths.RecordDualSink | pico/src/physical_report_dispatch.c:12-36 | Forwarded is a prefix of recorded, recorded of accepted; recorded leads by one exactly when the head is flagged |
| PhysicalPaths.ForwardIsSafe | pico/src/main.c:407-413 | Once the last release is from an earlier pass, forwarding the next report keeps the log safe |
| PhysicalPaths.SafeLogStep | pico/src/main.c:396-418 | A safe log stays safe under any entry that is not an unsafe forward |
| PhysicalPaths.PhysicalPath.ServiceRelease | pico/src/safety_release.c:17-32 | READY if and only if no release is pending, SENT if HID takes the one that is; SENT and BLOCKED never open the gate in the same pass |
| PhysicalPaths.PhysicalPath.ClearAndRelease | pico/src/mode_state.c:11-18 | Captures are gone and a release is pending; what was recorded before stays on the wire |
| PhysicalPaths.PhysicalPath.RecordHead | pico/src/physical_report_dispatch.c:18-23 | The head is recorded the first time it is seen and never again |
| PhysicalPaths.PhysicalPath.ForwardHead | pico/src/physical_report_dispatch.c:27-33 | HID acceptance pops exactly the head and keeps the log safe; a refusal changes nothing |
| PhysicalPaths.PhysicalPath.DispatchRecord | pico/src/physical_report_dispatch.c:12-36 | The RECORD loop keeps both sinks in step: it forwards exactly as many captured reports as HID takes, in order, each after it was recorded, and records the head it stops at |
| PhysicalPaths.PhysicalPath.DispatchPass | pico/src/physical_report_dispatch.c:42-49 | The PASS loop forwards exactly as many captured reports as HID takes, in order |
| PhysicalPaths.PhysicalPath.Dispatch | pico/src/physical_report_dispatch.c:3-50 | One pass in any mode keeps both sinks, wire and log in agreement: in PASS and RECORD a ready host gets exactly as many reports as it takes, all of them unless it refuses; an unready host and any other mode forward nothing |
| PhysicalPaths.PhysicalPath.Receive | pico/src/keyboard_capture.c:23-53 | In PASS and RECORD a captured report joins the FIFO with its arrival in the log unless the FIFO is full; in any other mode it is dropped |
| CreditProtocol.CreditSafety | zero/app/playback.py:305-336 | In every run without an underrun no event meets a full queue, not even counting all that are in flight, nothing is rejected, the watchdog stays silent, and the credit Zero may spend never exceeds the slots that nothing in flight will take |
| CreditProtocol.CreditComes | zero/app/playback.py:338-366 | Blocked in _await_credit, Zero is playing an open sequence, and positive credit is on its way or the next pop from the full queue sends it |
| CreditProtocol.EveryRunCompletes | zero/app/playback.py:208-230 | Every run makes a bounded number of moves, and Zero and the Pico never block each other: once neither of them can move, without counting the watchdog, the whole recording has been dispatched in order and the run has finished, unless after an underrun the queue was overrun or the watchdog had already ended the run |
| CreditProtocol.OverrunIffLonger | zero/app/playback.py:356-362 | With underruns allowed some run overruns the queue if and only if the recording is longer than prebuffer and capacity together |
| CreditProtocol.StaleCreditOverruns | zero/app/playback.py:356-362 | The run that does it: a deferred PLAY_UNDERRUN spent as if its free capacity were current |
| CreditProtocol.ExpiresIffStreamed | pico/src/main.c:433-437 | Some run is ended by the watchdog if and only if the recording does not fit the prebuffer, and then some run is ended while its queue is empty and open |
| CreditProtocol.StepKeeps | zero/app/playback.py:305-366 | Every action of either side keeps the invariant, overruns the queue or is the watchdog ending the run; an overrun needs an underrun and more than prebuffer plus capacity events, an end by the watchdog an underrun and more than prebuffer |
| CreditProtocol.RunKeeps | zero/app/playback.py:305-366 | Every reachable state satisfies the invariant, is such an overrun or was ended by the watchdog after an underrun, and nothing is ever rejected |
| CreditProtocol.StuckIsComplete | zero/app/playback.py:208-230 | A state in which neither Zero nor the Pico can move, without counting the watchdog, is a completed playback, also after underruns |
| CreditProtocol.OverflowNeeds | pico/src/main.c:232-239 | A full queue at QUEUE_EVENT requires an underrun earlier in the run |
| CreditProtocol.TakeRemovesOne | zero/app/transport.py:129-150 | Waiting removes the oldest frame of a wanted kind, keeps every other in order, and blocks only if there is none |
| CreditProtocol.SoundConsume | zero/app/playback.py:323-333 | Consuming a status moves its credit from the channel to Zero |
| CreditProtocol.SoundReceive | pico/src/main.c:226-240 | Receiving an event turns a request in flight into an acknowledgement of what is left |
| CreditProtocol.SoundPop | pico/src/playback_scheduler.c:260-266 | A pop keeps every promise; a pop from full adds the grant of one slot |
| CreditProtocol.DispatchPops | pico/src/playback_scheduler.c:260-280 | The grant precedes the underrun notice of the same pop |
| CreditProtocol.ZeroKeeps | zero/app/playback.py:152-230 | Every step of the feeder keeps the invariant |
| CreditProtocol.ReceiveKeeps | pico/src/main.c:209-294 | Every command received keeps the invariant |
| CreditProtocol.WorkBounds | zero/app/playback.py:305-366 | Each move lowers the remaining work, so a run of total events makes at most 20 * total + 75 moves |
| CreditProtocol.Fill | zero/app/playback.py:305-336 | From sound credit the batches fill the queue or reach the target, with exactly the events in order |
| CreditProtocol.LeaveNotice | pico/src/playback_scheduler.c:95-113 | The queue can run dry while Zero still holds credit, leaving the notice unread |
| PipelineWindow.BatchesKeepWindow | zero/app/playback.py:305-336 | In every run, with or without underruns, Zero sends batches of at most the window and no more than its credit, and a smaller batch has used up the credit or reached what is to be sent |
| PipelineWindow.WindowBoundsFlight | zero/app/playback.py:305-336 | In every run that has had no underrun, and in every run of a recording no longer than prebuffer and capacity together, no more events are in flight than Zero waits for, and no more requests than the window |
| PipelineWindow.CommandRingSuffices | pico/include/uart_transport.h:12 | In those runs, with the window of four, the feeder never has as many requests on their way as the command ring of eight holds |
| PipelineWindow.FlightIsAccounted | zero/app/playback.py:321-366 | In every run, with or without underruns, the events in flight are those Zero waits for plus the grants it has taken for acknowledgements; so it exceeds the window by no more than those grants |
| PipelineWindow.UnawaitedIffLonger | zero/app/playback.py:321-336 | Some run has an event in flight that Zero no longer waits for if and only if the recording is longer than prebuffer and capacity together |
| PipelineWindow.WindowExceeded | zero/app/playback.py:321-336 | A run that exceeds the window: a window below the capacity, and a recording longer than prebuffer and capacity by two windows |
| CreditRefinement.ReceiveQueueCommand | pico/src/main.c:209-268 | On QUEUE_EVENT and QUEUE_END the firmware takes the protocol step with the same replies; it enters ERROR if and only if the protocol overruns the queue or the acknowledgement is dropped |
| CreditRefinement.ReceivePlayStart | pico/src/main.c:275-294 | PLAY_START is the protocol step, including a run that finishes or starves at once |
| CreditRefinement.Dispatch | pico/src/playback_scheduler.c:232-286 | A turn of the scheduler loop is no step or the protocol dispatch, with the grant before the underrun notice |
| CreditRefinement.LookAgain | pico/src/playback_scheduler.c:233-237 | A waiting scheduler finishes, waits on or re-arms without any frame that carries credit |
| CreditRefinement.TakeWatch | pico/src/main.c:433-437 | A turn of the watchdog changes nothing, or ends in ERROR a run that was playing, had an underrun, and whose open queue every look for two seconds found empty |
| CreditRefinement.MakeMove | zero/app/playback.py:152-230 | One move is a step of the protocol unless there is a stated reason: no request on its way, no run in progress, HID refused, the head was not yet due, a waiting scheduler aimed at a new head, or the watchdog kept quiet |
| CreditRefinement.OpenRun | zero/app/playback.py:161-172 | QUEUE_CLEAR in ARMED, acknowledged, puts firmware and protocol in the initial state of the protocol |
| CreditRefinement.OldestRequest | zero/app/playback.py:305-336 | The requests on the wire are events in order without repetition, then control commands the Pico is ready for |
| CreditRefinement.Advance | zero/app/playback.py:152-230 | One move of Zero, of the command dispatch, of the scheduler or of the watchdog keeps firmware and protocol in step, with the same frames, or ends the run for one of three stated causes; it adds a step to the run of the protocol unless one of the stated reasons holds |
| CreditRefinement.PlayRecording | zero/app/playback.py:152-230 | Whole runs: for any recording and any interleaving of moves, each of them a step of the protocol unless a stated reason explains why not, the firmware follows the protocol, and enters ERROR or raises its fault if and only if the protocol overruns the queue, the transmit ring drops a frame that carries credit, or the watchdog fires, which takes two seconds in which every look found the open queue empty; when it finishes, HID has accepted exactly the events of the recording, in order, none before its deadline |
| Crc16.ComputeCrc | pico/src/uart_protocol.c:5-19 | The two nested loops compute the CRC of the reference recursion |
| Crc16.CrcFromInjective | pico/src/uart_protocol.c:11-16 | For fixed data the register update is injective in the start value |
| Crc16.DetectsOneByte | pico/src/uart_protocol.c:5-19 | Inputs of equal length that differ in one byte have different CRCs |
| Crc16.DetectsTwoAdjacentBytes | pico/src/uart_protocol.c:5-19 | Inputs of equal length that differ within two adjacent bytes have different CRCs |
| Crc16.CrcFromConcat | zero/app/uart_protocol.py:61-68 | The CRC can be computed piece by piece |
| Crc16.CrcBitInjective | pico/src/uart_protocol.c:13-15 | One bit step is injective on 16-bit states |
| Crc16.CrcTwoBytes | pico/src/uart_protocol.c:10-17 | Two adjacent bytes act on the register as one 16-bit word |
| CrcPolynomial.CrcIsRemainder | docs/protocol.md:20-23 | A 16-bit value is the CRC if and only if it is the remainder of the message times x^16, plus the initial register 0xFFFF shifted before it, on division by x^16 + x^12 + x^5 + 1 |
| CrcPolynomial.RegisterIsRemainder | pico/src/uart_protocol.c:5-19 | The register after any bytes, from any start value, is such a remainder |
| CrcPolynomial.RemainderIsUnique | docs/protocol.md:20-23 | Only one polynomial below degree 16 is a remainder |
| WireLayout.FrameBytes | docs/protocol.md:11-23 | The byte at each position of a frame: magic, version, type, length, payload, and the CRC of all but the magic byte |
| Framing.EncodeFrame | pico/src/uart_protocol.c:21-46 | The buffer holds exactly the encoding and nothing else changed, or nothing was written |
| Framing.DecodesIffEncoded | pico/src/uart_protocol.c:48-79 | A byte string decodes to a frame if and only if it is that frame's encoding |
| Framing.EncodedPrefixFree | zero/app/uart_protocol.py:89-98 | Two streams that start with encodings are equal only if the frames and the rests are |
| Framing.AlteredByteRejected | pico/src/uart_protocol.c:48-79 | A frame altered in any single byte is never decoded |
| Framing.AlteredPairRejected | pico/src/uart_protocol.c:48-79 | A frame altered within two adjacent covered bytes is never decoded |
| Framing.TablesAgree | pico/src/uart_protocol.c:123-154 | The payload tables of both ends agree: each known type has one direction, and Zero accepts exactly the well-formed known frames that are not commands |
| Framing.FoundPositions | pico/src/uart_protocol.c:48-79 | Frames found in a byte string stand there as their encodings, in order and at disjoint positions |
| PicoParser.FaultFreeIffWellFormed | pico/src/uart_transport.c:74-130 | The parser notes a fault exactly when the bytes are not well-formed commands followed by a proper beginning of a frame |
| PicoParser.ParseSound | pico/src/uart_transport.c:74-130 | Without a fault the bytes consumed are the encodings of the commands, then the parser buffer |
| PicoParser.ParseComplete | pico/src/uart_transport.c:74-130 | Well-formed commands, cut anywhere, cause no fault and are delivered in order as they complete |
| PicoParser.CommandsWereEncoded | pico/src/uart_transport.c:74-130 | With or without faults, the commands parsed from any bytes stand in those bytes as their encodings, in order and at disjoint positions |
| PicoParser.AcceptFinds | pico/src/uart_transport.c:83-128 | One byte delivers at most the command whose encoding it completes |
| PicoParser.BufferStaysPartial | pico/src/uart_transport.c:89-94 | The parser array never fills, so the branch for a full one is dead |
| PicoParser.AcceptSound | pico/src/uart_transport.c:83-128 | One byte without a fault extends the buffer or completes the frame it began |
| UartTransports.UartTransport.RxPushIsr | pico/src/uart_transport.c:30-44 | The interrupt appends one byte, or latches a fault when the ring is full |
| UartTransports.UartTransport.TakeByte | pico/src/uart_transport.c:79-81 | The oldest byte is read and released with interrupts around both statements |
| UartTransports.UartTransport.EnqueueCommand | pico/src/uart_transport.c:53-72 | A valid command is appended to the ring of eight; anything else, or a full ring, latches a fault |
| UartTransports.UartTransport.ParseByte | pico/src/uart_transport.c:83-129 | The loop body refines the parser function; whatever it queues was parsed, and stood in the bytes received as its encoding, faults or not |
| UartTransports.UartTransport.Poll | pico/src/uart_transport.c:74-130 | Whatever arrives meanwhile, poll empties the ring and loses no byte, and what it queues was parsed from the bytes received |
| UartTransports.UartTransport.PopCommand | pico/src/uart_transport.c:132-143 | Hands over the oldest queued command |
| UartTransports.UartTransport.QueueFrame | pico/src/uart_transport.c:145-167 | The whole encoding is queued or the frame is dropped without a trace |
| UartTransports.UartTransport.PopTxByte | pico/src/uart_transport.c:169-179 | Transmits the oldest byte |
| UartTransports.UartTransport.TakeFault | pico/src/uart_transport.c:181-185 | Reports and clears the fault; none is ever missed |
| UartTransports.UartTransport.Lossless | pico/src/uart_transport.c:30-143 | While no fault was latched the bytes that arrived are the encodings of the commands handed over and queued, then the partial frame, then the receive ring |
| UartTransports.UartTransport.FaultHasCause | pico/src/uart_transport.c:30-143 | While well-formed commands arrive, a fault means a full ring or a line error |
| UartTransports.UartTransport.CommandsStood | pico/src/uart_transport.c:30-143 | In every state, also after faults and overflows, the commands handed over and queued stood as their encodings, in order and at disjoint positions, in the bytes the ring stored, which are those that arrived less what an overflow lost |
| UartTransports.UartTransport.AllDelivered | pico/src/uart_transport.c:74-143 | Without a fault a drained stream of commands has been delivered whole |
| UartTransports.UartTransport.TransmittedInOrder | pico/src/uart_transport.c:145-179 | The bytes transmitted are a beginning of the encodings of the accepted frames, and all of them once the ring is empty |
| UartTransports.UartTransport.constructor | pico/src/uart_transport.c:23-28 | The empty transport satisfies the invariants |
| UartTransports.UartTransport.Serve | pico/src/uart_transport.c:30-185 | Any sequence of received bytes, line errors, polls, pops, sends, transmissions and fault reads keeps the invariants, and takes nothing back that arrived, was delivered, accepted or transmitted |
| UartTransports.UartTransport.Perform | pico/src/uart_transport.c:30-185 | Each single operation keeps the invariants, and takes nothing back that arrived, was delivered, accepted or transmitted |
| UartTransports.CountersAgree | pico/src/uart_transport.c:36-43 | Wrapping counters agree with the ring slots because the capacity divides the width |
| ZeroDecoder.ChunkInvariance | zero/app/uart_protocol.py:148-193 | Any division of any byte stream gives the same frames, errors and residual as feeding it whole |
| ZeroDecoder.ScanConcat | zero/app/uart_protocol.py:148-193 | Cutting a stream anywhere and carrying the residual over changes nothing |
| ZeroDecoder.ResidualIsCandidate | zero/app/uart_protocol.py:154-163 | The residual is empty, or starts with the magic byte and is shorter than the longest frame, and rescanning it finds nothing |
| ZeroDecoder.FramesAreNotices | zero/app/uart_protocol.py:165-191 | Only well-formed Pico-to-Zero frames are ever delivered |
| ZeroDecoder.AcceptedIffEncoded | zero/app/uart_protocol.py:165-192 | At a magic byte a frame is accepted if and only if its encoding, correct CRC included, stands there and the rules admit its type, length and payload |
| ZeroDecoder.FramesWereEncoded | zero/app/uart_protocol.py:148-193 | The frames delivered from any stream stand in it as their encodings, in order and at disjoint positions |
| ZeroDecoder.AlteredNoticeRejected | zero/app/uart_protocol.py:182-186 | A notice altered in any one byte is not accepted where it stands, whatever follows it |
| ZeroDecoder.AlteredPairNotAccepted | zero/app/uart_protocol.py:182-186 | Nor is one altered within two adjacent covered bytes, unless that changes the declared length |
| ZeroDecoder.SkipGarbage | zero/app/uart_protocol.py:155-161 | Bytes before a magic byte are dropped without an error |
| ZeroDecoder.DecisionsStand | zero/app/uart_protocol.py:165-192 | Later bytes never change a decision already taken |
| ZeroDecoder.IncrementalDecoder.Feed | zero/app/uart_protocol.py:148-193 | The loop returns and keeps exactly what the scanner says about the buffer and the new bytes, so its frames were encoded in them |
| ZeroDecoder.IncrementalDecoder.Reject | zero/app/uart_protocol.py:195-197 | A bad candidate loses only its magic byte |
| Payloads.MessagesUnpack | zero/app/uart_protocol.py:200-284 | Every message the firmware packs is accepted by Zero and unpacks to the same message |
| Payloads.NoticesOnto | zero/app/uart_protocol.py:200-284 | Whatever Zero unpacks, the firmware can have packed: packing it again gives the same frame |
| Payloads.UnpacksIffPacked | zero/app/uart_protocol.py:200-284 | A well-formed notice unpacks if and only if it is the frame of a message |
| Payloads.MetricsUnpack | pico/src/main.c:135-145 | The 33-byte metrics payload unpacks to the same metrics, signs included |
| Payloads.CommandsUnpack | zero/app/uart_protocol.py:89-132 | Every command Zero encodes is accepted by the Pico and read as the same command; exactly the out-of-range ones are refused |
| Payloads.CommandsOnto | pico/src/main.c:270-315 | Every command the Pico accepts with a public mode is one Zero can send |
| Payloads.ReadWrite | pico/src/main.c:52-72 | Little-endian writing and reading are inverse for values that fit |
| Payloads.WriteRead | pico/src/main.c:52-72 | Writing what was read gives back byte strings of any length |
| Payloads.ReadWriteSigned | pico/src/main.c:138-142 | Two's complement survives the casts for values that fit |
| WireLayout.WriteIsField | pico/src/main.c:60-72 | The bytes written are the digits of the value to base 256, lowest first |
| WireLayout.ModeChangedBytes | docs/protocol.md:51-57 | Type 0x0B, then the mode and the reason by their numbers |
| WireLayout.EmptyNotices | docs/protocol.md:28-40 | The types of the four notices without a payload |
| WireLayout.StatusBytes | docs/protocol.md:122-123 | Type 0x02, the mode, then the four fault flags |
| WireLayout.RecordBytes | docs/protocol.md:119 | Type 0x01, the timestamp in eight bytes, the length, then the report |
| WireLayout.BufferBytes | docs/protocol.md:123-125 | Type 0x03, the mode, then the queued and the free slots in two bytes each |
| WireLayout.StartedBytes | docs/protocol.md:131-134 | Type 0x05 and the epoch in eight bytes |
| WireLayout.UnderrunBytes | docs/protocol.md:159-161 | Type 0x08, the elapsed time in eight bytes, the free slots in two |
| WireLayout.MetricsLayout | docs/protocol.md:144-147 | Type 0x0C and the position of each of the eight figures in the 33 bytes |
| WireLayout.CommandBytes | docs/protocol.md:41-54 | The type of each command and the bytes of MODE_SET and QUEUE_EVENT |
| Links.PicoToZero | pico/src/uart_transport.c:145-179 | The transmitted bytes, read in any chunks, decode without an error to a beginning of the accepted frames, and to all of them once the ring is empty |
| Links.MessagesArrive | pico/src/main.c:85-204 | Whatever part of the transmitted bytes Zero has read unpacks to a beginning of the messages that got into the transmit ring, and to all of them at the end |
| Links.ZeroToPico | zero/app/uart_protocol.py:89-132 | Without a fault the commands handed to the main loop and queued are the commands Zero sent, and a fault needs a full ring or a line error |
| Links.NoticesScan | zero/app/uart_protocol.py:148-193 | A stream cut anywhere inside a concatenation of notices decodes to the complete ones without an error |
| Delivery.OfferedFits | pico/src/main.c:85-204 | Every message the firmware offers fits the fields of its payload, as long as no run sends more than 2^32 reports |
| Delivery.Offer | pico/src/uart_transport.c:145-167 | The message of the main loop and the frame of the ring are accepted together or dropped together |
| Delivery.Convey | pico/src/uart_transport.c:145-179 | Whole runs: a ring that began empty, offered every message of a firmware run with any transmission in between, has accepted the frames of exactly the messages the firmware saw accepted, if the firmware saw the room this ring had |
| Delivery.EmptiedRingHasRoom | pico/src/uart_transport.c:145-167 | A ring never holds more than its capacity, and one emptied before an offer has room for every message |
| Delivery.FirmwareToZero | pico/src/main.c:85-204 | What Zero unpacks, however its reads cut the stream, is a beginning of the messages the transport accepted, which are a subsequence of those the firmware offered; and all of them at the end |
| Delivery.RecordsDrop | pico/src/physical_report_dispatch.c:18-23 | Dropping frames can only drop captures |
| Delivery.ConsumedWasRecorded | zero/app/service.py:36-48 | Whatever a session has consumed and has pending was recorded by the firmware, in order and none twice |
| Delivery.NeverBackwards | zero/app/recording.py:86-92 | What a session has consumed and has pending is in the order of its timestamps, so the recording builder refuses nothing of this firmware |
| Delivery.StopMissesNothing | zero/app/service.py:61-65 | Once PASS is acknowledged and RECORD not named again, the saved recording holds every capture accepted since the session started |
| Delivery.KeyboardToRecording | zero/app/service.py:55-72 | A recording saved by any session of the link holds captures the firmware recorded from the keyboard, in order and none twice; if no frame was dropped, no receive failed and everything was read, it holds what the session began with and exactly the captures since, at their capture times |
| ZeroTransport.PicoTransport.ReceiveFrame | zero/app/transport.py:152-172 | Returns the oldest pending frame; it times out only when cancelled or after reading everything there was, and then loses nothing; it fails only on a read error or bytes that are not frames |
| ZeroTransport.PicoTransport.Await | zero/app/transport.py:129-150 | Takes the oldest frame of one type and keeps every other in order; it fails only on a refused frame or a failed read before any frame of the type; it times out only when no frame within its receives is of the type and it was cancelled or has read everything, and then takes nothing |
| ZeroTransport.PicoTransport.AwaitReply | zero/app/transport.py:129-150 | A wait for a reply takes the oldest frame of its type and loses, adds and reorders no RECORD_EVENT; a timeout takes nothing; how it may fail or time out is that of a wait |
| ZeroTransport.PicoTransport.SetMode | zero/app/transport.py:56-72 | The oldest MODE_CHANGED pending or received decides: success if and only if it confirms the target; one that does not, left by an earlier request, rules success out; every failure and timeout has a cause borne out by the frames and by what was written and read; through timeouts and retries no RECORD_EVENT is lost, added or reordered |
| ZeroTransport.PicoTransport.Try | zero/app/transport.py:62-72 | One attempt: what could not be written is not waited for; otherwise the oldest MODE_CHANGED confirms or denies, or a fault, a failed read or silence ends the wait |
| ZeroTransport.PicoTransport.TryUntilAnswered | zero/app/transport.py:61-67 | Attempts are made until one is not silent, at most one more than the retries |
| ZeroTransport.MustSucceed | zero/app/transport.py:61-72 | set_mode must succeed when its requests could be written and the oldest MODE_CHANGED, pending or received, confirms the target, within reach of each wait and behind nothing that is refused; and at the first attempt if it was pending |
| ZeroTransport.PicoTransport.ArrivedWasEncoded | zero/app/transport.py:152-172 | As long as no read was refused, every frame that ever arrived stood in the bytes read as its encoding, in order and at disjoint positions |
| ZeroTransport.NoReplyLeftIff | zero/app/transport.py:56-72 | When every MODE_SET is answered once, a successful set_mode leaves no answer behind, in the deque or on its way, if and only if none was outstanding before it and its MODE_SET was not repeated |
| ZeroTransport.StaleReplyDecides | zero/app/transport.py:66-72 | An answer left behind that does not confirm the next target decides the next set_mode, which cannot succeed whatever the Pico answers to it |
| ZeroTransport.PicoTransport.PreserveFrames | zero/app/transport.py:125-127 | Frames go back to the front in wire order |
| ZeroTransport.PicoTransport.DrainPendingFrames | zero/app/transport.py:174-183 | Hands over everything pending, in order |
| ZeroTransport.RefusedWhen | zero/app/transport.py:193-209 | Of what the firmware can send, exactly a status or mode change that names ERROR and a status with a fault flag are refused |
| ZeroTransport.RecordsSurvive | zero/app/transport.py:129-150 | Taking a frame of another type leaves the RECORD_EVENTs alone |
| Recordings.RecordingBuilder.Add | zero/app/recording.py:86-98 | Accepts exactly the timestamps that fit and do not move backwards, and then represents one more capture |
| Recordings.RecordingBuilder.Build | zero/app/recording.py:100-102 | The recording represents the captures and passes the constructor checks |
| Recordings.RepresentsIsWellFormed | zero/app/recording.py:56-66 | A recording that represents captures starts at zero, adds up to its duration, and its deltas add up to the time since the first capture |
| Recordings.DeltasTelescope | zero/app/recording.py:86-98 | Up to any event the deltas add up to the time since the first |
| Recordings.RecordingSession.Start | zero/app/service.py:30-34 | A free name and a confirmed RECORD mode start the session, and nothing else does; no frame of the wait is lost, and a failure has a cause borne out by what was written and read |
| Recordings.RecordingSession.ReceiveAndConsume | zero/app/service.py:36-48 | One frame is consumed and the account of captures and pending frames stays complete; a pending frame fails it if and only if it is refused, a MODE_CHANGED, even a late answer to start, or a timestamp that moves backwards; after an error some captures may be missing, and none is added, repeated or moved |
| Recordings.RecordingSession.Fetch | zero/app/service.py:36-37 | The oldest frame leaves the deque and everything else stays accounted for |
| Recordings.RecordingSession.Stop | zero/app/service.py:55-72 | Succeeds if and only if the oldest MODE_CHANGED confirms PASS, everything else pending can be consumed, and the store takes it; so a saved session without a failed receive saw exactly two: RECORD confirmed, then PASS; the saved recording represents exactly the RECORD_EVENTs of the session until the final drain, in order; if an earlier receive had failed, a subsequence of them |
| Recordings.BothAnswersAtOnce | zero/app/service.py:61-65 | An input on which a repeated MODE_SET(PASS) loses the recording: both acknowledgements arrive in one read |
| Recordings.RecordingSession.Consume | zero/app/service.py:40-48 | A RECORD_EVENT is added exactly when its timestamp fits and does not move backwards, an unexpected MODE_CHANGED is an error, the rest is ignored; a refused frame is not added |
| Recordings.RecordingSession.ConsumeChecked | zero/app/service.py:37-48 | A frame is consumed if and only if it is not refused, not a MODE_CHANGED, and its timestamp does not move backwards; otherwise the captures stay as they were |
| Recordings.RecordingSession.ConsumeAll | zero/app/service.py:64-65 | The drain consumes every pending frame, oldest first, and succeeds if and only if none is refused, none is a MODE_CHANGED and no timestamp moves backwards |
| RecordPath.SavedAsCaptured | zero/app/service.py:55-72 | A recording saved by any session of the link holds what the session began with and exactly the captures among the frames that arrived since, and plays back at their capture times; after a failed receive, some of them |
| RecordPath.RecordsReachZero | zero/app/transport.py:152-172 | The RECORD_EVENTs at Zero are those of the first frames the transmit ring accepted, as many as have arrived; all of them when everything is read |
| RecordPath.AcknowledgedIsComplete | zero/app/service.py:61-65 | When a PASS acknowledgement has arrived since the session started and no capture follows the first such one, the saved recording holds every capture the ring accepted since, whatever is still unread behind it |
| Expansions.ExpandOffsets | zero/app/playback.py:59-87 | Succeeds exactly when the speed is positive and every cumulative time and offset fits 64 bits, with the offset of each event from its exact cumulative time |
| Expansions.OffsetsFollowTime | zero/app/playback.py:63-68 | At any speed offsets never decrease and stay within half a microsecond of the exact quotient |
| Expansions.SpeedOneRestores | zero/app/playback.py:63-87 | At speed 1 the expansion never fails and restores every capture time relative to the first |
| Expansions.RoundIsNearest | zero/app/playback.py:81 | The rounding is to the nearest integer, ties to even |
| Expansions.RoundMonotone | zero/app/playback.py:81 | The rounding is monotone |

## Left out

- TinyUSB, USB descriptors, the HID host and device drivers, `uart_transport_pico.c`, board and clock setup: their effects are inputs (how many reports HID takes, a byte or report arrives, a line error is raised).
- Real time: on Zero a deadline is the point at which its list of reads ends, and only safety and the bounded number of moves are proved, not how long they take.
- Room in the transmit ring as seen by the firmware class: any pattern of dropped frames is possible there; `UartTransport` models the ring itself, and `Delivery.Convey` shows for whole runs that the accepted messages and frames agree when the pattern is the one the ring's free space gives.
- Ordering of an all-keys release against playback reports: the scheduler is not gated by the release, so the release theorem is about physical reports.
- Statistics counters and `progress()` diagnostics; the four fault flags of PICO_STATUS are nondeterministic booleans.
- `PicoTransport.queue_events`, `playback_test_source.c` and the HID demo task: not on the paths modelled.
- Playback abort and cancellation on Zero (`abort`, `cancel_event` beyond ending a wait): a session that fails is not followed further.
- `zero/app/controller.py`, JSON, filesystem publication, names, CLI, web interface and system services: input, output and plumbing.
- Expansions.ExpandOffsets: speeds are exact rationals, so the rounding of the floating-point division is not modelled; for speed 1 this agrees with the source for totals up to 2^53 microseconds.
- CreditProtocol.EveryRunCompletes: a transport fault or a dropped frame ends the protocol in the source and is outside this transition system, which has lossless channels; its watchdog has no clock and may fire at any time after an underrun, which includes every time at which the source fires it.
- CreditRefinement.PlayRecording: Zero is the one of the protocol and reads everything the firmware offers; a dropped PLAY_READY or PLAY_STARTED, which the firmware does not notice, would leave the real Zero waiting until its timeout. UART faults, MODE_SET and PLAY_ABORT are not among the moves; `Firmware.LoopIteration` covers them.
- CreditProtocol.ZeroReady: PLAY_READY and the acknowledgement after it are consumed in one step, and so are MODE_CHANGED and PLAY_STARTED; nothing else can happen to Zero between the two waits.
- PipelineWindow.WindowBoundsFlight: holds for runs without an underrun and for recordings no longer than prebuffer and capacity together. Beyond that the window can be exceeded from two windows more on (`PipelineWindow.WindowExceeded`); for lengths in between, and for a window no smaller than the capacity, only `PipelineWindow.FlightIsAccounted` bounds the flight.
- ZeroDecoder.AlteredPairNotAccepted: assumes that the alteration leaves the declared length alone. With another length the candidate covers other bytes, and `ZeroDecoder.AcceptedIffEncoded` says exactly when those are accepted.
- Recordings.RecordingSession: what the store answers is an input; `zero/app/recording.py` decides it by the file system.
- CreditProtocol.CreditSafety: holds for runs without an underrun; `CreditProtocol.OverrunIffLonger` says exactly when it fails with them.
- Delivery.OfferedFits: assumes that no run sends more than 2^32 reports; beyond that the source's 32-bit count has wrapped and its 64-bit sum of latenesses may no longer fit.
- Delivery.StopMissesNothing: that RECORD is not named again and that no earlier PASS acknowledgement was accepted since the session started are conditions on what Zero sends; a second RECORD request would be a second session. An acknowledgement already in the deque when the session started satisfies stop() as well, and says nothing about later captures: the theorem needs one that arrived since.
