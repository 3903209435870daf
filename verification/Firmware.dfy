/** pico/src/main.c with pico/src/playback_scheduler.c and pico/src/mode_state.c.

    All three share static state and call each other back, so they are one class here; every C function is a
    method of the same name and statement order. The alarm interrupt may run wherever `Interrupts` is called:
    before each access to the clock, the alarm pool or `alarmFired`, the only state it shares with the main
    loop. The clock, the alarm pool, HID readiness and room in the transmit ring are nondeterministic. */
module Firmwares {
  import opened Bits
  import opened PlaybackQueues
  import opened KeyboardCaptures
  import opened Lateness
  import opened Messages
  import opened PhysicalPaths
  import opened PlaybackRuns

  /** At most the one armed alarm is pending, for the current deadline; a set flag means that deadline is due. */
  ghost predicate AlarmSafe(pool: map<int, nat>, armed: bool, id: int, fired: bool, deadline: nat, now: nat) {
    && (forall i :: i in pool ==> armed && i == id && pool[i] == deadline)
    && (fired ==> deadline <= now)
  }

  ghost predicate AlarmQuiet(pool: map<int, nat>, armed: bool, fired: bool) {
    (forall i :: i !in pool) && !armed && !fired
  }

  /** MODE_SET as documented: the next mode and the reason reported. */
  function ModeAfterSet(mode: Mode, target: byte): (Mode, Reason) {
    if target > 2 then (mode, InvalidTarget)
    else if target == 0 then (Pass, Okay)
    else if (target == 1 && mode == Record) || (target == 2 && mode == Armed) then (mode, Okay)
    else if mode == Pass then (if target == 1 then Record else Armed, Okay)
    else (mode, InvalidTransition)
  }

  /** The frames of a run that ends without having drained. */
  function AbortFrames(wasRunning: bool, runs: seq<Run>): seq<Message>
    requires wasRunning ==> runs != []
  {
    if wasRunning then [PlayAborted, PlayMetrics(runs[|runs| - 1].metrics)] else []
  }

  /** What an empty open sequence reports when it is first noticed, at time `since`. */
  function UnderrunNotice(since: nat, epoch: nat): Message {
    PlayUnderrun(if since >= epoch then since - epoch else 0, CAPACITY)
  }

  /** The credit of a pop, granted only when the queue was full and the sequence is open. */
  function GrantFrames(queued: nat, ended: bool): seq<Message> {
    if queued == CAPACITY && !ended then [BufferStatus(Playing, CAPACITY - 1, 1)] else []
  }

  /** What follows the announcement of a run that starts over `queued` events. */
  function StartFrames(queued: nat, running: bool, since: nat, epoch: nat, runs: seq<Run>): seq<Message>
    requires !running ==> runs != []
  {
    if queued > 0 then [] else if running then [UnderrunNotice(since, epoch)] else DrainFrames(runs)
  }

  /** The replies to a queue command that is applied and leaves `queued` events: PLAY_READY only in ARMED, then the
      acknowledgement. */
  function QueueReplies(command: Command, mode: Mode, queued: nat): seq<Message>
    requires queued <= CAPACITY
  {
    (if command.EndQueue? && mode == Armed then [Message.PlayReady] else [])
        + [BufferStatus(mode, queued, CAPACITY - queued)]
  }

  /** The one event a full queue has no room for. */
  predicate Overfills(command: Command, queued: seq<Event>) {
    command.AddEvent? && |queued| == CAPACITY
  }

  /** The frames of a run that drained. */
  function DrainFrames(runs: seq<Run>): seq<Message>
    requires runs != []
  {
    [PlayFinished, PlayMetrics(runs[|runs| - 1].metrics), ModeChanged(Armed, Finished)]
  }

  /** pico_uart_queue_command_allowed */
  predicate QueueCommandAllowed(command: Command, mode: Mode) {
    (command.ClearQueue? && mode == Armed) || ((command.AddEvent? || command.EndQueue?)
        && (mode == Armed || mode == Playing))
  }

  /** The queue an accepted command leaves behind. */
  function QueueAfter(command: Command, queued: seq<Event>): seq<Event> {
    if command.ClearQueue? then []
    else if command.AddEvent? then queued + [Event(command.offset, command.report)]
    else queued
  }

  /** What one iteration of the main loop finds: reports from the keyboard, a latched UART fault, commands; whether HID
      takes a pending release, and how many physical reports and playback events it takes. */
  datatype LoopInput = LoopInput(reports: seq<seq<byte>>, fault: bool, commands: seq<Command>,
                                 takesRelease: bool, takesReports: nat, takesEvents: nat)

  /** What an observer between two statements sees: the mode, the playback queue, whether its sequence has ended, and
      how many frames have been offered. */
  datatype Standing = Standing(mode: Mode, queue: seq<Event>, ended: bool, offered: nat)

  /** The two frames of a run that is cut short, or nothing. */
  predicate CutShort(frames: seq<Message>, playing: bool) {
    if playing then |frames| == 2 && frames[0] == PlayAborted && frames[1].PlayMetrics? else frames == []
  }

  /** The answer comes last; before it at most the outcome of the run it cuts short. */
  predicate EndsWith(frames: seq<Message>, playing: bool, answer: Message) {
    frames != [] && frames[|frames| - 1] == answer && CutShort(frames[..|frames| - 1], playing)
  }

  predicate SameRun(before: Standing, after: Standing) {
    after.mode == before.mode && after.queue == before.queue && after.ended == before.ended
  }

  predicate Emptied(after: Standing) {
    after.queue == [] && !after.ended
  }

  /** MODE_SET: PASS from anywhere, RECORD and ARMED only from PASS or from themselves; everything else is refused and
      changes nothing. */
  predicate ModeSetAnswered(target: byte, before: Standing, after: Standing, frames: seq<Message>) {
    var mode := before.mode;
    if target == 0 && mode == Pass then SameRun(before, after) && frames == [ModeChanged(Pass, Okay)]
    else if target == 0 then
      after.mode == Pass && Emptied(after) && EndsWith(frames, mode == Playing, ModeChanged(Pass, Okay))
    else if target == 1 && mode == Record then SameRun(before, after) && frames == [ModeChanged(Record, Okay)]
    else if target == 1 && mode == Pass then
      after.mode == Record && Emptied(after) && frames == [ModeChanged(Record, Okay)]
    else if target == 2 && mode == Armed then SameRun(before, after) && frames == [ModeChanged(Armed, Okay)]
    else if target == 2 && mode == Pass then
      after.mode == Armed && Emptied(after) && frames == [ModeChanged(Armed, Okay)]
    else if target <= 2 then SameRun(before, after) && frames == [ModeChanged(mode, InvalidTransition)]
    else SameRun(before, after) && frames == [ModeChanged(mode, InvalidTarget)]
  }

  /** PLAY_START: only from ARMED; a loaded queue plays, an empty open one starves at once, an empty ended one finishes
      at once. */
  predicate PlayStartAnswered(before: Standing, after: Standing, frames: seq<Message>) {
    if before.mode != Armed then SameRun(before, after) && frames == [ModeChanged(before.mode, InvalidTransition)]
    else
      && |frames| >= 2 && frames[0] == ModeChanged(Playing, Okay) && frames[1].PlayStarted?
      && if before.queue != [] then
           |frames| == 2 && after.mode == Playing && after.queue == before.queue && after.ended == before.ended
         else if !before.ended then
           |frames| == 3 && frames[2].PlayUnderrun? && after.mode == Playing && after.queue == [] && !after.ended
         else
           && |frames| == 5 && frames[2] == PlayFinished && frames[3].PlayMetrics?
           && frames[4] == ModeChanged(Armed, Finished) && after.mode == Armed && after.queue == []
  }

  predicate PlayAbortAnswered(before: Standing, after: Standing, frames: seq<Message>) {
    if before.mode == Armed || before.mode == Playing then
      after.mode == Armed && Emptied(after) && EndsWith(frames, before.mode == Playing, ModeChanged(Armed, Aborted))
    else SameRun(before, after) && frames == [ModeChanged(before.mode, InvalidTransition)]
  }

  /** A protocol error leads to ERROR, except from PASS. */
  predicate Protested(before: Standing, after: Standing, frames: seq<Message>) {
    && after.mode == (if before.mode == Pass then Pass else Error)
    && EndsWith(frames, before.mode == Playing, ModeChanged(after.mode, ProtocolError))
  }

  /** What was asked for is done and acknowledged, with PLAY_READY first for QUEUE_END in ARMED; or the acknowledgement
      was lost and a protocol error follows it. */
  predicate Acknowledged(ready: bool, queue: seq<Event>, ended: bool, before: Standing, after: Standing,
      frames: seq<Message>)
  {
    var n := if ready then 1 else 0;
    && |queue| <= CAPACITY && |frames| > n && (ready ==> frames[0] == Message.PlayReady)
    && frames[n] == BufferStatus(before.mode, |queue|, CAPACITY - |queue|)
    && if |frames| == n + 1 then after.mode == before.mode && after.queue == queue && after.ended == ended
       else Protested(before, after, frames[n + 1..])
  }

  /** The queue commands: QUEUE_CLEAR only in ARMED, the others in ARMED and PLAYING; a full queue refuses an event. */
  predicate QueueCommandAnswered(command: Command, before: Standing, after: Standing, frames: seq<Message>) {
    var armed, playing := before.mode == Armed, before.mode == Playing;
    if command.ClearQueue? && armed then Acknowledged(false, [], false, before, after, frames)
    else if command.AddEvent? && (armed || playing) && |before.queue| < CAPACITY then
      Acknowledged(false, before.queue + [Event(command.offset, command.report)], before.ended, before, after, frames)
    else if command.EndQueue? && (armed || playing) then
      Acknowledged(armed, before.queue, true, before, after, frames)
    else Protested(before, after, frames)
  }

  /** A UART fault is reported, after the outcome of a run it cuts short. */
  predicate FaultAnswered(before: Standing, after: Standing, frames: seq<Message>) {
    if before.mode == Pass || before.mode == Error then
      SameRun(before, after) && frames == [ModeChanged(before.mode, UartFault)]
    else
      && after.mode == Error && Emptied(after)
      && EndsWith(frames, before.mode == Playing, ModeChanged(Mode.Error, UartFault))
  }

  /** One command, from its name alone: where it leads, what it does to the queue, and which frames answer it. */
  predicate Answered(command: Command, before: Standing, after: Standing, frames: seq<Message>) {
    match command
    case SetMode(target) => ModeSetAnswered(target, before, after, frames)
    case StartPlay => PlayStartAnswered(before, after, frames)
    case AbortPlay => PlayAbortAnswered(before, after, frames)
    case Ping => SameRun(before, after) && frames == [Pong]
    case StatusRequest =>
      SameRun(before, after) && |frames| == 1 && frames[0].PicoStatus? && frames[0].mode == before.mode
    case _ => QueueCommandAnswered(command, before, after, frames)
  }

  /** The frames offered between two standings. */
  function Between(before: Standing, after: Standing, offered: seq<Message>): seq<Message> {
    if before.offered <= after.offered <= |offered| then offered[before.offered..after.offered] else []
  }

  /** The input of an iteration is handled: a latched fault first, then every command once and in order. */
  predicate Handled(input: LoopInput, start: Standing, marks: seq<Standing>, offered: seq<Message>) {
    && |marks| == |input.commands| + 1
    && start.offered <= marks[0].offered && (forall k :: 0 <= k < |marks| ==> marks[k].offered <= |offered|)
    && (if input.fault then FaultAnswered(start, marks[0], Between(start, marks[0], offered)) else marks[0] == start)
    && forall k :: 0 <= k < |input.commands| ==>
         && marks[k].offered <= marks[k + 1].offered
         && Answered(input.commands[k], marks[k], marks[k + 1], Between(marks[k], marks[k + 1], offered))
  }

  /** One iteration of the main loop: how things stood before it, around its commands, and after it. */
  datatype Iteration = Iteration(start: Standing, marks: seq<Standing>, end: Standing)

  /** Its input is handled, and behind that only a run in progress moves the mode: to ARMED when it drains, to ERROR
      when it lost credit or starved. */
  predicate Completed(input: LoopInput, it: Iteration, offered: seq<Message>) {
    && Handled(input, it.start, it.marks, offered)
    && var last := it.marks[|it.marks| - 1];
       && last.offered <= it.end.offered <= |offered|
       && if last.mode == Playing then it.end.mode == Playing || it.end.mode == Armed || it.end.mode == Error
          else SameRun(last, it.end) && (last.mode != Record ==> it.end.offered == last.offered)
  }

  lemma {:induction false} CompletedStays(input: LoopInput, it: Iteration, offered: seq<Message>, later: seq<Message>)
    requires Completed(input, it, offered) && offered <= later
    ensures Completed(input, it, later)
  {
    HandledStays(input, it.start, it.marks, offered, later);
    hide Handled;
  }

  /** Frames offered later change nothing about it. */
  lemma {:induction false} HandledStays(input: LoopInput, start: Standing, marks: seq<Standing>, offered: seq<Message>,
      later: seq<Message>)
    requires Handled(input, start, marks, offered) && offered <= later
    ensures Handled(input, start, marks, later)
  {
    hide Answered, FaultAnswered;
    assert Between(start, marks[0], later) == Between(start, marks[0], offered);
    forall k | 0 <= k < |input.commands|
      ensures Answered(input.commands[k], marks[k], marks[k + 1], Between(marks[k], marks[k + 1], later))
    {
      assert Between(marks[k], marks[k + 1], later) == Between(marks[k], marks[k + 1], offered);
    }
  }

  /** Nothing handled yet but the fault. */
  lemma {:induction false} HandledNone(input: LoopInput, start: Standing, first: Standing, before: seq<Message>,
      offered: seq<Message>)
    requires before <= offered && start.offered == |before| && first.offered == |offered|
    requires if input.fault then FaultAnswered(start, first, offered[|before|..]) else first == start
    ensures Handled(input.(commands := []), start, [first], offered)
  {
    hide FaultAnswered;
    assert Between(start, first, offered) == offered[|before|..];
  }

  /** One more command. */
  lemma {:induction false} HandledNext(input: LoopInput, start: Standing, marks: seq<Standing>, offered: seq<Message>,
      i: nat, after: Standing, later: seq<Message>)
    requires i < |input.commands| && Handled(input.(commands := input.commands[..i]), start, marks, offered)
    requires offered <= later && after.offered == |later| && marks[i].offered == |offered|
    requires Answered(input.commands[i], marks[i], after, later[|offered|..])
    ensures Handled(input.(commands := input.commands[..i + 1]), start, marks + [after], later)
  {
    var one, two := input.(commands := input.commands[..i]), input.(commands := input.commands[..i + 1]);
    HandledStays(one, start, marks, offered, later);
    hide Answered, FaultAnswered;
    assert Between(marks[i], after, later) == later[|offered|..];
    forall k | 0 <= k < i + 1
      ensures Answered(two.commands[k], (marks + [after])[k], (marks + [after])[k + 1],
                Between((marks + [after])[k], (marks + [after])[k + 1], later))
    {
      if k < i { assert one.commands[k] == two.commands[k]; }
    }
  }

  function Reports(captured: seq<Captured>): (r: seq<seq<byte>>)
    ensures |r| == |captured|
  {
    if captured == [] then []
    else Reports(captured[..|captured| - 1]) + [captured[|captured| - 1].report]
  }

  /** The reports in the capture FIFO after more have arrived: each of eight bytes joins it unless it is full or the
      mode takes no input. */
  function Admitted(captured: seq<seq<byte>>, reports: seq<seq<byte>>, open: bool): seq<seq<byte>>
    decreases |reports|
  {
    if reports == [] then captured
    else
      var next := if open && |reports[0]| == REPORT_LEN && |captured| < CAPTURE_CAPACITY then captured + [reports[0]]
                  else captured;
      Admitted(next, reports[1..], open)
  }

  lemma {:induction false} AdmitNext(before: seq<Captured>, after: seq<Captured>, reports: seq<seq<byte>>, i: nat,
      open: bool)
    requires i < |reports|
    requires if open && |reports[i]| == REPORT_LEN && |before| < CAPTURE_CAPACITY
             then |after| == |before| + 1 && after[..|before|] == before && after[|before|].report == reports[i]
             else after == before
    ensures Admitted(Reports(before), reports[i..], open) == Admitted(Reports(after), reports[i + 1..], open)
  {
    assert reports[i..][0] == reports[i] && reports[i..][1..] == reports[i + 1..];
  }

  // ---- what the handlers promise, in an observer's terms ----

  /** Only a run that was playing is cut short. */
  lemma {:induction false} CutShortFrames(cut: bool, runs: seq<Run>, answer: Message)
    requires cut ==> runs != []
    ensures EndsWith(AbortFrames(cut, runs) + [answer], cut, answer)
    ensures !cut ==> AbortFrames(cut, runs) + [answer] == [answer]
  {
    var frames := AbortFrames(cut, runs) + [answer];
    assert frames[..|frames| - 1] == AbortFrames(cut, runs);
  }

  lemma {:induction false} ModeSetAnswers(target: byte, before: Standing, after: Standing, runs: seq<Run>)
    requires before.mode == Playing && after.mode != Playing ==> runs != []
    requires after.mode == ModeAfterSet(before.mode, target).0
    requires if after.mode == before.mode then SameRun(before, after) else Emptied(after)
    ensures ModeSetAnswered(target, before, after, AbortFrames(before.mode == Playing && after.mode != Playing, runs)
              + [ModeChanged(after.mode, ModeAfterSet(before.mode, target).1)])
  {
    CutShortFrames(before.mode == Playing && after.mode != Playing, runs,
                   ModeChanged(after.mode, ModeAfterSet(before.mode, target).1));
    hide EndsWith, AbortFrames;
  }

  lemma {:induction false} PlayStartAnswers(before: Standing, after: Standing, epoch: nat, since: nat, runs: seq<Run>)
    requires before.mode == Armed && after.mode == (if before.queue != [] || !before.ended then Playing else Armed)
    requires after.mode == Armed ==> runs != []
    requires after.queue == before.queue && (after.mode == Playing ==> after.ended == before.ended)
    ensures PlayStartAnswered(before, after, [ModeChanged(Playing, Okay), PlayStarted(epoch)]
              + StartFrames(|before.queue|, after.mode == Playing, since, epoch, runs))
  {
  }

  lemma {:induction false} PlayAbortAnswers(before: Standing, after: Standing, runs: seq<Run>)
    requires before.mode == Playing ==> runs != []
    requires after.mode == if before.mode == Playing then Armed else before.mode
    requires if after.mode == Armed then Emptied(after) else SameRun(before, after)
    ensures PlayAbortAnswered(before, after, AbortFrames(before.mode == Playing, runs)
              + [ModeChanged(after.mode, if after.mode == Armed then Aborted else InvalidTransition)])
  {
    CutShortFrames(before.mode == Playing, runs, ModeChanged(Armed, Aborted));
    hide EndsWith;
  }

  lemma {:induction false} FaultAnswers(before: Standing, after: Standing, runs: seq<Run>)
    requires before.mode == Playing ==> runs != []
    requires after.mode == if before.mode == Pass || before.mode == Error then before.mode else Error
    requires if after.mode == before.mode then SameRun(before, after) else Emptied(after)
    ensures FaultAnswered(before, after, AbortFrames(before.mode == Playing, runs)
              + [ModeChanged(after.mode, UartFault)])
  {
    CutShortFrames(before.mode == Playing, runs, ModeChanged(after.mode, UartFault));
    hide EndsWith;
  }

  /** The frames of a protocol error. */
  function ProtestFrames(before: Standing, after: Standing, runs: seq<Run>): seq<Message>
    requires before.mode == Playing && after.mode != Playing ==> runs != []
  {
    AbortFrames(before.mode == Playing && after.mode != Playing, runs) + [ModeChanged(after.mode, ProtocolError)]
  }

  lemma {:induction false} ProtestAnswers(before: Standing, after: Standing, runs: seq<Run>)
    requires before.mode == Playing ==> runs != []
    requires after.mode == if before.mode == Pass then Pass else Error
    ensures Protested(before, after, ProtestFrames(before, after, runs))
  {
    CutShortFrames(before.mode == Playing, runs, ModeChanged(after.mode, ProtocolError));
    hide EndsWith, AbortFrames;
  }

  lemma {:induction false} QueueCommandAnswers(command: Command, before: Standing, after: Standing, dropped: bool,
      runs: seq<Run>)
    requires command.ClearQueue? || command.AddEvent? || command.EndQueue?
    requires before.mode == Playing && after.mode != Playing ==> runs != []
    requires |before.queue| <= CAPACITY
    requires if QueueCommandAllowed(command, before.mode)
             then after.mode == if dropped || Overfills(command, before.queue) then Error else before.mode
             else after.mode == if before.mode == Pass then Pass else Error
    requires QueueCommandAllowed(command, before.mode) && after.mode != Error ==>
               && after.queue == QueueAfter(command, before.queue)
               && after.ended == (command.EndQueue? || (command.AddEvent? && before.ended))
    ensures Overfills(command, before.queue) || |QueueAfter(command, before.queue)| <= CAPACITY
    ensures QueueCommandAnswered(command, before, after,
              (if QueueCommandAllowed(command, before.mode) && !Overfills(command, before.queue)
               then QueueReplies(command, before.mode, |QueueAfter(command, before.queue)|) else [])
              + (if QueueCommandAllowed(command, before.mode) && after.mode != Error then []
                 else ProtestFrames(before, after, runs)))
  {
    var protest := ProtestFrames(before, after, runs);
    if !QueueCommandAllowed(command, before.mode) || after.mode == Error { ProtestAnswers(before, after, runs); }
    assert [] + protest == protest;
    hide ProtestFrames, QueueReplies, Acknowledged, Protested;
    if QueueCommandAllowed(command, before.mode) && !Overfills(command, before.queue) {
      var queue := QueueAfter(command, before.queue);
      RepliesAcknowledge(command, queue, command.EndQueue? || (command.AddEvent? && before.ended), before, after,
                         if after.mode != Error then [] else protest);
    }
  }

  lemma {:induction false} RepliesAcknowledge(command: Command, queue: seq<Event>, ended: bool, before: Standing,
      after: Standing, more: seq<Message>)
    requires |queue| <= CAPACITY && (before.mode == Armed || before.mode == Playing)
    requires if more == [] then after.mode == before.mode && after.queue == queue && after.ended == ended
             else Protested(before, after, more)
    ensures Acknowledged(command.EndQueue? && before.mode == Armed, queue, ended, before, after,
              QueueReplies(command, before.mode, |queue|) + more)
  {
    hide Protested;
    var replies := QueueReplies(command, before.mode, |queue|);
    assert (replies + more)[|replies|..] == more;
  }

  class Firmware {
    // hardware
    var now: nat
    var alarmPool: map<int, nat>

    // pico_playback_scheduler_t
    const queue: PlaybackQueue
    const lateness: LatenessLog
    var running: bool
    var sequenceEnded: bool
    var waitingForEvent: bool
    var underrunActive: bool
    var playbackStart: nat
    var nextDeadline: nat
    var underrunSince: nat
    var alarmFired: bool
    var alarmId: int
    var alarmArmed: bool
    var underrunCount: uint32

    // pico_mode_state_t, main.c
    var mode: Mode
    var flowControlFault: bool
    const physical: PhysicalPath
    const wire: Wire

    ghost var pushed: seq<Event>
    ghost var sent: seq<Dispatch>
    ghost var observed: seq<bool>
    /** When each of those looks at the queue was taken. */
    ghost var looked: seq<nat>
    ghost var rise: nat
    ghost var runs: seq<Run>

    // ---- invariants ----

    ghost predicate Parts()
      reads queue, lateness, wire
    {
      queue.Valid() && lateness.Valid() && wire.Valid()
    }

    ghost predicate Clock()
      reads `now, `playbackStart, physical`earlier, physical`accepted
    {
      playbackStart <= now < CLOCK_LIMIT && Timely(physical.Captures(), now)
    }

    /** Conservation: events pushed since the last clear are the ones HID accepted, then the queue. */
    ghost predicate Conserved()
      requires queue.Valid()
      reads `pushed, `sent, `playbackStart, queue, queue.events
    {
      && pushed == Events(sent) + queue.Contents()
      && AllOnTime(playbackStart, sent)
    }

    /** The statistics of the run in progress match its history. */
    ghost predicate Measured()
      reads `sent, `observed, `playbackStart, `underrunCount, lateness, lateness.samples
    {
      && lateness.Tracks()
      && lateness.log == Latenesses(playbackStart, sent)
      && underrunCount == Rises(observed) % UINT32
    }

    ghost predicate Alarms()
      reads `running, `waitingForEvent, `alarmPool, `alarmArmed, `alarmId, `alarmFired, `nextDeadline, `now
    {
      if running && !waitingForEvent
      then AlarmSafe(alarmPool, alarmArmed, alarmId, alarmFired, nextDeadline, now)
      else AlarmQuiet(alarmPool, alarmArmed, alarmFired)
    }

    /** A running scheduler that is not waiting has a head, and its deadline is epoch plus offset. */
    ghost predicate HeadArmed()
      requires queue.Valid()
      reads `running, `waitingForEvent, `nextDeadline, `playbackStart, queue, queue.events
    {
      && (running && !waitingForEvent ==>
            queue.Contents() != [] && nextDeadline == Deadline(playbackStart, queue.Contents()[0].offset))
    }

    ghost predicate Waiting()
      reads `running, `waitingForEvent, `underrunActive, `underrunSince, `now, `observed, `looked, `rise
    {
      && waitingForEvent == underrunActive && (waitingForEvent ==> running)
      && (underrunActive ==> underrunSince <= now)
      && (running ==> Intervals(observed, rise, underrunActive) && |looked| == |observed| && Ordered(looked))
      && (running && looked != [] ==> looked[|looked| - 1] <= now)
      && (running && underrunActive ==> looked[rise] <= underrunSince)
    }

    /** The wire tells the same story as the modules. */
    ghost predicate Reported()
      reads `running, `runs, `observed, wire
    {
      && GoodRuns(runs) && wire.digest.outcomes == Outcomes(runs)
      && wire.digest.phase == (if running then Live else Idle)
      && (running ==> wire.digest.underruns == Rises(observed))
    }

    ghost predicate Inputs()
      reads `mode, wire, physical, physical.capture, physical.capture.events
    {
      physical.wire == wire && physical.Valid(mode == Record) && physical.WireAgrees() && wire.digest.mode == mode
    }

    /** The fault flag is set exactly when the run in progress has lost a frame that carries credit. Holds at every
        main-loop operation boundary too. */
    ghost predicate CreditKept()
      reads `running, `flowControlFault, wire
    {
      flowControlFault == (running && wire.LostCredit(LastStart(wire.offered)))
    }

    /** Holds at every main-loop operation boundary. */
    ghost predicate Inv()
      reads this, queue, queue.events, lateness, lateness.samples
      reads wire, physical, physical.capture, physical.capture.events
    {
      && Parts() && Clock() && Conserved() && Alarms() && HeadArmed() && Waiting() && Reported() && Inputs()
      && (running <==> mode == Playing)
      && (if running then Measured() else sent == [])
    }

    /** `room` decides which frames the transmit ring will drop. */
    constructor (room: nat -> bool)
      ensures Inv() && CreditKept() && mode == Pass && wire.offered == [] && physical.log == []
                && queue.Contents() == []
      ensures fresh(queue) && fresh(queue.events) && fresh(lateness) && fresh(lateness.samples) && fresh(wire)
      ensures fresh(physical) && fresh(physical.capture) && fresh(physical.capture.events) && wire.room == room
    {
      hide Timely, PhysicalPath.Valid, KeyboardCapture.Valid, LatenessLog.Valid, LatenessLog.Tracks, Wire.Valid;
      hide PlaybackQueue.Valid, LosesCredit, LastStart, Measured, Intervals, Ordered, SafeLog, MarksFit, Rises;
      hide Latenesses;
      TimelyNone(0);
      now, alarmPool, playbackStart, nextDeadline, underrunSince, underrunCount := 0, map[], 0, 0, 0, 0;
      queue := new PlaybackQueue();
      lateness := new LatenessLog();
      running, sequenceEnded, waitingForEvent, underrunActive := false, false, false, false;
      alarmFired, alarmId, alarmArmed := false, 0, false;
      mode, flowControlFault := Pass, false;
      var w := new Wire(room);
      wire := w;
      physical := new PhysicalPath(w);
      pushed, sent, observed, looked, rise, runs := [], [], [], [], 0, [];
    }

    // ---- hardware ----

    /** Time passes and any alarm that is due may fire; alarm_isr only sets the flag. */
    method Interrupts()
      requires now < CLOCK_LIMIT
      modifies `now, `alarmPool, `alarmFired
      ensures old(now) <= now < CLOCK_LIMIT
      ensures forall i :: i in alarmPool ==> i in old(alarmPool) && alarmPool[i] == old(alarmPool)[i]
      ensures old(alarmFired) ==> alarmFired
      ensures alarmFired ==> old(alarmFired) || exists i :: i in old(alarmPool) && old(alarmPool)[i] <= now
    {
      var later: nat := *;
      if now <= later < CLOCK_LIMIT {
        now := later;
      }
      var rounds: int := *;
      while rounds > 0
        invariant old(now) <= now < CLOCK_LIMIT
        invariant forall i :: i in alarmPool ==> i in old(alarmPool) && alarmPool[i] == old(alarmPool)[i]
        invariant old(alarmFired) ==> alarmFired
        invariant alarmFired ==> old(alarmFired) || exists i :: i in old(alarmPool) && old(alarmPool)[i] <= now
      {
        var id: int := *;
        if id in alarmPool && alarmPool[id] <= now {
          alarmPool := alarmPool - {id};
          alarmFired := true;
        }
        rounds := rounds - 1;
      }
    }

    /** time_us_64 */
    method ReadClock() returns (t: nat)
      requires now < CLOCK_LIMIT
      modifies `now, `alarmPool, `alarmFired
      ensures old(now) <= now < CLOCK_LIMIT && t == now
      ensures forall i :: i in alarmPool ==> i in old(alarmPool) && alarmPool[i] == old(alarmPool)[i]
      ensures old(alarmFired) ==> alarmFired
      ensures alarmFired ==> old(alarmFired) || exists i :: i in old(alarmPool) && old(alarmPool)[i] <= now
    {
      Interrupts();
      t := now;
    }

    /** add_alarm_at with fire_if_past: may run the callback inside the call, may find no free slot (id <= 0),
        and the new alarm may fire before the caller stores its id. */
    method AddAlarmAt(deadline: nat) returns (id: int)
      requires now < CLOCK_LIMIT
      modifies `now, `alarmPool, `alarmFired
      ensures old(now) <= now < CLOCK_LIMIT
      ensures forall i :: i in alarmPool ==>
                (i == id && id > 0 && alarmPool[i] == deadline)
                    || (i in old(alarmPool) && alarmPool[i] == old(alarmPool)[i])
      ensures alarmFired ==> old(alarmFired) || deadline <= now || exists i ::
                i in old(alarmPool) && old(alarmPool)[i] <= now
    {
      Interrupts();
      id := *;
      if id in alarmPool {
        id := 0;
      }
      if id <= 0 {
        if deadline <= now {
          alarmFired := *;
        }
      } else {
        alarmPool := alarmPool[id := deadline];
      }
      Interrupts();
    }

    // ---- pico/src/main.c: callbacks ----

    /** The run that ends now, as the history records it. */
    ghost function ThisRun(finished: bool, metrics: Metrics): Run
      requires queue.Valid()
      reads this, queue, queue.events
    {
      Run(playbackStart, finished, sequenceEnded, History(pushed, sent, observed, rise), queue.Contents(), metrics)
    }

    /** The looks of the run stand as they are, and time does not go back. */
    twostate predicate LooksStand()
      reads `observed, `looked, `underrunSince, `now
    {
      observed == old(observed) && looked == old(looked) && underrunSince == old(underrunSince) && old(now) <= now
    }

    /** What must hold when a run is cut short or drains: everything but the alarm, which is already quiet. */
    ghost predicate Ending()
      reads this, queue, queue.events, lateness, lateness.samples
      reads wire, physical, physical.capture, physical.capture.events
    {
      && Parts() && Clock() && Conserved() && Measured() && Inputs()
      && running && mode == Playing
      && AlarmQuiet(alarmPool, alarmArmed, alarmFired)
      && GoodRuns(runs) && wire.digest.outcomes == Outcomes(runs) && wire.digest.phase == Live
      && wire.digest.underruns == Rises(observed)
    }

    /** No run in progress and nothing armed; inside a transition the mode may still say PLAYING. */
    ghost predicate Stopped()
      reads `now, `playbackStart, `mode, `running, `alarmPool, `alarmArmed, `alarmFired, `runs
      reads queue, lateness, wire, physical, physical.capture, physical.capture.events
    {
      && Parts() && Clock() && Inputs() && !running
      && AlarmQuiet(alarmPool, alarmArmed, alarmFired)
      && GoodRuns(runs) && wire.digest.outcomes == Outcomes(runs)
    }

    /** stop() may be called in a run, or with nothing running. */
    ghost predicate Stoppable()
      reads this, queue, queue.events, lateness, lateness.samples
      reads wire, physical, physical.capture, physical.capture.events
    {
      && Parts() && Clock() && Inputs() && Alarms()
      && GoodRuns(runs) && wire.digest.outcomes == Outcomes(runs)
      && if running then mode == Playing && Conserved() && Measured() && wire.digest.phase == Live
                         && wire.digest.underruns == Rises(observed)
         else Stopped()
    }

    /** Queue and sequence discarded. */
    ghost predicate Cleared()
      reads `pushed, `sent, `sequenceEnded, `waitingForEvent, `underrunActive, `flowControlFault, queue, queue.events
    {
      && queue.Valid() && queue.Contents() == [] && pushed == [] && sent == []
      && !sequenceEnded && !waitingForEvent && !underrunActive && !flowControlFault
    }

    /** The first half of finish: stop, sort the samples, compute the metrics. */
    method SummariseRun(ghost finished: bool) returns (metrics: Metrics)
      requires queue.Valid() && Conserved() && Measured() && running && GoodRuns(runs)
      requires finished ==> sequenceEnded && queue.Contents() == []
      modifies `running, `runs, lateness.samples
      ensures !running && lateness.Valid()
      ensures runs == old(runs) + [ThisRun(finished, metrics)]
      ensures GoodRuns(runs) && Outcomes(runs) == Outcomes(old(runs)) + [Outcome(finished, Rises(observed), metrics)]
    {
      hide AllOnTime, Events, Latenesses, Rises, Outcomes, GoodRuns, Describes, LatenessLog.Valid;
      hide PlaybackQueue.Valid, PlaybackQueue.Contents;
      ghost var run, before := ThisRun(finished, NO_METRICS), runs;
      running := false;
      metrics := lateness.Report(underrunCount, Rises(observed));
      CompleteRun(before, run, metrics);
      runs := before + [run.(metrics := metrics)];
    }

    /** The two frames playback_complete sends for every run. */
    method ReportOutcome(finished: bool, metrics: Metrics)
      requires wire.Valid() && wire.digest.phase == Live
      modifies wire
      ensures wire.Valid()
      ensures wire.offered == old(wire.offered) + [if finished then PlayFinished else PlayAborted, PlayMetrics(metrics)]
      ensures wire.digest == Digest(Phase.Measured, old(wire.digest.underruns), old(wire.digest.records),
                                    old(wire.digest.outcomes)
                                        + [Outcome(finished, old(wire.digest.underruns), metrics)],
                                    old(wire.digest.mode))
    {
      hide Extend, Wire.Valid;
      DigestOutcome(wire.digest, finished, metrics);
      if finished {
        var _ := wire.QueueFrame(PlayFinished);
      } else {
        var _ := wire.QueueFrame(PlayAborted);
      }
      var _ := wire.QueueFrame(PlayMetrics(metrics));
    }

    /** playback_complete: outcome, metrics, then for a drained run the transition to ARMED. */
    method PlaybackComplete(reason: Reason, metrics: Metrics)
      requires Parts() && Clock() && Inputs() && !running && mode == Playing
      requires AlarmQuiet(alarmPool, alarmArmed, alarmFired)
      requires runs != [] && GoodRuns(runs) && wire.digest.phase == Live
      requires Outcomes(runs) == wire.digest.outcomes + [Outcome(reason == Finished, wire.digest.underruns, metrics)]
      requires reason == Finished || reason == Aborted
      modifies this, queue, lateness.samples, wire, physical, physical.capture
      ensures runs == old(runs) && !running && LooksStand()
      ensures physical.log == old(physical.log) + if reason == Finished then [Transition] else []
      ensures reason == Aborted ==> Stopped() && mode == Playing && wire.digest.phase == Phase.Measured
      ensures reason == Aborted ==> wire.offered == old(wire.offered) + [PlayAborted, PlayMetrics(metrics)]
      ensures reason == Aborted ==> queue.Contents() == old(queue.Contents())
      ensures reason == Finished ==> Inv() && Cleared() && mode == Armed
      ensures reason == Finished ==>
                wire.offered == old(wire.offered) + [PlayFinished, PlayMetrics(metrics), ModeChanged(Armed, Finished)]
      decreases running, 5
    {
      hide Outcomes, GoodRuns, PhysicalPath.Valid, KeyboardCapture.Contents, Events, AllOnTime, LatenessLog.Valid;
      hide PlaybackQueue.Valid;
      ReportOutcome(reason == Finished, metrics);
      if reason == Finished {
        var _ := PlayFinish();
      }
    }

    /** finish: exactly one outcome with exact metrics; draining re-enters the mode machine. */
    method Finish(reason: Reason)
      requires Ending()
      requires reason == Finished ==> sequenceEnded && queue.Contents() == []
      requires reason == Finished || reason == Aborted
      modifies this, queue, lateness.samples, wire, physical, physical.capture
      ensures !running && runs != [] && runs == old(runs) + [old(ThisRun(reason == Finished, NO_METRICS)).(metrics :=
                runs[|runs| - 1].metrics)]
      ensures LooksStand() && physical.log == old(physical.log) + if reason == Finished then [Transition] else []
      ensures reason == Aborted ==> Stopped() && mode == Playing && wire.digest.phase == Phase.Measured
      ensures reason == Aborted ==> wire.offered == old(wire.offered) + AbortFrames(true, runs)
      ensures reason == Aborted ==> queue.Contents() == old(queue.Contents())
      ensures reason == Finished ==> Inv() && Cleared() && mode == Armed
      ensures reason == Finished ==> wire.offered == old(wire.offered) + DrainFrames(runs)
      decreases running, 0
    {
      hide Inputs, Conserved, Measured, GoodRuns, Outcomes, Events, Rises, Wire.Valid, LatenessLog.Valid;
      hide PlaybackQueue.Valid;
      var metrics := SummariseRun(reason == Finished);
      PlaybackComplete(reason, metrics);
    }

    /** The alarm of a running scheduler is cancelled before its flag is cleared, so neither can survive the other. */
    method CancelAlarm()
      requires now < CLOCK_LIMIT && Alarms()
      modifies `now, `alarmPool, `alarmArmed, `alarmFired
      ensures old(now) <= now < CLOCK_LIMIT && AlarmQuiet(alarmPool, alarmArmed, alarmFired)
    {
      Interrupts();
      if alarmArmed {
        alarmPool := alarmPool - {alarmId};
        alarmArmed := false;
      }
      Interrupts();
      alarmFired := false;
    }

    /** pico_playback_scheduler_stop: cancel before clearing the flag, so no stale alarm survives. */
    method Stop()
      requires Stoppable()
      modifies this, queue, lateness.samples, wire, physical, physical.capture
      ensures Stopped() && mode == old(mode) && queue.Contents() == old(queue.Contents())
      ensures LooksStand() && physical.log == old(physical.log)
      ensures old(running) ==> runs != [] && runs[..|runs| - 1] == old(runs) && wire.digest.phase == Phase.Measured
      ensures !old(running) ==> runs == old(runs) && wire.digest == old(wire.digest)
      ensures wire.offered == old(wire.offered) + AbortFrames(old(running), runs)
      decreases running, 1
    {
      hide Parts, Inputs, Conserved, Measured, GoodRuns, Outcomes, Alarms, AlarmQuiet, ThisRun, Rises;
      if !running {
        return;
      }
      CancelAlarm();
      Finish(Aborted);
    }

    /** pico_playback_scheduler_reset_sequence */
    method ResetSequence()
      modifies `sequenceEnded, `waitingForEvent, `underrunActive
      ensures if running
              then sequenceEnded == old(sequenceEnded) && waitingForEvent == old(waitingForEvent)
                  && underrunActive == old(underrunActive)
              else !sequenceEnded && !waitingForEvent && !underrunActive
    {
      if running {
        return;
      }
      sequenceEnded, waitingForEvent, underrunActive := false, false, false;
    }

    /** mode_clear_queue: stop first, so the partial run is reported before its queue is discarded. */
    method ModeClearQueue()
      requires Stoppable()
      modifies this, queue, lateness.samples, wire, physical, physical.capture
      ensures Stopped() && Cleared() && !running && mode == old(mode)
      ensures LooksStand() && physical.log == old(physical.log)
      ensures old(running) ==> runs != [] && runs[..|runs| - 1] == old(runs) && wire.digest.phase == Phase.Measured
      ensures !old(running) ==> runs == old(runs) && wire.digest == old(wire.digest)
      ensures wire.offered == old(wire.offered) + AbortFrames(old(running), runs)
      decreases running, 2
    {
      hide Parts, Clock, Inputs, Stoppable, AbortFrames, Cleared, GoodRuns, Outcomes, AlarmQuiet;
      Stop();
      ForgetSequence();
    }

    /** mode_clear_queue, once the scheduler is stopped. */
    method ForgetSequence()
      requires Stopped()
      modifies queue, `sequenceEnded, `waitingForEvent, `underrunActive, `flowControlFault, `pushed, `sent
      ensures Stopped() && Cleared()
    {
      hide Clock, Inputs, GoodRuns, Outcomes, AlarmQuiet, Wire.Valid, LatenessLog.Valid, PlaybackQueue.Valid;
      hide PlaybackQueue.Contents;
      queue.Clear();
      ResetSequence();
      flowControlFault := false;
      pushed, sent := [], [];
    }

    /** clear_release_and_queue */
    method ClearReleaseAndQueue()
      requires Stoppable()
      modifies this, queue, lateness.samples, wire, physical, physical.capture
      ensures Stopped() && Cleared() && !running && mode == old(mode)
      ensures LooksStand() && physical.log == old(physical.log)
      ensures old(running) ==> runs != [] && runs[..|runs| - 1] == old(runs) && wire.digest.phase == Phase.Measured
      ensures !old(running) ==> runs == old(runs) && wire.digest == old(wire.digest)
      ensures wire.offered == old(wire.offered) + AbortFrames(old(running), runs)
      ensures physical.Valid(true) && physical.Valid(false) && physical.releasePending
                && physical.capture.Contents() == []
      decreases running, 3
    {
      hide Timely, Parts, GoodRuns, Outcomes, AlarmQuiet, PlaybackQueue.Valid, PlaybackQueue.Contents;
      hide PhysicalPath.Valid;
      ModeClearQueue();
      ghost var before := physical.Captures();
      physical.ClearAndRelease();
      TimelyPrefix(physical.Captures(), before, now);
    }

    /** notify */
    method Notify(reason: Reason)
      requires wire.Valid()
      modifies wire
      ensures wire.Valid() && wire.offered == old(wire.offered) + [ModeChanged(mode, reason)]
      ensures wire.digest == Extend(old(wire.digest), ModeChanged(mode, reason))
    {
      var _ := wire.QueueFrame(ModeChanged(mode, reason));
    }

    /** The tail every transition out of the current mode shares: assign the state, then report it. */
    method Enter(target: Mode, reason: Reason)
      requires Stopped() && Cleared() && target != Playing
      requires wire.digest.phase == Idle || wire.digest.phase == Phase.Measured
      requires physical.Valid(true) && physical.Valid(false) && physical.releasePending
                 && physical.capture.Contents() == []
      modifies `mode, wire, physical
      ensures Inv() && mode == target && physical.releasePending
      ensures physical.log == old(physical.log) + [Transition]
      ensures wire.offered == old(wire.offered) + [ModeChanged(target, reason)]
    {
      hide Measured, PhysicalPath.Valid, GoodRuns, Outcomes, Intervals, LatenessLog.Valid, PlaybackQueue.Valid;
      hide KeyboardCapture.Contents, KeyboardCapture.Valid, Wire.Valid, SafeLog, MarksFit;
      mode := target;
      physical.NoteTransition();
      Notify(reason);
    }

    /** A MODE_CHANGED that reports the current state and changes nothing. */
    method Acknowledge(reason: Reason)
      requires Inv() && (mode == Playing ==> reason != Okay)
      modifies wire
      ensures Inv() && wire.offered == old(wire.offered) + [ModeChanged(mode, reason)]
                && (old(CreditKept()) ==> CreditKept())
    {
      hide Conserved, Measured, Alarms, HeadArmed, Waiting, GoodRuns, Outcomes, LosesCredit, LastStart;
      ghost var before := wire.offered;
      Notify(reason);
      LosesNone(wire.room, before, [ModeChanged(mode, reason)]);
      if old(CreditKept()) { KeptOver(before, [ModeChanged(mode, reason)]); }
    }

    /** pico_mode_state_play_finish */
    method PlayFinish() returns (ok: bool)
      requires if mode == Playing then Stopped() && wire.digest.phase == Phase.Measured else Inv()
      modifies this, queue, lateness.samples, wire, physical, physical.capture
      ensures Inv() && runs == old(runs) && LooksStand()
      ensures ok ==> physical.log == old(physical.log) + [Transition]
      ensures ok <==> old(mode) == Playing
      ensures ok ==> Cleared() && mode == Armed && wire.offered == old(wire.offered) + [ModeChanged(Armed, Finished)]
      ensures !ok ==> mode == old(mode) && wire.offered == old(wire.offered) + [ModeChanged(mode, InvalidTransition)]
      decreases running, 4
    {
      hide Inputs, Inv, Conserved, Measured, GoodRuns, Outcomes;
      if mode != Playing {
        Acknowledge(InvalidTransition);
        return false;
      }
      ClearReleaseAndQueue();
      Enter(Armed, Finished);
      return true;
    }

    /** The queue was found empty, with its sequence open, by every look since `since` and by one just before. */
    ghost predicate EmptySince(since: nat)
      reads `observed, `looked
    {
      && |looked| == |observed|
      && (forall i :: 0 <= i < |looked| && looked[i] > since ==> observed[i])
      && exists i :: 0 <= i < |looked| && looked[i] <= since && forall j :: i <= j < |looked| ==> observed[j]
    }

    /** Frames that carry no credit and start no run keep the account of the run in progress. */
    lemma {:induction false} KeptOver(before: seq<Message>, more: seq<Message>)
      requires wire.offered == before + more && forall m :: m in more ==> !m.PlayStarted?
      requires flowControlFault == (running && (LosesCredit(wire.room, before, LastStart(before))
                 || wire.LostCredit(|before|)))
      ensures CreditKept()
    {
      hide LosesCredit, LastStart;
      LastStartSame(before, more);
      KeptOn(before);
    }

    lemma {:induction false} KeptOn(before: seq<Message>)
      requires before <= wire.offered && LastStart(wire.offered) == LastStart(before)
      ensures wire.LostCredit(LastStart(wire.offered)) <==>
                LosesCredit(wire.room, before, LastStart(before)) || wire.LostCredit(|before|)
    {
      hide LosesCredit, LastStart;
      assert wire.offered == before + wire.offered[|before|..];
      LosesMore(wire.room, before, wire.offered[|before|..], LastStart(before));
    }

    lemma {:induction false} BoundaryIsStoppable()
      requires Inv()
      ensures Stoppable() && wire.digest.phase == (if running then Live else Idle)
      ensures running <==> mode == Playing
    {
      hide Conserved, Measured, HeadArmed, PhysicalPath.Valid, GoodRuns, Outcomes;
    }

    /** A transition that may cut a run short: report the run, discard everything, release, then report the state. */
    method Leave(target: Mode, reason: Reason)
      requires Inv() && target != Playing
      modifies this, queue, lateness.samples, wire, physical, physical.capture
      ensures Inv() && Cleared() && mode == target && !running
      ensures LooksStand() && physical.log == old(physical.log) + [Transition]
      ensures physical.releasePending && physical.capture.Contents() == []
      ensures old(running) ==> runs != [] && runs[..|runs| - 1] == old(runs)
      ensures !old(running) ==> runs == old(runs)
      ensures wire.offered == old(wire.offered) + AbortFrames(old(running), runs) + [ModeChanged(target, reason)]
    {
      hide Inv, Stoppable, Stopped, Cleared, PhysicalPath.Valid;
      BoundaryIsStoppable();
      ClearReleaseAndQueue();
      Enter(target, reason);
    }

    /** pico_mode_state_handle_mode_set: repeated requests and rejected ones disturb nothing but the wire. */
    method HandleModeSet(target: byte)
      requires Inv()
      modifies this, queue, lateness.samples, wire, physical, physical.capture
      ensures Inv() && mode == ModeAfterSet(old(mode), target).0 && (old(CreditKept()) ==> CreditKept())
      ensures old(now) <= now
      ensures mode != old(mode) ==> Cleared() && physical.releasePending && physical.capture.Contents() == []
      ensures mode == old(mode) ==> unchanged(this, queue, lateness.samples, physical, physical.capture)
      ensures mode != old(mode) ==> physical.log == old(physical.log) + [Transition]
      ensures old(running) && !running ==> runs != []
      ensures wire.offered == old(wire.offered) + AbortFrames(old(running) && !running, runs)
                              + [ModeChanged(mode, ModeAfterSet(old(mode), target).1)]
    {
      hide Inv, Stoppable, PhysicalPath.Valid, LosesCredit, LastStart;
      BoundaryIsStoppable();
      if target > 2 {
        Acknowledge(InvalidTarget);
      } else if target == 0 {
        if mode != Pass {
          Leave(Pass, Okay);
        } else {
          Acknowledge(Okay);
        }
      } else if (target == 1 && mode == Record) || (target == 2 && mode == Armed) {
        Acknowledge(Okay);
      } else if mode == Pass {
        Leave(if target == 1 then Record else Armed, Okay);
      } else {
        Acknowledge(InvalidTransition);
      }
    }

    /** pico_mode_state_play_abort */
    method PlayAbort() returns (ok: bool)
      requires Inv()
      modifies this, queue, lateness.samples, wire, physical, physical.capture
      ensures Inv() && (ok <==> old(mode) == Armed || old(mode) == Playing) && (old(CreditKept()) ==> CreditKept())
      ensures old(now) <= now
      ensures ok ==> mode == Armed && Cleared() && physical.releasePending && physical.capture.Contents() == []
      ensures ok ==> physical.log == old(physical.log) + [Transition]
      ensures !ok ==> unchanged(this, queue, lateness.samples, physical, physical.capture)
      ensures old(running) ==> runs != []
      ensures wire.offered == old(wire.offered) + AbortFrames(old(running), runs)
                              + [ModeChanged(mode, if ok then Aborted else InvalidTransition)]
    {
      hide Inv, Stoppable, PhysicalPath.Valid, LosesCredit, LastStart;
      BoundaryIsStoppable();
      if mode != Armed && mode != Playing {
        Acknowledge(InvalidTransition);
        return false;
      }
      Leave(Armed, Aborted);
      return true;
    }

    /** enter_error: a fault in PASS or ERROR is only reported. */
    method EnterError(reason: Reason)
      requires Inv() && reason != Okay
      modifies this, queue, lateness.samples, wire, physical, physical.capture
      ensures Inv() && mode == if old(mode) == Pass then Pass else Error
      ensures !running && (old(running) || !old(flowControlFault) ==> !flowControlFault)
      ensures mode != old(mode) ==> Cleared() && physical.releasePending && physical.capture.Contents() == []
      ensures LooksStand() && (mode != old(mode) ==> physical.log == old(physical.log) + [Transition])
      ensures mode == old(mode) ==> unchanged(this, queue, lateness.samples, physical, physical.capture)
      ensures old(running) ==> runs != []
      ensures wire.offered == old(wire.offered) + AbortFrames(old(running), runs) + [ModeChanged(mode, reason)]
    {
      hide Inv, Stoppable, PhysicalPath.Valid, LosesCredit, LastStart;
      BoundaryIsStoppable();
      if mode != Pass && mode != Error {
        Leave(Error, reason);
      } else {
        Acknowledge(reason);
      }
    }

    // ---- pico/src/playback_scheduler.c ----

    /** send_buffer_status */
    method SendBufferStatus() returns (ok: bool)
      requires queue.Valid() && wire.Valid()
      modifies wire
      ensures wire.Valid()
      ensures wire.offered == old(wire.offered) + [BufferStatus(mode, |queue.Contents()|,
                CAPACITY - |queue.Contents()|)]
      ensures wire.accepted == old(wire.accepted)
                               + if ok then [BufferStatus(mode, |queue.Contents()|, CAPACITY - |queue.Contents()|)]
                                   else []
      ensures wire.digest == Extend(old(wire.digest), BufferStatus(mode, |queue.Contents()|,
                CAPACITY - |queue.Contents()|))
      ensures ok <==> !wire.LostCredit(|old(wire.offered)|)
    {
      hide LosesCredit, Wire.Valid;
      var queued := queue.count;
      var free := queue.FreeCapacity();
      LosesNewest(wire.room, wire.offered, BufferStatus(mode, queued, free));
      ok := wire.QueueFrame(BufferStatus(mode, queued, free));
    }

    /** playback_buffer_available: the fault is raised exactly when the grant is dropped; the main loop turns it into a
        protocol error after task() returns. */
    method PlaybackBufferAvailable() returns (ghost dropped: bool)
      requires queue.Valid() && wire.Valid()
      modifies wire, `flowControlFault
      ensures wire.Valid()
      ensures wire.offered == old(wire.offered) + [BufferStatus(mode, |queue.Contents()|,
                CAPACITY - |queue.Contents()|)]
      ensures wire.accepted == old(wire.accepted)
                               + if dropped then [] else [BufferStatus(mode, |queue.Contents()|,
                                   CAPACITY - |queue.Contents()|)]
      ensures wire.digest == Extend(old(wire.digest), BufferStatus(mode, |queue.Contents()|,
                CAPACITY - |queue.Contents()|))
      ensures flowControlFault == (old(flowControlFault) || dropped) && dropped == wire.LostCredit(|old(wire.offered)|)
    {
      hide LosesCredit, Wire.Valid;
      var ok := SendBufferStatus();
      dropped := !ok;
      if !ok {
        flowControlFault := true;
      }
    }

    /** playback_underrun: the fault is raised exactly when the notice is dropped. */
    method PlaybackUnderrun(elapsed: uint64, free: uint16) returns (ghost dropped: bool)
      requires wire.Valid()
      modifies wire, `flowControlFault
      ensures wire.Valid() && wire.offered == old(wire.offered) + [PlayUnderrun(elapsed, free)]
      ensures wire.accepted == old(wire.accepted) + if dropped then [] else [PlayUnderrun(elapsed, free)]
      ensures wire.digest == Extend(old(wire.digest), PlayUnderrun(elapsed, free))
      ensures flowControlFault == (old(flowControlFault) || dropped) && dropped == wire.LostCredit(|old(wire.offered)|)
    {
      hide LosesCredit, Wire.Valid;
      LosesNewest(wire.room, wire.offered, PlayUnderrun(elapsed, free));
      var ok := wire.QueueFrame(PlayUnderrun(elapsed, free));
      dropped := !ok;
      if !ok {
        flowControlFault := true;
      }
    }

    /** begin_underrun: one notice per contiguous empty interval. */
    method BeginUnderrun() returns (ghost dropped: bool)
      requires queue.Valid() && wire.Valid() && now < CLOCK_LIMIT
      requires forall i :: i !in alarmPool
      modifies wire, `waitingForEvent, `underrunActive, `underrunSince, `underrunCount, `flowControlFault, `now
      modifies `alarmPool, `alarmFired
      ensures wire.Valid() && old(now) <= now < CLOCK_LIMIT
      ensures waitingForEvent && underrunActive
      ensures flowControlFault == (old(flowControlFault) || dropped) && dropped == wire.LostCredit(|old(wire.offered)|)
      ensures LastStart(wire.offered) == LastStart(old(wire.offered))
      ensures (forall i :: i !in alarmPool) && alarmFired == old(alarmFired)
      ensures old(underrunActive) ==> underrunSince == old(underrunSince) && underrunCount == old(underrunCount)
                                      && wire.offered == old(wire.offered) && wire.digest == old(wire.digest)
      ensures !old(underrunActive) ==>
                && underrunSince == now && underrunCount == (old(underrunCount) + 1) % UINT32
                && (var m := PlayUnderrun(if now >= playbackStart then now - playbackStart
                    else 0, CAPACITY - |queue.Contents()|);
                    wire.offered == old(wire.offered) + [m] && wire.digest == Extend(old(wire.digest), m))
    {
      hide LosesCredit, LastStart, Wire.Valid, PlaybackQueue.Valid, PlaybackQueue.Contents;
      LosesNone(wire.room, wire.offered, []);
      ghost var before := wire.offered;
      waitingForEvent := true;
      dropped := false;
      if underrunActive {
        return;
      }
      var t := ReadClock();
      underrunActive := true;
      underrunSince := t;
      underrunCount := (underrunCount + 1) % UINT32;
      var elapsed := if t >= playbackStart then t - playbackStart else 0;
      var free := queue.FreeCapacity();
      dropped := PlaybackUnderrun(elapsed, free);
      LastStartSame(before, [PlayUnderrun(elapsed, free)]);
    }

    /** First step of arm_next: a stale alarm can neither stay pending nor leave its flag behind. */
    method CancelStale()
      requires now < CLOCK_LIMIT && (alarmArmed || !alarmFired)
      requires forall i :: i in alarmPool ==> alarmArmed && i == alarmId
      modifies `now, `alarmPool, `alarmArmed, `alarmFired
      ensures old(now) <= now < CLOCK_LIMIT
      ensures AlarmQuiet(alarmPool, alarmArmed, alarmFired)
    {
      Interrupts();
      if alarmArmed {
        alarmPool := alarmPool - {alarmId};
        alarmArmed := false;
        Interrupts();
        alarmFired := false;
      }
    }

    /** Last step of arm_next: aim at the deadline of the new head. */
    method ArmHead(event: Event)
      requires now < CLOCK_LIMIT && AlarmQuiet(alarmPool, alarmArmed, alarmFired)
      modifies `waitingForEvent, `underrunActive, `nextDeadline, `now, `alarmPool, `alarmFired, `alarmId, `alarmArmed
      ensures old(now) <= now < CLOCK_LIMIT && !waitingForEvent && !underrunActive
      ensures nextDeadline == Deadline(playbackStart, event.offset)
      ensures AlarmSafe(alarmPool, alarmArmed, alarmId, alarmFired, nextDeadline, now)
    {
      waitingForEvent := false;
      underrunActive := false;
      nextDeadline := Deadline(playbackStart, event.offset);
      var t := ReadClock();
      if t < nextDeadline {
        var id := AddAlarmAt(nextDeadline);
        if id > 0 {
          alarmId := id;
          alarmArmed := true;
        }
      }
    }

    /** The events of the run are `events`: those pushed so far while it lasts, those it was pushed once it has
        drained. */
    ghost predicate Fed(events: seq<Event>)
      reads `running, `pushed, `runs
    {
      if running then pushed == events
      else runs != [] && runs[|runs| - 1].finished && runs[|runs| - 1].history.pushed == events
    }

    /** A run in progress whose head is about to be looked at. */
    ghost predicate Playable()
      reads this, queue, queue.events, lateness, lateness.samples
      reads wire, physical, physical.capture, physical.capture.events
    {
      && Parts() && Clock() && Inputs() && Conserved() && Measured() && Waiting() && Reported()
      && running && mode == Playing
    }

    /** arm_next may be called with the alarm of the previous head still armed. */
    ghost predicate Armable()
      reads `alarmPool, `alarmArmed, `alarmId, `alarmFired
    {
      && (forall i :: i in alarmPool ==> alarmArmed && i == alarmId)
      && (alarmArmed || !alarmFired)
    }

    /** The books of one look at the queue. */
    ghost method NoteLook(empty: bool)
      requires Waiting() && running
      modifies `observed, `looked, `rise
      ensures observed == old(observed) + [empty] && |looked| == |observed| && Ordered(looked)
                && looked[|looked| - 1] == now
      ensures Intervals(observed, rise, empty)
      ensures Rises(observed) == Rises(old(observed)) + (if empty && !underrunActive then 1 else 0)
      ensures empty ==> looked[rise] <= if underrunActive then underrunSince else now
    {
      hide Intervals, Ordered, Rises;
      if underrunActive { IntervalsBounds(observed, rise, true); }
      IntervalsStep(observed, rise, underrunActive, empty);
      OrderedStep(looked, now);
      rise := if underrunActive then rise else |observed|;
      observed, looked := observed + [empty], looked + [now];
    }

    /** The non-empty branch of arm_next. */
    method ArmFilled(event: Event)
      requires Playable() && AlarmQuiet(alarmPool, alarmArmed, alarmFired)
      requires queue.Contents() != [] && event == queue.Contents()[0]
      modifies `waitingForEvent, `underrunActive, `nextDeadline, `now, `alarmPool, `alarmFired, `alarmId
      modifies `alarmArmed, `observed, `looked, `rise
      ensures Inv() && running && !waitingForEvent && old(now) <= now
    {
      hide Parts, Inputs, Conserved, GoodRuns, Outcomes, LatenessLog.Tracks, Intervals, Ordered, Rises;
      NoteLook(false);
      ArmHead(event);
    }

    /** The open, empty branch of arm_next. */
    method Starve() returns (ghost dropped: bool)
      requires Playable() && AlarmQuiet(alarmPool, alarmArmed, alarmFired)
      requires queue.Contents() == [] && !sequenceEnded
      modifies wire, `waitingForEvent, `underrunActive, `underrunSince, `underrunCount, `flowControlFault
      modifies `now, `alarmPool, `alarmFired, `observed, `looked, `rise
      ensures Inv() && running && waitingForEvent && old(now) <= now
      ensures old(underrunActive) ==> underrunSince == old(underrunSince)
      ensures flowControlFault == (old(flowControlFault) || dropped) && dropped == wire.LostCredit(|old(wire.offered)|)
      ensures wire.offered == old(wire.offered) + if old(underrunActive) then []
                else [UnderrunNotice(underrunSince, playbackStart)]
      ensures !old(underrunActive) ==>
                && playbackStart <= underrunSince
                && wire.offered == old(wire.offered) + [PlayUnderrun(underrunSince - playbackStart, CAPACITY)]
      ensures LastStart(wire.offered) == LastStart(old(wire.offered))
    {
      hide LosesCredit, LastStart, Timely, PhysicalPath.Valid, Conserved, GoodRuns, Outcomes, LatenessLog.Tracks;
      hide Latenesses, Intervals, Ordered, Rises, PlaybackQueue.Valid, PlaybackQueue.Contents, LatenessLog.Valid;
      hide Wire.Valid;
      CountStep(Rises(observed));
      NoteLook(true);
      ghost var was := now;
      dropped := BeginUnderrun();
      TimelyLater(physical.Captures(), was, now);
      assert Reported();
      assert Measured();
    }

    lemma {:induction false} PlayableIsEnding()
      requires Playable() && AlarmQuiet(alarmPool, alarmArmed, alarmFired)
      ensures Ending()
    {
      hide Conserved, Measured, PhysicalPath.Valid, GoodRuns, Outcomes;
    }

    lemma {:induction false} PlayableFacts()
      requires Playable()
      ensures queue.Valid() && wire.Valid() && running && mode == Playing && now < CLOCK_LIMIT
      ensures AllOnTime(playbackStart, sent) && pushed == Events(sent) + queue.Contents() && wire.digest.phase == Live
    {
      hide Inputs, Measured, Waiting, GoodRuns, Outcomes, AllOnTime, Events;
    }

    /** The first step of arm_next leaves a run playable, with nothing armed. */
    method Disarm()
      requires Playable() && Armable()
      modifies `now, `alarmPool, `alarmArmed, `alarmFired
      ensures Playable() && AlarmQuiet(alarmPool, alarmArmed, alarmFired) && old(now) <= now
    {
      hide Parts, Inputs, Conserved, Measured, Reported, AlarmQuiet, Intervals, Ordered;
      CancelStale();
    }

    /** The ended, empty branch of arm_next. */
    method DrainRun()
      requires Playable() && AlarmQuiet(alarmPool, alarmArmed, alarmFired)
      requires queue.Valid() && queue.Contents() == [] && sequenceEnded
      modifies this, queue, lateness.samples, wire, physical, physical.capture
      ensures Inv() && Cleared() && mode == Armed && !running && Fed(old(pushed)) && old(now) <= now
      ensures runs != [] && runs[..|runs| - 1] == old(runs) && wire.offered == old(wire.offered) + DrainFrames(runs)
      ensures !wire.LostCredit(|old(wire.offered)|) && LastStart(wire.offered) == LastStart(old(wire.offered))
    {
      hide Inv, Ending, Playable, AlarmQuiet, PlaybackQueue.Valid, PlaybackQueue.Contents, LosesCredit, LastStart;
      ghost var before := wire.offered;
      PlayableIsEnding();
      Finish(Finished);
      LosesNone(wire.room, before, DrainFrames(runs));
      LastStartSame(before, DrainFrames(runs));
    }

    /** arm_next: finish a drained sequence, wait on an empty open one, otherwise aim at the head. */
    method ArmNext() returns (armed: bool, ghost dropped: bool)
      requires Playable() && Armable()
      modifies this, queue, lateness.samples, wire, physical, physical.capture
      ensures Inv() && old(now) <= now && (running ==> playbackStart == old(playbackStart) && runs == old(runs))
      ensures armed <==> old(queue.Contents()) != []
      ensures armed ==> running && !waitingForEvent && wire.offered == old(wire.offered)
      ensures dropped ==> !armed && running && !sequenceEnded
      ensures dropped == wire.LostCredit(|old(wire.offered)|) && LastStart(wire.offered) == LastStart(old(wire.offered))
      ensures if running then flowControlFault == (old(flowControlFault) || dropped) else !flowControlFault
      ensures running ==> queue.Contents() == old(queue.Contents()) && sequenceEnded == old(sequenceEnded)
      ensures !armed && old(sequenceEnded) ==> mode == Armed && !running && Cleared()
      ensures !armed && old(sequenceEnded) ==> runs != [] && runs[..|runs| - 1] == old(runs)
      ensures Fed(old(pushed))
      ensures !armed && old(sequenceEnded) ==> wire.offered == old(wire.offered) + DrainFrames(runs)
      ensures queue.Valid() && (!armed ==> queue.Contents() == [])
      ensures !armed && !old(sequenceEnded) ==> running && waitingForEvent
      ensures !armed && !old(sequenceEnded) ==>
                wire.offered == old(wire.offered) + if old(underrunActive) then []
                    else [UnderrunNotice(underrunSince, playbackStart)]
    {
      hide Inv, Ending, Playable, Armable, AlarmQuiet, PlaybackQueue.Valid, PlaybackQueue.Contents, LosesCredit;
      hide LastStart;
      LosesNone(wire.room, wire.offered, []);
      Disarm();
      PlayableFacts();
      dropped := false;
      var some, event := queue.Peek();
      if !some {
        if sequenceEnded {
          DrainRun();
        } else {
          dropped := Starve();
        }
        armed := false;
      } else {
        ArmFilled(event);
        armed := true;
      }
    }

    /** task(), once HID took the head: pop it and, if an open queue was full, grant credit again. */
    method PopHead(event: Event) returns (ghost dropped: bool)
      requires queue.Valid() && wire.Valid() && wire.digest.phase == Live && mode == Playing
      requires queue.Contents() != [] && event == queue.Contents()[0]
      modifies queue, wire, `flowControlFault
      ensures queue.Valid() && wire.Valid() && wire.digest == old(wire.digest)
      ensures old(queue.Contents()) == [event] + queue.Contents()
      ensures flowControlFault == (old(flowControlFault) || dropped) && (dropped ==> !sequenceEnded)
      ensures dropped == wire.LostCredit(|old(wire.offered)|)
      ensures wire.offered == old(wire.offered) + GrantFrames(|old(queue.Contents())|, sequenceEnded)
    {
      hide LosesCredit, Wire.Valid;
      LosesNone(wire.room, wire.offered, []);
      dropped := false;
      var free := queue.FreeCapacity();
      var queueWasFull := free == 0;
      var _, _ := queue.Pop();
      if queueWasFull && !sequenceEnded {
        dropped := PlaybackBufferAvailable();
      }
    }

    /** A run in progress whose head has left the queue but is not in the books yet. */
    ghost predicate Accounting()
      reads this, queue, lateness, lateness.samples, wire, physical, physical.capture, physical.capture.events
    {
      && Parts() && Clock() && Inputs() && Measured() && Waiting() && Reported()
      && running && mode == Playing
    }

    /** The pop disturbs nothing but the queue and the wire. */
    method PopPlaying(event: Event) returns (ghost dropped: bool)
      requires Playable() && queue.Contents() != [] && event == queue.Contents()[0]
      modifies queue, wire, `flowControlFault
      ensures Accounting() && old(queue.Contents()) == [event] + queue.Contents()
      ensures flowControlFault == (old(flowControlFault) || dropped) && (dropped ==> !sequenceEnded)
      ensures dropped == wire.LostCredit(|old(wire.offered)|)
      ensures wire.offered == old(wire.offered) + GrantFrames(|old(queue.Contents())|, sequenceEnded)
    {
      hide Conserved, Measured, Waiting, PhysicalPath.Valid, GoodRuns, Outcomes, GrantFrames, LosesCredit;
      hide Wire.Valid, LatenessLog.Valid, PlaybackQueue.Valid, PlaybackQueue.Contents;
      dropped := PopHead(event);
    }

    /** task(), after the pop: sample the clock and record the clamped lateness of the report just accepted. */
    method RecordDispatch(event: Event, ghost sentAt: nat, ghost before: seq<Event>)
      requires queue.Valid() && Clock() && Measured() && AllOnTime(playbackStart, sent)
      requires nextDeadline == Deadline(playbackStart, event.offset) <= sentAt <= now
      requires before == [event] + queue.Contents() && pushed == Events(sent) + before
      modifies lateness, lateness.samples, `now, `alarmPool, `alarmFired, `sent
      ensures old(now) <= now && now < CLOCK_LIMIT && Measured() && Conserved()
      ensures sent == old(sent) + [Dispatch(event, sentAt, now)]
      ensures old(Armable()) ==> Armable()
    {
      hide LatenessLog.Tracks, PlaybackQueue.Contents, PlaybackQueue.Valid, AllOnTime, Events, Latenesses, Rises;
      var dispatchTime := ReadClock();
      var late := ToInt64(dispatchTime) - ToInt64(nextDeadline);
      if late > INT32_MAX {
        late := INT32_MAX;
      } else if late < -INT32_MAX - 1 {
        late := -INT32_MAX - 1;
      }
      lateness.Record(late);
      SentStep(playbackStart, sent, Dispatch(event, sentAt, now), pushed, before, queue.Contents());
      sent := sent + [Dispatch(event, sentAt, now)];
    }

    /** The books make the run playable again. */
    method RecordPlaying(event: Event, ghost sentAt: nat, ghost before: seq<Event>)
      requires Accounting() && Armable() && AllOnTime(playbackStart, sent)
      requires nextDeadline == Deadline(playbackStart, event.offset) <= sentAt <= now
      requires before == [event] + queue.Contents() && pushed == Events(sent) + before
      modifies lateness, lateness.samples, `now, `alarmPool, `alarmFired, `sent
      ensures Playable() && Armable() && old(now) <= now
      ensures sent == old(sent) + [Dispatch(event, sentAt, now)]
    {
      hide Conserved, Inputs, Reported, Armable, AllOnTime, Events, Intervals, Ordered, Rises, Latenesses;
      hide Wire.Valid, PlaybackQueue.Valid, PlaybackQueue.Contents;
      RecordDispatch(event, sentAt, before);
    }

    /** task(): everything between an accepted report and the look at the next head. */
    method AcceptHead(event: Event) returns (ghost dropped: bool)
      requires Playable() && Armable() && now >= nextDeadline
      requires queue.Contents() != [] && event == queue.Contents()[0]
                 && nextDeadline == Deadline(playbackStart, event.offset)
      modifies queue, lateness, lateness.samples, wire, `flowControlFault, `now, `alarmPool, `alarmFired, `sent
      ensures Playable() && Armable() && old(now) <= now
      ensures flowControlFault == (old(flowControlFault) || dropped) && (dropped ==> !sequenceEnded)
      ensures dropped == wire.LostCredit(|old(wire.offered)|)
      ensures old(queue.Contents()) == [event] + queue.Contents()
      ensures sent == old(sent) + [Dispatch(event, old(now), now)]
      ensures wire.offered == old(wire.offered) + GrantFrames(|old(queue.Contents())|, sequenceEnded)
    {
      hide Playable, Accounting, Armable, AllOnTime, Events, GrantFrames, PlaybackQueue.Valid;
      hide PlaybackQueue.Contents, LosesCredit;
      PlayableFacts();
      ghost var before, sentAt := queue.Contents(), now;
      dropped := PopPlaying(event);
      RecordPlaying(event, sentAt, before);
    }

    lemma {:induction false} BoundaryIsPlayable()
      requires Inv() && running
      ensures Playable() && queue.Valid() && waitingForEvent == underrunActive
      ensures waitingForEvent ==> Armable()
      ensures !waitingForEvent ==>
                queue.Contents() != [] && nextDeadline == Deadline(playbackStart, queue.Contents()[0].offset)
      ensures !waitingForEvent ==> AlarmSafe(alarmPool, alarmArmed, alarmId, alarmFired, nextDeadline, now)
    {
      hide Conserved, Measured, PhysicalPath.Valid, GoodRuns, Outcomes, Intervals;
    }

    /** The due test of task(): take the flag atomically, otherwise compare the clock. A flag that was set
        proves the head is due; the flag of any other deadline cannot be seen here. */
    method TakeDue() returns (due: bool)
      requires now < CLOCK_LIMIT && AlarmSafe(alarmPool, alarmArmed, alarmId, alarmFired, nextDeadline, now)
      modifies `now, `alarmPool, `alarmFired
      ensures old(now) <= now < CLOCK_LIMIT && Armable()
      ensures AlarmSafe(alarmPool, alarmArmed, alarmId, alarmFired, nextDeadline, now)
      ensures due ==> nextDeadline <= now
      ensures !due ==> old(now) < nextDeadline
    {
      Interrupts();
      var fired := alarmFired;
      alarmFired := false;
      if !fired {
        var t := ReadClock();
        return t >= nextDeadline;
      }
      return true;
    }

    method CheckDue() returns (due: bool)
      requires Inv() && running && !waitingForEvent
      modifies `now, `alarmPool, `alarmFired
      ensures Inv() && Armable() && old(now) <= now
      ensures due ==> nextDeadline <= now
      ensures !due ==> old(now) < nextDeadline
    {
      hide Parts, Inputs, Conserved, Measured, HeadArmed, Reported, AlarmSafe, AlarmQuiet, Intervals;
      due := TakeDue();
    }

    /** One round of the loop in task() with a head to send; `takes` says whether HID takes it. */
    method DispatchRound(takes: bool) returns (again: bool, refused: bool, ghost dropped: bool)
      requires Inv() && running && !waitingForEvent
      modifies this, queue, lateness, lateness.samples, wire, physical, physical.capture
      ensures (refused ==> !takes && !again) && (again || !running || waitingForEvent ==> takes)
      ensures Inv() && old(now) <= now
      ensures queue.Valid() && (running && waitingForEvent ==> queue.Contents() == [])
      ensures again ==> running && !waitingForEvent && |queue.Contents()| < |old(queue.Contents())|
      ensures !again && running && !waitingForEvent ==> refused || old(now) < nextDeadline
      ensures dropped ==> running && !sequenceEnded
      ensures old(wire.offered) <= wire.offered && dropped == wire.LostCredit(|old(wire.offered)|)
      ensures LastStart(wire.offered) == LastStart(old(wire.offered))
      ensures if running then flowControlFault == (old(flowControlFault) || dropped) else !flowControlFault
      ensures !again && running && !waitingForEvent ==> queue.Contents() == old(queue.Contents()) && sent == old(sent)
      ensures !again && running && !waitingForEvent ==>
                wire.offered == old(wire.offered) && sequenceEnded == old(sequenceEnded)
      ensures again || !running || waitingForEvent ==>
                && old(queue.Contents()) != [] && (again <==> |old(queue.Contents())| > 1)
                && (running ==> queue.Contents() == old(queue.Contents())[1..] && sequenceEnded == old(sequenceEnded))
                && (!again ==> running == !old(sequenceEnded) && queue.Contents() == [])
      ensures Fed(old(pushed))
      ensures again ==> wire.offered == old(wire.offered) + GrantFrames(|old(queue.Contents())|, sequenceEnded)
      ensures !again && !running ==>
                runs != [] && mode == Armed && wire.offered == old(wire.offered) + DrainFrames(runs)
      ensures !again && running && waitingForEvent ==>
                wire.offered == old(wire.offered) + GrantFrames(|old(queue.Contents())|, sequenceEnded)
                                + [UnderrunNotice(underrunSince, playbackStart)]
    {
      hide Inv, Playable, Armable, PlaybackQueue.Contents, PlaybackQueue.Valid, LosesCredit, LastStart;
      again, refused, dropped := false, false, false;
      LosesNone(wire.room, wire.offered, []);
      var due := CheckDue();
      BoundaryIsPlayable();
      if !due {
        return;
      }
      var some, event := queue.Peek();
      if !some {
        // The second empty-queue test of task() cannot succeed: a head that is armed is still there.
        assert false;
      }
      if !takes {
        refused := true;
        return;
      }
      ghost var ungranted := AcceptHead(event);
      ghost var granted := wire.offered;
      LastStartSame(old(wire.offered), GrantFrames(|old(queue.Contents())|, old(sequenceEnded)));
      again, dropped := ArmNext();
      dropped := dropped || ungranted;
      LosesMore(wire.room, granted, wire.offered[|granted|..], |old(wire.offered)|);
      assert wire.offered == granted + wire.offered[|granted|..];
    }

    /** pico_playback_scheduler_task: everything that was due when it was called goes out, unless HID, which takes up to
        `takes` events, refuses. */
    method Task(takes: nat) returns (refused: bool, ghost dropped: bool)
      requires Inv() && queue.Valid()
      modifies this, queue, lateness, lateness.samples, wire, physical, physical.capture
      ensures Inv() && queue.Valid() && old(now) <= now
      ensures mode == old(mode) || (old(mode) == Playing && mode == Armed)
      ensures running ==> |queue.Contents()| <= |old(queue.Contents())| <= |queue.Contents()| + takes
      ensures refused ==> running && |old(queue.Contents())| == |queue.Contents()| + takes
      ensures running && !waitingForEvent && !refused ==> old(now) < nextDeadline
      ensures running && waitingForEvent ==> queue.Contents() == []
      ensures !old(running) ==> !dropped && unchanged(this, queue, wire, physical, physical.capture)
      ensures dropped ==> running
      ensures old(wire.offered) <= wire.offered && dropped == wire.LostCredit(|old(wire.offered)|)
      ensures if running then flowControlFault == (old(flowControlFault) || dropped) else old(running) ==>
                !flowControlFault
      ensures old(CreditKept()) ==> CreditKept()
    {
      hide Inv, Playable, Armable, Stoppable, PlaybackQueue.Contents, LosesCredit, LastStart;
      refused, dropped := false, false;
      ghost var offered := wire.offered;
      LosesNone(wire.room, wire.offered, []);
      BoundaryIsStoppable();
      if !running {
        return;
      }
      BoundaryIsPlayable();
      if waitingForEvent {
        var ready: bool;
        ready, dropped := ArmNext();
        BoundaryIsStoppable();
        if !ready {
          KeptOn(offered);
          return;
        }
      }
      var again, left := true, takes;
      while again
        invariant Inv() && queue.Valid() && old(now) <= now
        invariant running ==> |queue.Contents()| + takes == |old(queue.Contents())| + left
        invariant 0 <= left <= takes && (refused ==> !again && running && left == 0)
        invariant running || mode == Armed
        invariant again ==> running && !waitingForEvent
        invariant !again && running && !waitingForEvent ==> refused || old(now) < nextDeadline
        invariant queue.Valid() && (running && waitingForEvent ==> queue.Contents() == [])
        invariant dropped ==> running && !sequenceEnded
        invariant LastStart(wire.offered) == LastStart(old(wire.offered))
        invariant old(wire.offered) <= wire.offered && dropped == wire.LostCredit(|old(wire.offered)|)
        invariant if running then flowControlFault == (old(flowControlFault) || dropped) else !flowControlFault
        decreases again, |queue.Contents()|
      {
        var no: bool;
        ghost var lost: bool;
        ghost var before := wire.offered;
        again, no, lost := DispatchRound(left > 0);
        LosesMore(wire.room, before, wire.offered[|before|..], |old(wire.offered)|);
        assert wire.offered == before + wire.offered[|before|..];
        refused := no;
        dropped := dropped || lost;
        if again || !running || waitingForEvent { left := left - 1; }
      }
      KeptOn(offered);
      BoundaryIsStoppable();
    }

    /** PLAY_STARTED is out, nothing runs yet. */
    ghost predicate Startable(epoch: nat)
      reads this, queue, queue.events, lateness, wire, physical, physical.capture, physical.capture.events
    {
      && Stopped() && wire.digest.phase == Live && wire.digest.underruns == 0
      && !waitingForEvent && !underrunActive
      && mode == Playing && Conserved() && sent == [] && epoch <= now
    }

    lemma {:induction false} StartableFacts(epoch: nat)
      requires Startable(epoch)
      ensures Parts() && Inputs() && !running && epoch <= now < CLOCK_LIMIT && mode == Playing && sent == []
      ensures Timely(physical.Captures(), now)
      ensures queue.Valid() && lateness.Valid() && wire.Valid()
      ensures AlarmQuiet(alarmPool, alarmArmed, alarmFired)
      ensures GoodRuns(runs) && wire.digest.outcomes == Outcomes(runs) && wire.digest.phase == Live
                && wire.digest.underruns == 0
      ensures pushed == Events(sent) + queue.Contents() && AllOnTime(epoch, sent)
    {
      hide Inputs, GoodRuns, Outcomes;
    }

    /** The metric assignments of pico_playback_scheduler_start. */
    method ResetMetrics()
      requires lateness.Valid() && sent == []
      modifies lateness, `underrunCount, `observed, `looked, `rise
      ensures lateness.Valid() && Measured() && Intervals(observed, rise, false) && Rises(observed) == 0
      ensures observed == [] && looked == []
    {
      lateness.Reset();
      underrunCount, observed, looked, rise := 0, [], [], 0;
    }

    /** The assignments of pico_playback_scheduler_start. */
    method ResetRun(epoch: nat)
      requires lateness.Valid() && sent == []
      modifies lateness, `running, `waitingForEvent, `underrunActive, `playbackStart, `nextDeadline
      modifies `alarmArmed, `alarmFired, `underrunCount, `observed, `looked, `rise
      ensures running && !waitingForEvent && !underrunActive && playbackStart == epoch && nextDeadline == epoch
      ensures !alarmArmed && !alarmFired
      ensures lateness.Valid() && Measured() && Intervals(observed, rise, false) && Rises(observed) == 0
      ensures observed == [] && looked == []
    {
      hide Measured, Intervals, Rises, LatenessLog.Valid;
      running, waitingForEvent, underrunActive := true, false, false;
      playbackStart, nextDeadline := epoch, epoch;
      alarmArmed, alarmFired := false, false;
      ResetMetrics();
    }

    /** A new run over the loaded queue, with clean statistics and nothing armed. */
    method BeginRun(epoch: nat)
      requires Startable(epoch)
      modifies lateness, `running, `waitingForEvent, `underrunActive, `playbackStart, `nextDeadline
      modifies `alarmArmed, `alarmFired, `underrunCount, `observed, `looked, `rise
      ensures Playable() && AlarmQuiet(alarmPool, alarmArmed, alarmFired) && playbackStart == epoch && !underrunActive
    {
      hide PhysicalPath.Valid, GoodRuns, Outcomes, PlaybackQueue.Valid, PlaybackQueue.Contents;
      hide LatenessLog.Tracks, LatenessLog.Valid, Wire.Valid, Inputs, Measured, Intervals, Rises, Startable, Events;
      hide AllOnTime;
      StartableFacts(epoch);
      ResetRun(epoch);
      assert Waiting();
      assert Reported();
      assert Conserved();
    }

    /** pico_playback_scheduler_start: a no-op while running, otherwise a fresh run over the loaded queue. */
    method Start(epoch: nat) returns (ghost dropped: bool)
      requires if running then Inv() else Startable(epoch)
      modifies this, queue, lateness, lateness.samples, wire, physical, physical.capture
      ensures Inv()
      ensures old(running) ==> unchanged(this, queue, lateness, lateness.samples, wire, physical, physical.capture)
      ensures !old(running) && running ==> playbackStart == epoch && runs == old(runs)
      ensures old(now) <= now
      ensures !old(running) ==> (running <==> |old(queue.Contents())| > 0 || !old(sequenceEnded))
      ensures !old(running) ==> Fed(old(pushed))
      ensures !old(running) && !running ==> runs != [] && runs[..|runs| - 1] == old(runs)
      ensures !old(running) ==> mode == if running then Playing else Armed
      ensures !old(running) && running ==>
                queue.Contents() == old(queue.Contents()) && sequenceEnded == old(sequenceEnded)
      ensures !old(running) && running ==> waitingForEvent == (|old(queue.Contents())| == 0)
      ensures !old(running) && !running ==> queue.Contents() == []
      ensures dropped ==> !old(running) && running && |old(queue.Contents())| == 0
      ensures dropped == wire.LostCredit(|old(wire.offered)|)
      ensures !old(running) ==>
                if running then flowControlFault == (old(flowControlFault) || dropped) else !flowControlFault
      ensures !old(running) ==>
                wire.offered == old(wire.offered) + StartFrames(|old(queue.Contents())|, running, underrunSince,
                    epoch, runs)
    {
      hide Inv, Startable, PlaybackQueue.Contents, Playable, Stoppable, LosesCredit;
      LosesNone(wire.room, wire.offered, []);
      dropped := false;
      if running {
        return;
      }
      BeginRun(epoch);
      ghost var armed: bool;
      armed, dropped := ArmNext();
      BoundaryIsStoppable();
    }

    // ---- pico/src/main.c: commands ----

    /** pico_mode_state_play_start: keeps the loaded queue, which is what the scheduler will drain. */
    method PlayStart() returns (ok: bool)
      requires Inv()
      modifies `mode, wire, physical, physical.capture
      ensures ok <==> old(mode) == Armed
      ensures !ok ==> Inv() && unchanged(this, physical, physical.capture)
      ensures ok ==> Stopped() && mode == Playing && wire.digest.phase == Starting
      ensures ok ==> physical.releasePending && physical.capture.Contents() == []
      ensures ok ==> physical.log == old(physical.log) + [Transition]
      ensures wire.offered == old(wire.offered) + [ModeChanged(mode, if ok then Okay else InvalidTransition)]
    {
      hide Timely, Conserved, HeadArmed, Measured, PhysicalPath.Valid, GoodRuns, Outcomes, Waiting, Wire.Valid;
      hide PlaybackQueue.Valid, LatenessLog.Valid, SafeLog, MarksFit, KeyboardCapture.Contents;
      if mode != Armed {
        Acknowledge(InvalidTransition);
        return false;
      }
      ghost var before := physical.Captures();
      physical.ClearAndRelease();
      TimelyPrefix(physical.Captures(), before, now);
      mode := Playing;
      physical.NoteTransition();
      Notify(Okay);
      return true;
    }

    /** Sampling the clock at a boundary keeps it one. */
    method SampleClock() returns (t: nat)
      requires Inv()
      modifies `now, `alarmPool, `alarmFired
      ensures Inv() && t == now >= old(now) && now < CLOCK_LIMIT
    {
      hide Parts, Inputs, Conserved, Measured, HeadArmed, Reported, Intervals;
      t := ReadClock();
    }

    lemma {:induction false} IdleFacts()
      requires Inv() && mode != Playing
      ensures !running && Conserved() && sent == [] && !waitingForEvent && !underrunActive && now < CLOCK_LIMIT
                && queue.Valid()
      ensures wire.Valid() && wire.digest.phase == Idle
    {
      hide Conserved, PhysicalPath.Valid, GoodRuns, Outcomes;
    }

    /** PLAY_STARTED follows its MODE_CHANGED immediately. */
    method AnnounceStart(epoch: nat)
      requires Stopped() && mode == Playing && wire.digest.phase == Starting
      requires Conserved() && sent == [] && !waitingForEvent && !underrunActive && epoch <= now
      modifies wire
      ensures Startable(epoch) && wire.offered == old(wire.offered) + [PlayStarted(epoch)]
    {
      hide Timely, Conserved, PhysicalPath.Valid, GoodRuns, Outcomes, Wire.Valid, LatenessLog.Valid;
      hide PlaybackQueue.Valid, AlarmQuiet;
      var _ := wire.QueueFrame(PlayStarted(epoch));
    }

    lemma {:induction false} StartFramesPlain(queued: nat, live: bool, since: nat, epoch: nat, completed: seq<Run>)
      requires !live ==> completed != []
      ensures forall m :: m in StartFrames(queued, live, since, epoch, completed) ==> !m.PlayStarted?
    {
    }

    /** A run starts with a clean account of its credit: PLAY_STARTED itself carries none. */
    lemma {:induction false} FreshAccount(before: seq<Message>, epoch: nat, more: seq<Message>)
      requires wire.offered == before + [PlayStarted(epoch)] + more && forall m :: m in more ==> !m.PlayStarted?
      ensures wire.LostCredit(|before|) == wire.LostCredit(|before| + 1) == wire.LostCredit(LastStart(wire.offered))
    {
      LosesNone(wire.room, before, [PlayStarted(epoch)]);
      LosesMore(wire.room, before + [PlayStarted(epoch)], more, |before|);
      LastStartNew(before, PlayStarted(epoch), more);
    }

    /** PLAY_START, once accepted: PLAY_STARTED, then the scheduler. */
    method Launch(epoch: nat) returns (ghost dropped: bool)
      requires Stopped() && mode == Playing && wire.digest.phase == Starting && queue.Valid()
      requires Conserved() && sent == [] && !waitingForEvent && !underrunActive && epoch <= now
      modifies this, queue, lateness, lateness.samples, wire, physical, physical.capture
      ensures Inv() && Fed(old(pushed)) && (!running ==> runs != []) && old(now) <= now
      ensures dropped == wire.LostCredit(|old(wire.offered)|) == wire.LostCredit(LastStart(wire.offered))
      ensures dropped ==> running && |old(queue.Contents())| == 0
      ensures if running then flowControlFault == (old(flowControlFault) || dropped) else !flowControlFault
      ensures wire.offered == old(wire.offered) + [PlayStarted(epoch)]
                              + StartFrames(|old(queue.Contents())|, running, underrunSince, epoch, runs)
      ensures mode == if running then Playing else Armed
      ensures running ==> playbackStart == epoch && waitingForEvent == (|old(queue.Contents())| == 0)
      ensures running ==> queue.Contents() == old(queue.Contents()) && sequenceEnded == old(sequenceEnded)
      ensures !running ==> queue.Contents() == []
      ensures running <==> |old(queue.Contents())| > 0 || !old(sequenceEnded)
    {
      hide Inv, Startable, PlaybackQueue.Contents, Conserved, LosesCredit, LastStart, StartFrames, Fed, Parts;
      ghost var before, queued := wire.offered, |queue.Contents()|;
      AnnounceStart(epoch);
      dropped := Start(epoch);
      StartFramesPlain(queued, running, underrunSince, epoch, runs);
      FreshAccount(before, epoch, StartFrames(queued, running, underrunSince, epoch, runs));
    }

    /** MODE_CHANGED carries no credit, whatever follows it. */
    lemma {:induction false} AfterAnnouncement(before: seq<Message>, m: Message, more: seq<Message>)
      requires m.ModeChanged? && wire.offered == before + [m] + more
      ensures wire.LostCredit(|before|) == wire.LostCredit(|before| + 1)
    {
      LosesNone(wire.room, before, [m]);
      LosesMore(wire.room, before + [m], more, |before|);
    }

    /** PLAY_START in dispatch_command: one clock sample is both the epoch sent to Zero and the scheduler's. */
    method StartPlayback() returns (epoch: nat, ghost dropped: bool)
      requires Inv()
      modifies this, queue, lateness, lateness.samples, wire, physical, physical.capture
      ensures Inv() && old(now) <= now
      ensures old(mode) != Armed ==>
                mode == old(mode) && wire.offered == old(wire.offered) + [ModeChanged(mode, InvalidTransition)]
      ensures old(mode) != Armed ==>
                queue.Contents() == old(queue.Contents()) && sequenceEnded == old(sequenceEnded)
      ensures old(mode) != Armed ==> !dropped && flowControlFault == old(flowControlFault)
      ensures dropped == wire.LostCredit(|old(wire.offered)|) && (old(CreditKept()) ==> CreditKept())
      ensures dropped ==> running && |old(queue.Contents())| == 0
      ensures old(mode) == Armed ==>
                if running then flowControlFault == (old(flowControlFault) || dropped) else !flowControlFault
      ensures old(mode) == Armed ==> Fed(old(pushed))
      ensures old(mode) == Armed && !running ==> runs != []
      ensures old(mode) == Armed ==>
                wire.offered == old(wire.offered) + [ModeChanged(Playing, Okay), PlayStarted(epoch)]
                                + StartFrames(|old(queue.Contents())|, running, underrunSince, epoch, runs)
      ensures old(mode) == Armed ==> mode == if running then Playing else Armed
      ensures old(mode) == Armed && running ==> playbackStart == epoch
      ensures old(mode) == Armed && running ==>
                queue.Contents() == old(queue.Contents()) && sequenceEnded == old(sequenceEnded)
      ensures old(mode) == Armed && running ==> waitingForEvent == (|old(queue.Contents())| == 0)
      ensures old(mode) == Armed && !running ==> queue.Contents() == []
      ensures old(mode) == Armed ==> (running <==> |old(queue.Contents())| > 0 || !old(sequenceEnded))
    {
      hide Inv, Stopped, PlaybackQueue.Contents, PlaybackQueue.Valid, Conserved, LosesCredit, LastStart, StartFrames;
      hide Fed, Timely, PhysicalPath.Valid;
      dropped := false;
      BoundaryQueue();
      ghost var before, queued := wire.offered, |queue.Contents()|;
      epoch := SampleClock();
      if mode == Armed { IdleFacts(); }
      var ok := PlayStart();
      if ok {
        dropped := Launch(epoch);
        ghost var more := StartFrames(queued, running, underrunSince, epoch, runs);
        AfterAnnouncement(before, ModeChanged(Playing, Okay), [PlayStarted(epoch)] + more);
        assert wire.offered == before + [ModeChanged(Playing, Okay), PlayStarted(epoch)] + more;
      } else {
        LosesNone(wire.room, before, [ModeChanged(mode, InvalidTransition)]);
        if old(CreditKept()) { KeptOver(before, [ModeChanged(mode, InvalidTransition)]); }
      }
    }

    /** pico_playback_scheduler_mark_sequence_ended */
    method MarkSequenceEnded()
      modifies `sequenceEnded
      ensures sequenceEnded
    {
      sequenceEnded := true;
    }

    /** send_buffer_status as the acknowledgement of a queue command. */
    method AcknowledgeQueue() returns (ok: bool)
      requires Inv() && (mode == Armed || mode == Playing)
      modifies wire
      ensures Inv() && wire.offered == old(wire.offered) + [BufferStatus(mode, |queue.Contents()|,
                CAPACITY - |queue.Contents()|)]
      ensures wire.accepted == old(wire.accepted)
                               + if ok then [BufferStatus(mode, |queue.Contents()|, CAPACITY - |queue.Contents()|)]
                                   else []
      ensures (ok <==> !wire.LostCredit(|old(wire.offered)|)) && (ok && old(CreditKept()) ==> CreditKept())
    {
      hide LosesCredit, LastStart, Timely, Measured, PhysicalPath.Valid, GoodRuns, Outcomes, Intervals, Conserved;
      hide HeadArmed, Waiting;
      hide PlaybackQueue.Contents, Wire.Valid, PlaybackQueue.Valid, LatenessLog.Valid, AlarmSafe, AlarmQuiet, SafeLog;
      hide MarksFit, KeyboardCapture.Valid, KeyboardCapture.Contents;
      ghost var before := wire.offered;
      ok := SendBufferStatus();
      if ok && old(CreditKept()) { KeptOver(before, [BufferStatus(mode, |queue.Contents()|,
          CAPACITY - |queue.Contents()|)]); }
    }

    /** QUEUE_CLEAR, once allowed. */
    method OpenSequence() returns (ok: bool)
      requires Inv() && mode == Armed
      modifies queue, wire, `sequenceEnded, `waitingForEvent, `underrunActive, `pushed
      ensures Inv() && queue.Contents() == [] && pushed == [] && !sequenceEnded
      ensures wire.offered == old(wire.offered) + [BufferStatus(Armed, 0, CAPACITY)]
      ensures (ok <==> !wire.LostCredit(|old(wire.offered)|)) && (ok && old(CreditKept()) ==> CreditKept())
    {
      hide Inv, LosesCredit, LastStart;
      DiscardEvents();
      ok := AcknowledgeQueue();
    }

    method DiscardEvents()
      requires Inv() && mode == Armed
      modifies queue, `sequenceEnded, `waitingForEvent, `underrunActive, `pushed
      ensures Inv() && queue.Contents() == [] && pushed == [] && !sequenceEnded
    {
      hide Measured, Inputs, Reported, Intervals;
      queue.Clear();
      ResetSequence();
      pushed := [];
    }

    /** QUEUE_EVENT, once allowed: append, or leave the full queue alone. */
    method AppendEvent(offset: nat, report: Report) returns (pushedIt: bool)
      requires Inv() && QueueCommandAllowed(AddEvent(offset, report), mode)
      modifies queue, queue.events, `pushed
      ensures Inv() && (pushedIt <==> |old(queue.Contents())| < CAPACITY)
      ensures queue.Contents() == if pushedIt then old(queue.Contents()) + [Event(offset, report)]
                else old(queue.Contents())
      ensures pushed == if pushedIt then old(pushed) + [Event(offset, report)] else old(pushed)
    {
      hide Measured, Inputs, Reported, Waiting, Events, AllOnTime, AlarmSafe, AlarmQuiet, Alarms, Clock, Wire.Valid;
      hide LatenessLog.Valid, PlaybackQueue.Valid, PlaybackQueue.Contents;
      pushedIt := queue.Push(offset, report);
      if pushedIt {
        pushed := pushed + [Event(offset, report)];
        assert pushed == Events(sent) + queue.Contents();
      }
    }

    /** QUEUE_END, once allowed. */
    method CloseSequence() returns (ok: bool)
      requires Inv() && QueueCommandAllowed(EndQueue, mode)
      modifies wire, `sequenceEnded
      ensures Inv() && sequenceEnded
      ensures wire.offered == old(wire.offered) + (if mode == Armed then [PlayReady] else [])
                              + [BufferStatus(mode, |queue.Contents()|, CAPACITY - |queue.Contents()|)]
      ensures (ok <==> !wire.LostCredit(|old(wire.offered)|)) && (ok && old(CreditKept()) ==> CreditKept())
    {
      hide Inv, LosesCredit, LastStart, PlaybackQueue.Contents;
      ghost var before := wire.offered;
      ghost var ready := if mode == Armed then [Message.PlayReady] else [];
      AnnounceReady();
      LosesNone(wire.room, before, ready);
      ok := AcknowledgeQueue();
      LosesMore(wire.room, before + ready, wire.offered[|before + ready|..], |before|);
      assert wire.offered == before + ready + wire.offered[|before + ready|..];
    }

    method AnnounceReady()
      requires Inv()
      modifies wire, `sequenceEnded
      ensures Inv() && sequenceEnded
      ensures wire.offered == old(wire.offered) + (if mode == Armed then [PlayReady] else [])
                && (old(CreditKept()) ==> CreditKept())
    {
      hide LosesCredit, LastStart, Timely, Measured, PhysicalPath.Valid, GoodRuns, Outcomes, Intervals, Conserved;
      hide HeadArmed, Waiting;
      hide PlaybackQueue.Contents, Wire.Valid, PlaybackQueue.Valid, LatenessLog.Valid, AlarmSafe, AlarmQuiet, SafeLog;
      hide MarksFit, KeyboardCapture.Valid, KeyboardCapture.Contents;
      MarkSequenceEnded();
      if mode == Armed {
        var _ := wire.QueueFrame(PlayReady);
      }
    }

    lemma {:induction false} WireFacts()
      requires Inv()
      ensures wire.Valid() && wire.digest.records == physical.earlier + physical.recorded
    {
      hide Conserved, Measured, HeadArmed, PhysicalPath.Valid, GoodRuns, Outcomes, Wire.Valid;
    }

    lemma {:induction false} BoundaryQueue()
      requires Inv()
      ensures queue.Valid()
    {
      hide Conserved, Measured, PhysicalPath.Valid;
    }

    /** A transition adds no frame that carries credit. */
    lemma {:induction false} Aborting(before: seq<Message>, from: nat, wasRunning: bool, reason: Reason)
      requires from <= |before| && (wasRunning ==> runs != [])
      requires wire.offered == before + AbortFrames(wasRunning, runs) + [ModeChanged(mode, reason)]
      ensures wire.LostCredit(from) == LosesCredit(wire.room, before, from)
    {
      var more := AbortFrames(wasRunning, runs) + [ModeChanged(mode, reason)];
      assert wire.offered == before + more;
      LosesNone(wire.room, before, more);
      LosesMore(wire.room, before, more, from);
    }

    /** dispatch_queue_command: a command out of place is a protocol error; an allowed one is applied and acknowledged,
        and ends in ERROR exactly when the queue is full or the acknowledgement is dropped. */
    method DispatchQueueCommand(command: Command) returns (ghost dropped: bool)
      requires Inv() && queue.Valid() && (command.ClearQueue? || command.AddEvent? || command.EndQueue?)
      modifies this, queue, queue.events, lateness.samples, wire, physical, physical.capture
      ensures Inv() && queue.Valid() && (old(running) ==> running || runs != []) && old(now) <= now
      ensures !QueueCommandAllowed(command, old(mode)) ==> !dropped && mode == if old(mode) == Pass then Pass else Error
      ensures QueueCommandAllowed(command, old(mode)) ==>
                (mode == Error <==> dropped || Overfills(command, old(queue.Contents())))
                    && (mode != Error ==> mode == old(mode))
      ensures QueueCommandAllowed(command, old(mode)) && mode != Error ==>
                && queue.Contents() == QueueAfter(command, old(queue.Contents()))
                && pushed == QueueAfter(command, old(pushed))
                && sequenceEnded == (command.EndQueue? || (command.AddEvent? && old(sequenceEnded)))
                && flowControlFault == old(flowControlFault)
                && running == old(running) && (!command.ClearQueue? ==> waitingForEvent == old(waitingForEvent))
      ensures dropped ==> !Overfills(command, old(queue.Contents()))
      ensures dropped == wire.LostCredit(|old(wire.offered)|) && (old(CreditKept()) ==> CreditKept())
      ensures wire.offered == old(wire.offered)
              + (if QueueCommandAllowed(command, old(mode)) && !Overfills(command, old(queue.Contents()))
                 then QueueReplies(command, old(mode), |QueueAfter(command, old(queue.Contents()))|) else [])
              + (if QueueCommandAllowed(command, old(mode)) && mode != Error then []
                 else AbortFrames(old(running), runs) + [ModeChanged(mode, ProtocolError)])
    {
      hide Inv, PlaybackQueue.Contents, PlaybackQueue.Valid, Cleared, QueueReplies, QueueAfter, AbortFrames;
      hide LosesCredit, LastStart, Stoppable;
      BoundaryIsStoppable();
      ghost var before := wire.offered;
      if !QueueCommandAllowed(command, mode) {
        dropped := false;
        LosesNone(wire.room, before, []);
        EnterError(ProtocolError);
        Aborting(before, |before|, old(running), ProtocolError);
      } else {
        var applied: bool;
        applied, dropped := ApplyQueueCommand(command);
        if !applied {
          ghost var replied := wire.offered;
          assert running || (old(CreditKept()) ==> !flowControlFault);
          EnterError(ProtocolError);
          Aborting(replied, |before|, old(running), ProtocolError);
        }
      }
      BoundaryQueue();
    }

    /** An allowed queue command: what it does to the queue, what it replies, and whether it went through. */
    method ApplyQueueCommand(command: Command) returns (applied: bool, ghost dropped: bool)
      requires Inv() && queue.Valid() && QueueCommandAllowed(command, mode)
      modifies queue, queue.events, wire, `sequenceEnded, `waitingForEvent, `underrunActive, `pushed
      ensures Inv() && queue.Valid()
      ensures applied == (!dropped && !Overfills(command, old(queue.Contents())))
      ensures dropped ==> !Overfills(command, old(queue.Contents()))
      ensures dropped == wire.LostCredit(|old(wire.offered)|) && (applied && old(CreditKept()) ==> CreditKept())
      ensures applied ==>
                && queue.Contents() == QueueAfter(command, old(queue.Contents()))
                    && pushed == QueueAfter(command, old(pushed))
                && sequenceEnded == (command.EndQueue? || (command.AddEvent? && old(sequenceEnded)))
                && (!command.ClearQueue? ==> waitingForEvent == old(waitingForEvent))
      ensures wire.offered == old(wire.offered)
              + if Overfills(command, old(queue.Contents())) then []
                else QueueReplies(command, mode, |QueueAfter(command, old(queue.Contents()))|)
    {
      hide Inv, PlaybackQueue.Contents, Cleared, LosesCredit, LastStart;
      LosesNone(wire.room, wire.offered, []);
      dropped := false;
      if command.ClearQueue? {
        applied := OpenSequence();
        dropped := !applied;
      } else if command.AddEvent? {
        applied := AppendEvent(command.offset, command.report);
        if applied {
          applied := AcknowledgeQueue();
          dropped := !applied;
        }
      } else {
        applied := CloseSequence();
        dropped := !applied;
      }
      BoundaryQueue();
    }

    /** send_status; the four fault flags are whatever the transport counted. */
    method SendStatus(faults: seq<bool>)
      requires Inv() && |faults| == 4
      modifies wire
      ensures Inv() && wire.offered == old(wire.offered) + [PicoStatus(mode, faults)]
                && (old(CreditKept()) ==> CreditKept())
    {
      hide LosesCredit, LastStart, Timely, Measured, PhysicalPath.Valid, GoodRuns, Outcomes, Intervals, Conserved;
      hide HeadArmed, Waiting;
      hide PlaybackQueue.Contents, Wire.Valid, PlaybackQueue.Valid, LatenessLog.Valid, AlarmSafe, AlarmQuiet, SafeLog;
      hide MarksFit, KeyboardCapture.Valid, KeyboardCapture.Contents;
      ghost var before := wire.offered;
      LosesNone(wire.room, before, [PicoStatus(mode, faults)]);
      var _ := wire.QueueFrame(PicoStatus(mode, faults));
      if old(CreditKept()) { KeptOver(before, [PicoStatus(mode, faults)]); }
    }

    method SendPong()
      requires Inv()
      modifies wire
      ensures Inv() && wire.offered == old(wire.offered) + [Pong] && (old(CreditKept()) ==> CreditKept())
    {
      hide LosesCredit, LastStart, Timely, Measured, PhysicalPath.Valid, GoodRuns, Outcomes, Intervals, Conserved;
      hide HeadArmed, Waiting;
      hide PlaybackQueue.Contents, Wire.Valid, PlaybackQueue.Valid, LatenessLog.Valid, AlarmSafe, AlarmQuiet, SafeLog;
      hide MarksFit, KeyboardCapture.Valid, KeyboardCapture.Contents;
      ghost var before := wire.offered;
      LosesNone(wire.room, before, [Pong]);
      var _ := wire.QueueFrame(Pong);
      if old(CreditKept()) { KeptOver(before, [Pong]); }
    }

    /** dispatch_command: the mode and the exact frames of every command. */
    method DispatchCommand(command: Command) returns (ghost epoch: nat, ghost dropped: bool)
      requires Inv() && queue.Valid()
      modifies this, queue, queue.events, lateness, lateness.samples, wire, physical, physical.capture
      ensures Inv() && queue.Valid() && (old(CreditKept()) ==> CreditKept()) && old(now) <= now
      ensures command.StartPlay? || command.ClearQueue? || command.AddEvent? || command.EndQueue? ==>
                dropped == wire.LostCredit(|old(wire.offered)|)
      ensures old(running) && !running ==> runs != []
      ensures old(mode) == Armed && command.StartPlay? && !running ==> runs != []
      ensures command.SetMode? ==>
                && mode == ModeAfterSet(old(mode), command.target).0
                && wire.offered == old(wire.offered) + AbortFrames(old(running) && !running, runs)
                                   + [ModeChanged(mode, ModeAfterSet(old(mode), command.target).1)]
      ensures command.AbortPlay? ==>
                && mode == (if old(mode) == Playing then Armed else old(mode))
                && wire.offered == old(wire.offered) + AbortFrames(old(running) && !running, runs)
                                   + [ModeChanged(mode, if mode == Armed then Aborted else InvalidTransition)]
      ensures command.StartPlay? && old(mode) != Armed ==>
                mode == old(mode) && wire.offered == old(wire.offered) + [ModeChanged(mode, InvalidTransition)]
      ensures command.StartPlay? && old(mode) == Armed ==>
                && mode == (if running then Playing else Armed)
                && wire.offered == old(wire.offered) + [ModeChanged(Playing, Okay), PlayStarted(epoch)]
                                   + StartFrames(|old(queue.Contents())|, running, underrunSince, epoch, runs)
      ensures command.Ping? ==> unchanged(this, queue, physical) && wire.offered == old(wire.offered) + [Pong]
      ensures command.StatusRequest? ==>
                && unchanged(this, queue, physical)
                && exists faults :: |faults| == 4 && wire.offered == old(wire.offered) + [PicoStatus(mode, faults)]
      ensures command.ClearQueue? || command.AddEvent? || command.EndQueue? ==>
                if QueueCommandAllowed(command, old(mode))
                then mode == if dropped || Overfills(command, old(queue.Contents())) then Error else old(mode)
                else mode == if old(mode) == Pass then Pass else Error
      ensures command.SetMode? && mode != old(mode) ==> Cleared()
      ensures command.SetMode? && mode == old(mode) ==>
                queue.Contents() == old(queue.Contents()) && sequenceEnded == old(sequenceEnded)
      ensures command.AbortPlay? && mode == Armed ==> Cleared()
      ensures (command.AbortPlay? && mode != Armed) || (command.StartPlay? && old(mode) != Armed) ==>
                queue.Contents() == old(queue.Contents()) && sequenceEnded == old(sequenceEnded)
      ensures command.Ping? || command.StatusRequest? ==> queue.Contents() == old(queue.Contents())
      ensures command.StartPlay? && old(mode) == Armed ==>
                && (running <==> old(queue.Contents()) != [] || !old(sequenceEnded))
                && queue.Contents() == old(queue.Contents()) && (running ==> sequenceEnded == old(sequenceEnded))
      ensures (command.ClearQueue? || command.AddEvent? || command.EndQueue?) && mode != Error
              && QueueCommandAllowed(command, old(mode)) ==>
                && queue.Contents() == QueueAfter(command, old(queue.Contents()))
                && sequenceEnded == (command.EndQueue? || (command.AddEvent? && old(sequenceEnded)))
      ensures old(running) == (old(mode) == Playing) && running == (mode == Playing)
      ensures command.ClearQueue? || command.AddEvent? || command.EndQueue? ==>
                wire.offered == old(wire.offered)
                + (if QueueCommandAllowed(command, old(mode)) && !Overfills(command, old(queue.Contents()))
                   then QueueReplies(command, old(mode), |QueueAfter(command, old(queue.Contents()))|) else [])
                + (if QueueCommandAllowed(command, old(mode)) && mode != Error then []
                   else AbortFrames(old(running), runs) + [ModeChanged(mode, ProtocolError)])
    {
      hide Inv, CreditKept, LosesCredit, LastStart, PlaybackQueue.Contents, PlaybackQueue.Valid, Cleared, AbortFrames;
      hide StartFrames, QueueReplies, QueueAfter, Overfills, ModeAfterSet, Stoppable, Fed, QueueCommandAllowed;
      epoch, dropped := 0, false;
      BoundaryIsStoppable();
      if command.SetMode? {
        HandleModeSet(command.target);
      } else if command.StartPlay? {
        epoch, dropped := StartPlayback();
      } else if command.AbortPlay? {
        var _ := PlayAbort();
      } else if command.Ping? {
        SendPong();
      } else if command.StatusRequest? {
        var rxOverflow: bool, hardwareError: bool, invalidFrame: bool, txDropped: bool := *, *, *, *;
        SendStatus([rxOverflow, hardwareError, invalidFrame, txDropped]);
      } else {
        dropped := DispatchQueueCommand(command);
      }
      BoundaryQueue();
      BoundaryIsStoppable();
    }

    /** pico_playback_scheduler_watchdog_expired */
    predicate WatchdogExpired(t: nat)
      reads `underrunActive, `underrunSince
    {
      underrunActive && t >= underrunSince && t - underrunSince >= WATCHDOG_TIMEOUT
    }

    /** The watchdog has expired only if every look at the queue since the underrun began found it empty and open,
        and there was such a look when it began. */
    lemma {:induction false} WatchdogMeaning(t: nat)
      requires Inv() && t == now
      ensures WatchdogExpired(t) ==> running && EmptySince(underrunSince) && underrunSince + WATCHDOG_TIMEOUT <= t
    {
      if running && underrunActive {
        forall i | 0 <= i < rise
          ensures looked[i] <= underrunSince
        {
          OrderedAt(looked, i, rise);
        }
        assert looked[rise] <= underrunSince;
      }
      hide Measured, PhysicalPath.Valid, GoodRuns, Outcomes, Conserved, HeadArmed, PlaybackQueue.Contents;
    }

    /** The watchdog of the main loop. It fires only when every look at the queue since the underrun began
        found it empty and open, and never leaves a run in an underrun that has lasted the full timeout. */
    method CheckWatchdog() returns (ghost sampled: nat)
      requires Inv()
      modifies this, queue, lateness.samples, wire, physical, physical.capture
      ensures Inv() && sampled >= old(now) && (old(CreditKept()) ==> CreditKept())
      ensures mode == Playing ==> !(underrunActive && sampled - underrunSince >= WATCHDOG_TIMEOUT)
      ensures mode == old(mode) || mode == Error
      ensures !old(flowControlFault) ==> !flowControlFault
      ensures mode == old(mode) ==>
                && unchanged(queue, wire, physical, physical.capture) && running == old(running)
                && nextDeadline == old(nextDeadline)
                && waitingForEvent == old(waitingForEvent) && underrunActive == old(underrunActive)
                    && pushed == old(pushed)
                && sequenceEnded == old(sequenceEnded) && flowControlFault == old(flowControlFault) && runs == old(runs)
      ensures old(wire.offered) <= wire.offered && !wire.LostCredit(|old(wire.offered)|)
      ensures mode != old(mode) ==> EmptySince(underrunSince) && underrunSince + WATCHDOG_TIMEOUT <= now
      ensures mode != old(mode) ==>
                && old(mode) == Playing && old(underrunActive) && sampled - old(underrunSince) >= WATCHDOG_TIMEOUT
                && old(EmptySince(underrunSince))
    {
      hide Inv, LosesCredit, LastStart, EmptySince, AbortFrames, Stoppable;
      sampled := now;
      ghost var before := wire.offered;
      LosesNone(wire.room, before, []);
      BoundaryIsStoppable();
      if mode == Playing {
        var t := SampleClock();
        sampled := t;
        WatchdogMeaning(t);
        if WatchdogExpired(t) {
          EnterError(Underrun);
          Aborting(before, |before|, true, Underrun);
        }
      }
    }

    // ---- pico/src/main.c: the main loop ----

    /** tuh_hid_report_received_cb: the report is stamped with the clock before anything else is decided. */
    method ReceiveReport(report: seq<byte>)
      requires Inv()
      modifies `now, `alarmPool, `alarmFired
      modifies physical.capture, physical.capture.events, physical`accepted, physical`log, physical`marks
      ensures Inv() && old(now) <= now < CLOCK_LIMIT && physical.capture.Valid()
      ensures if |report| == REPORT_LEN && (mode == Pass || mode == Record)
                 && |old(physical.capture.Contents())| < CAPTURE_CAPACITY
              then physical.accepted == old(physical.accepted) + [Captured(now, report)]
                   && physical.capture.Contents() == old(physical.capture.Contents()) + [Captured(now, report)]
              else physical.accepted == old(physical.accepted)
                   && physical.capture.Contents() == old(physical.capture.Contents())
    {
      hide Inv;
      var timestamp := SampleClock();
      PushReport(timestamp, report);
      CaptureIsValid();
    }

    method PushReport(timestamp: uint64, report: seq<byte>)
      requires Inv() && timestamp == now
      modifies physical.capture, physical.capture.events, physical`accepted, physical`log, physical`marks
      ensures Inv()
      ensures if |report| == REPORT_LEN && (mode == Pass || mode == Record)
                 && |old(physical.capture.Contents())| < CAPTURE_CAPACITY
              then physical.accepted == old(physical.accepted) + [Captured(timestamp, report)]
                   && physical.capture.Contents() == old(physical.capture.Contents()) + [Captured(timestamp, report)]
              else physical.accepted == old(physical.accepted)
                   && physical.capture.Contents() == old(physical.capture.Contents())
    {
      hide Timely, Measured, Alarms, GoodRuns, Outcomes, Intervals, Conserved, HeadArmed, Waiting, Reported;
      hide Parts, PhysicalPath.Valid, KeyboardCapture.Valid, KeyboardCapture.Contents;
      if |report| == REPORT_LEN { TimelyStep(physical.Captures(), Captured(timestamp, report), now); }
      physical.Receive(timestamp, report, mode);
    }

    /** Release service, then physical dispatch gated on its result: in PASS and RECORD, and only when no release was
        pending, HID gets as many captured reports as it takes, in order; nothing else is forwarded. */
    method ServicePhysical(takesRelease: bool, takesReports: nat) returns (refused: bool)
      requires Inv()
      modifies physical, physical.capture, wire
      ensures old(CreditKept()) ==> CreditKept()
      ensures Inv() && physical.accepted == old(physical.accepted) && old(wire.offered) <= wire.offered
      ensures physical.releasePending == (old(physical.releasePending) && !takesRelease)
      ensures mode != Record ==> wire.offered == old(wire.offered)
      ensures var open := !old(physical.releasePending) && (mode == Pass || mode == Record);
              && physical.Taken(old(physical.capture.Contents()), if open then takesReports else 0,
                                physical.capture.Contents(), old(physical.forwarded))
              && (refused <==> open && physical.capture.Contents() != [])
              && (open && !refused ==>
                    physical.forwarded == old(physical.forwarded) + old(physical.capture.Contents()))
      ensures mode == Record && physical.capture.Contents() != [] ==> physical.capture.headRecorded
    {
      hide Measured, Alarms, GoodRuns, Outcomes, Intervals, Conserved, HeadArmed, Waiting, PhysicalPath.Valid;
      hide PlaybackQueue.Valid, LatenessLog.Valid, KeyboardCapture.Valid, KeyboardCapture.Contents, Wire.Valid;
      hide SafeLog, Clock, Rises;
      CaptureIsValid();
      ghost var before := physical.capture.Contents();
      physical.BeginLoop(mode == Record);
      var result := physical.ServiceRelease(mode == Record, takesRelease);
      refused := physical.Dispatch(mode, result == Ready, takesReports);
      AllTaken(before, takesReports);
    }

    lemma {:induction false} CaptureIsValid()
      requires Inv()
      ensures physical.capture.Valid()
    {
      hide Parts, Clock, Conserved, Measured, Alarms, HeadArmed, Waiting, Reported;
    }

    lemma {:induction false} AllTaken(before: seq<Captured>, takes: nat)
      ensures before[|before|..] == [] && before[..|before|] == before && before[0..] == before && before[..0] == []
      ensures takes < |before| ==> before[takes..] != []
    {
    }

    /** A flow-control frame lost inside task() becomes a protocol error right after it. */
    method RaiseFlowControlFault()
      requires Inv()
      modifies this, queue, lateness.samples, wire, physical, physical.capture
      ensures Inv() && !flowControlFault && (old(CreditKept()) ==> CreditKept()) && old(now) <= now
      ensures old(flowControlFault) ==> mode == if old(mode) == Pass then Pass else Error
      ensures !old(flowControlFault) ==> unchanged(this, queue, wire, physical, physical.capture)
      ensures old(flowControlFault) ==>
                && (old(running) ==> runs != [])
                && wire.offered == old(wire.offered) + AbortFrames(old(running), runs)
                    + [ModeChanged(mode, ProtocolError)]
    {
      hide Inv;
      if flowControlFault {
        ClearFlowControlFault();
        EnterError(ProtocolError);
      }
    }

    method ClearFlowControlFault()
      requires Inv()
      modifies `flowControlFault
      ensures Inv() && !flowControlFault
    {
      hide Measured, Alarms, GoodRuns, Outcomes, Intervals, Conserved, HeadArmed, Waiting, Reported, Parts, Inputs;
      flowControlFault := false;
    }

    /** How the firmware stands between two statements. */
    ghost function Stand(): Standing
      requires queue.Valid()
      reads `mode, `sequenceEnded, queue, queue.events, wire
    {
      Standing(mode, queue.Contents(), sequenceEnded, |wire.offered|)
    }

    lemma {:induction false} QueueIsBounded()
      requires queue.Valid()
      ensures |queue.Contents()| <= CAPACITY
    {
    }

    /** dispatch_command as an observer sees it. */
    method HandleCommand(command: Command)
      requires Inv() && queue.Valid()
      modifies this, queue, queue.events, lateness, lateness.samples, wire, physical, physical.capture
      ensures Inv() && queue.Valid() && (old(CreditKept()) ==> CreditKept())
      ensures old(wire.offered) <= wire.offered && old(now) <= now
      ensures Answered(command, old(Stand()), Stand(), wire.offered[|old(wire.offered)|..])
    {
      hide Inv, CreditKept, LosesCredit, LastStart, PlaybackQueue.Contents, PlaybackQueue.Valid, AbortFrames;
      hide StartFrames, QueueReplies, QueueAfter, Overfills, ModeAfterSet, QueueCommandAllowed, Stoppable;
      hide ModeSetAnswered, PlayAbortAnswered, QueueCommandAnswered;
      BoundaryIsStoppable();
      QueueIsBounded();
      ghost var before, offered := Stand(), wire.offered;
      ghost var epoch, dropped := DispatchCommand(command);
      if command.SetMode? {
        ghost var cut, reason := before.mode == Playing && mode != Playing, ModeAfterSet(before.mode, command.target).1;
        ModeSetAnswers(command.target, before, Stand(), runs);
        assert wire.offered == offered + (AbortFrames(cut, runs) + [ModeChanged(mode, reason)]);
      } else if command.StartPlay? {
        if before.mode == Armed { PlayStartAnswers(before, Stand(), epoch, underrunSince, runs); }
      } else if command.AbortPlay? {
        ghost var reason := if mode == Armed then Aborted else InvalidTransition;
        PlayAbortAnswers(before, Stand(), runs);
        assert wire.offered == offered + (AbortFrames(before.mode == Playing, runs) + [ModeChanged(mode, reason)]);
      } else if !command.Ping? && !command.StatusRequest? {
        QueueCommandAnswers(command, before, Stand(), dropped, runs);
        ghost var replies := if QueueCommandAllowed(command, before.mode) && !Overfills(command, before.queue)
          then QueueReplies(command, before.mode, |QueueAfter(command, before.queue)|) else [];
        ghost var protest := if QueueCommandAllowed(command, before.mode) && mode != Error then []
          else ProtestFrames(before, Stand(), runs);
        assert wire.offered == offered + (replies + protest);
      }
    }

    /** A latched fault as an observer sees it: it is only reported in PASS and in ERROR, and leads to ERROR from
        anywhere else. */
    method HandleFault()
      requires Inv() && queue.Valid()
      modifies this, queue, lateness.samples, wire, physical, physical.capture
      ensures Inv() && queue.Valid() && (old(CreditKept()) ==> CreditKept())
      ensures old(wire.offered) <= wire.offered && old(now) <= now
      ensures FaultAnswered(old(Stand()), Stand(), wire.offered[|old(wire.offered)|..])
    {
      hide Inv, LosesCredit, LastStart, PlaybackQueue.Contents, PlaybackQueue.Valid, Stoppable, AbortFrames;
      hide FaultAnswered;
      BoundaryIsStoppable();
      ghost var before, offered := Stand(), wire.offered;
      EnterError(UartFault);
      BoundaryQueue();
      FaultAnswers(before, Stand(), runs);
      ghost var frames := AbortFrames(before.mode == Playing, runs) + [ModeChanged(mode, UartFault)];
      assert wire.offered == offered + frames;
    }

    /** The reports that arrived since the last iteration, oldest first. */
    method TakeReports(reports: seq<seq<byte>>)
      requires Inv() && queue.Valid()
      modifies `now, `alarmPool, `alarmFired
      modifies physical.capture, physical.capture.events, physical`accepted, physical`log, physical`marks
      ensures Inv() && queue.Valid() && old(now) <= now && (old(CreditKept()) ==> CreditKept())
      ensures Stand() == old(Stand()) && wire.offered == old(wire.offered)
      ensures Reports(physical.capture.Contents())
              == Admitted(Reports(old(physical.capture.Contents())), reports, mode == Pass || mode == Record)
      ensures old(physical.capture.Contents()) <= physical.capture.Contents()
    {
      hide Inv, LosesCredit, LastStart, Reports, KeyboardCapture.Contents, KeyboardCapture.Valid;
      CaptureIsValid();
      assert reports[0..] == reports;
      for i := 0 to |reports|
        invariant Inv() && physical.capture.Valid() && queue.Valid() && old(now) <= now
        invariant old(CreditKept()) ==> CreditKept()
        invariant Stand() == old(Stand()) && wire.offered == old(wire.offered)
        invariant old(physical.capture.Contents()) <= physical.capture.Contents()
        invariant Admitted(Reports(physical.capture.Contents()), reports[i..], mode == Pass || mode == Record)
                  == Admitted(Reports(old(physical.capture.Contents())), reports, mode == Pass || mode == Record)
      {
        ghost var before := physical.capture.Contents();
        ReceiveReport(reports[i]);
        AdmitNext(before, physical.capture.Contents(), reports, i, mode == Pass || mode == Record);
      }
      assert reports[|reports|..] == [];
    }

    /** The first half of an iteration: reports, a latched fault, commands. `marks` is how things stand before the first
        command and after each: every command is answered, once and in order. */
    method TakeInput(input: LoopInput) returns (ghost marks: seq<Standing>)
      requires Inv() && queue.Valid()
      modifies this, queue, queue.events, lateness, lateness.samples, wire
      modifies physical, physical.capture, physical.capture.events
      ensures Inv() && queue.Valid() && (old(CreditKept()) ==> CreditKept())
      ensures old(wire.offered) <= wire.offered && Handled(input, old(Stand()), marks, wire.offered)
      ensures marks[|marks| - 1] == Stand() && physical.capture.Valid() && old(now) <= now
      ensures !input.fault && input.commands == [] ==>
                && physical.forwarded == old(physical.forwarded)
                && physical.releasePending == old(physical.releasePending)
                && Reports(physical.capture.Contents())
                == Admitted(Reports(old(physical.capture.Contents())), input.reports,
                                old(mode) == Pass || old(mode) == Record)
    {
      hide Inv, CreditKept, PlaybackQueue.Contents, PlaybackQueue.Valid, Answered, FaultAnswered, Admitted;
      CaptureIsValid();
      ghost var start, before := Stand(), wire.offered;
      TakeReports(input.reports);
      if input.fault {
        HandleFault();
      }
      marks := [Stand()];
      CaptureIsValid();
      HandledNone(input, start, Stand(), before, wire.offered);
      assert input.commands[..0] == [];
      for i := 0 to |input.commands|
        invariant Inv() && queue.Valid() && physical.capture.Valid() && (old(CreditKept()) ==> CreditKept())
        invariant old(wire.offered) <= wire.offered && |marks| == i + 1 && marks[i] == Stand()
        invariant Handled(input.(commands := input.commands[..i]), start, marks, wire.offered)
        invariant old(now) <= now
        invariant i == 0 && !input.fault ==>
            && physical.forwarded == old(physical.forwarded) && physical.releasePending == old(physical.releasePending)
            && Reports(physical.capture.Contents())
            == Admitted(Reports(old(physical.capture.Contents())), input.reports,
                                old(mode) == Pass || old(mode) == Record)
      {
        ghost var offered := wire.offered;
        HandleCommand(input.commands[i]);
        HandledNext(input, start, marks, offered, i, Stand(), wire.offered);
        marks := marks + [Stand()];
        CaptureIsValid();
      }
      assert input.commands[..|input.commands|] == input.commands;
    }

    /** The scheduler's part: task(), then the fault it may have raised. */
    method ServicePlayback(takes: nat) returns (ghost began: nat, refused: bool, ghost dropped: bool)
      requires Inv() && queue.Valid()
      modifies this, queue, lateness, lateness.samples, wire, physical, physical.capture
      ensures Inv() && queue.Valid() && !flowControlFault && (old(CreditKept()) ==> CreditKept())
      ensures dropped == wire.LostCredit(|old(wire.offered)|) && (dropped ==> mode == Error)
      ensures old(wire.offered) <= wire.offered && began == old(now) <= now
      ensures running && !waitingForEvent && !refused ==> began < nextDeadline
      ensures running ==> |queue.Contents()| <= |old(queue.Contents())| <= |queue.Contents()| + takes
      ensures refused && running ==> |old(queue.Contents())| == |queue.Contents()| + takes
      ensures old(mode) != Playing && !old(flowControlFault) ==>
                && mode == old(mode) && queue.Contents() == old(queue.Contents()) && wire.offered == old(wire.offered)
                && sequenceEnded == old(sequenceEnded) && unchanged(physical, physical.capture)
      ensures old(mode) == Playing ==> mode == Playing || mode == Armed || mode == Error
    {
      hide Inv, Stoppable, CreditKept, AbortFrames, PlaybackQueue.Contents, PlaybackQueue.Valid, LosesCredit, LastStart;
      BoundaryIsStoppable();
      began := now;
      refused, dropped := Task(takes);
      BoundaryIsStoppable();
      ghost var offered, raised, live := wire.offered, flowControlFault, running;
      RaiseFlowControlFault();
      if raised { Aborting(offered, |old(wire.offered)|, live, ProtocolError); }
      BoundaryQueue();
      BoundaryIsStoppable();
    }

    /** No frame of the run in progress that carries credit was dropped. */
    ghost predicate CreditIntact()
      reads `mode, wire
    {
      mode == Playing ==> !wire.LostCredit(LastStart(wire.offered))
    }

    /** What the release service and the physical dispatch of an iteration did in PASS and RECORD, from what they found:
        the reports captured, those already forwarded, and whether a release was pending. */
    ghost predicate Served(input: LoopInput, captured: seq<Captured>, already: seq<Captured>, releasing: bool)
      requires physical.capture.Valid()
      reads physical, physical.capture, physical.capture.events
    {
      && physical.releasePending == (releasing && !input.takesRelease)
      && physical.Taken(captured, if releasing then 0 else input.takesReports, physical.capture.Contents(), already)
      && (!releasing && |captured| <= input.takesReports ==>
            physical.capture.Contents() == [] && physical.forwarded == already + captured)
    }

    /** The physical and the scheduler's part of an iteration, behind its input. */
    method Serve(input: LoopInput)
        returns (ghost began: nat, ghost sampled: nat, ghost captured: seq<Captured>, ghost already: seq<Captured>,
                 ghost releasing: bool)
      requires Inv() && CreditKept() && queue.Valid() && physical.capture.Valid()
      modifies this, queue, lateness, lateness.samples, wire, physical, physical.capture
      ensures Inv() && CreditKept() && CreditIntact() && !flowControlFault
      ensures queue.Valid() && physical.capture.Valid() && old(wire.offered) <= wire.offered
      ensures captured == old(physical.capture.Contents()) && already == old(physical.forwarded)
      ensures releasing == old(physical.releasePending)
      ensures if old(mode) == Playing then mode == Playing || mode == Armed || mode == Error
              else SameRun(old(Stand()), Stand()) && (mode != Record ==> wire.offered == old(wire.offered))
      ensures mode == Pass || mode == Record ==> Served(input, captured, already, releasing)
      ensures old(now) <= began <= sampled
      ensures running && !waitingForEvent ==>
                |old(queue.Contents())| == |queue.Contents()| + input.takesEvents || began < nextDeadline
      ensures mode == Playing ==> !(underrunActive && sampled - underrunSince >= WATCHDOG_TIMEOUT)
    {
      hide Inv, LosesCredit, LastStart, Stoppable, PlaybackQueue.Contents, PlaybackQueue.Valid;
      hide KeyboardCapture.Contents, KeyboardCapture.Valid;
      captured, already, releasing := physical.capture.Contents(), physical.forwarded, physical.releasePending;
      BoundaryIsStoppable();
      assert mode != Playing ==> !flowControlFault;
      var _ := ServicePhysical(input.takesRelease, input.takesReports);
      AllTaken(captured, input.takesReports);
      CaptureIsValid();
      assert mode == Pass || mode == Record ==> Served(input, captured, already, releasing);
      hide Served;
      BoundaryQueue();
      var refused: bool;
      ghost var dropped: bool;
      began, refused, dropped := ServicePlayback(input.takesEvents);
      BoundaryIsStoppable();
      sampled := CheckWatchdog();
      BoundaryIsStoppable();
      BoundaryQueue();
      CaptureIsValid();
    }

    /** One iteration of the main loop. Every command it finds is answered, once and in order; in PASS and RECORD HID
        gets the captured reports it takes; no head that was due when task() was called is left unless HID would not
        take it; no underrun has lasted for two seconds at the watchdog's sample; and a run that has lost a frame that
        carries credit does not survive it. */
    method LoopIteration(input: LoopInput)
        returns (ghost it: Iteration, ghost began: nat, ghost sampled: nat, ghost captured: seq<Captured>,
                 ghost already: seq<Captured>, ghost releasing: bool)
      requires Inv() && CreditKept() && queue.Valid() && physical.capture.Valid()
      modifies this, queue, queue.events, lateness, lateness.samples, wire
      modifies physical, physical.capture, physical.capture.events
      ensures Inv() && CreditKept() && CreditIntact() && !flowControlFault
      ensures queue.Valid() && physical.capture.Valid() && old(wire.offered) <= wire.offered
      ensures it.start == old(Stand()) && it.end == Stand() && Completed(input, it, wire.offered)
      ensures mode == Pass || mode == Record ==> Served(input, captured, already, releasing)
      ensures !input.fault && input.commands == [] ==>
                && already == old(physical.forwarded) && releasing == old(physical.releasePending)
                && Reports(captured) == Admitted(Reports(old(physical.capture.Contents())), input.reports,
                                                 old(mode) == Pass || old(mode) == Record)
      ensures old(now) <= began <= sampled
      ensures running && !waitingForEvent ==>
                |it.marks[|it.marks| - 1].queue| == |queue.Contents()| + input.takesEvents || began < nextDeadline
      ensures mode == Playing ==> !(underrunActive && sampled - underrunSince >= WATCHDOG_TIMEOUT)
    {
      hide Inv, CreditKept, CreditIntact, Served, Handled, Reports, Admitted, PlaybackQueue.Contents;
      hide PlaybackQueue.Valid, KeyboardCapture.Contents, KeyboardCapture.Valid;
      ghost var start := Stand();
      ghost var marks := TakeInput(input);
      ghost var handled := wire.offered;
      began, sampled, captured, already, releasing := Serve(input);
      HandledStays(input, start, marks, handled, wire.offered);
      it := Iteration(start, marks, Stand());
    }

    /** main(): whatever arrives, for however long, every boundary of the main loop satisfies the invariant, and every
        command of every iteration has been answered, in order. */
    method MainLoop(inputs: seq<LoopInput>) returns (ghost its: seq<Iteration>)
      requires Inv() && CreditKept() && queue.Valid() && physical.capture.Valid()
      modifies this, queue, queue.events, lateness, lateness.samples, wire
      modifies physical, physical.capture, physical.capture.events
      ensures Inv() && CreditKept() && (inputs != [] ==> CreditIntact() && !flowControlFault)
      ensures queue.Valid() && physical.capture.Valid() && |its| == |inputs|
      ensures forall i :: 0 <= i < |inputs| ==> Completed(inputs[i], its[i], wire.offered)
      ensures forall i :: 0 < i < |its| ==> its[i].start == its[i - 1].end
      ensures its != [] ==> its[0].start == old(Stand()) && its[|its| - 1].end == Stand()
    {
      hide Inv, CreditKept, CreditIntact, Completed, PlaybackQueue.Contents, PlaybackQueue.Valid;
      hide KeyboardCapture.Contents, KeyboardCapture.Valid;
      its := [];
      for i := 0 to |inputs|
        invariant Inv() && CreditKept() && (i > 0 ==> CreditIntact() && !flowControlFault)
        invariant queue.Valid() && physical.capture.Valid() && |its| == i
        invariant forall k :: 0 <= k < i ==> Completed(inputs[k], its[k], wire.offered)
        invariant forall k :: 0 < k < i ==> its[k].start == its[k - 1].end
        invariant if i == 0 then Stand() == old(Stand()) else its[0].start == old(Stand()) && its[i - 1].end == Stand()
      {
        ghost var offered := wire.offered;
        ghost var it, began, sampled, captured, already, releasing := LoopIteration(inputs[i]);
        forall k | 0 <= k < i
          ensures Completed(inputs[k], its[k], wire.offered)
        {
          CompletedStays(inputs[k], its[k], offered, wire.offered);
        }
        its := its + [it];
      }
    }
  }
}
