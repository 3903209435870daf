/** What a main-loop boundary of the firmware means to an observer of the wire and of the HID endpoint. */
module Theorems {
  import opened Bits
  import opened PlaybackQueues
  import opened KeyboardCaptures
  import opened Lateness
  import opened Messages
  import opened PhysicalPaths
  import opened PlaybackRuns
  import opened Firmwares

  predicate IsOutcome(m: Message) {
    m.PlayFinished? || m.PlayAborted?
  }

  function StartCount(trace: seq<Message>): nat {
    if trace == [] then 0 else StartCount(trace[..|trace| - 1]) + if trace[|trace| - 1].PlayStarted? then 1 else 0
  }

  function OutcomeCount(trace: seq<Message>): nat {
    if trace == [] then 0 else OutcomeCount(trace[..|trace| - 1]) + if IsOutcome(trace[|trace| - 1]) then 1 else 0
  }

  lemma {:induction false} PrefixPhase(trace: seq<Message>, k: nat)
    requires DigestOf(trace).phase != Bad && k <= |trace|
    ensures DigestOf(trace[..k]).phase != Bad
  {
    if k < |trace| {
      PrefixPhase(trace[..|trace| - 1], k);
      assert trace[..|trace| - 1][..k] == trace[..k];
    } else {
      assert trace[..k] == trace;
    }
  }

  lemma {:induction false} PhaseStep(trace: seq<Message>, k: nat)
    requires DigestOf(trace).phase != Bad && k < |trace|
    ensures DigestOf(trace[..k]).phase != Bad
    ensures DigestOf(trace[..k + 1]).phase == Advance(DigestOf(trace[..k]).phase, trace[k]) != Bad
  {
    PrefixPhase(trace, k);
    PrefixPhase(trace, k + 1);
    assert trace[..k + 1][..k] == trace[..k];
  }

  /** MODE_CHANGED(PLAYING, OK) is directly followed by PLAY_STARTED. */
  lemma {:induction false} StartIsAnnounced(trace: seq<Message>, k: nat)
    requires DigestOf(trace).phase != Bad && k + 1 < |trace| && trace[k] == ModeChanged(Playing, Okay)
    ensures trace[k + 1].PlayStarted?
  {
    PhaseStep(trace, k);
    PhaseStep(trace, k + 1);
  }

  /** Every outcome opens a contiguous triple: outcome, metrics, MODE_CHANGED to a state that is not PLAYING. */
  lemma {:induction false} OutcomeTriple(trace: seq<Message>, k: nat)
    requires DigestOf(trace).phase != Bad && k < |trace| && IsOutcome(trace[k])
    ensures k + 1 < |trace| ==> trace[k + 1].PlayMetrics?
    ensures k + 2 < |trace| ==> trace[k + 2].ModeChanged? && trace[k + 2].mode != Playing
  {
    PhaseStep(trace, k);
    if k + 1 < |trace| { PhaseStep(trace, k + 1); }
    if k + 2 < |trace| { PhaseStep(trace, k + 2); }
  }

  predicate Names(m: Message, mode: Mode) {
    m.ModeChanged? && m.mode == mode
  }

  /** Unless RECORD is named again, the mode of a trace stays another one. */
  lemma {:induction false} NotRecording(trace: seq<Message>, p: nat, k: nat)
    requires p < k <= |trace| && trace[p].ModeChanged? && trace[p].mode != Record
    requires forall j :: p < j < k ==> !Names(trace[j], Record)
    ensures DigestOf(trace[..k]).mode != Record
  {
    assert trace[..k][..k - 1] == trace[..k - 1];
    if p < k - 1 { NotRecording(trace, p, k - 1); }
  }

  /** Every capture follows a MODE_CHANGED to RECORD: after one that names another mode there is none until RECORD is
      named again. */
  lemma {:induction false} RecordsNeedRecord(trace: seq<Message>, p: nat, i: nat)
    requires DigestOf(trace).phase != Bad && p < i < |trace| && trace[p].ModeChanged? && trace[p].mode != Record
    requires forall j :: p < j < i ==> !Names(trace[j], Record)
    ensures !trace[i].RecordEvent?
  {
    NotRecording(trace, p, i);
    PrefixPhase(trace, i + 1);
    assert trace[..i + 1][..i] == trace[..i];
  }

  /** The captures on the wire are in the order of their timestamps, and none is from the future. */
  lemma {:induction false} CapturesInOrder(f: Firmware)
    requires f.Inv()
    ensures Timely(DigestOf(f.wire.offered).records, f.now)
  {
    hide Firmware.Conserved, Firmware.Measured, Firmware.HeadArmed, Firmware.Reported, Timely, PhysicalPath.LogSafe;
    f.WireFacts();
    f.physical.RecordedFirst(f.mode == Record);
    TimelyPrefix(f.physical.earlier + f.physical.recorded, f.physical.Captures(), f.now);
  }

  /** After every prefix each started run has had its one outcome, except a run still in progress. */
  lemma {:induction false} OneOutcomePerRun(trace: seq<Message>)
    requires DigestOf(trace).phase != Bad
    ensures StartCount(trace) == OutcomeCount(trace) + if DigestOf(trace).phase == Live then 1 else 0
  {
    if trace != [] {
      OneOutcomePerRun(trace[..|trace| - 1]);
    }
  }

  /** Main trace theorem: at every boundary the frames offered so far form complete triples, one per run, and
      the mode says whether a run is open. */
  lemma {:induction false} WellFormedTrace(f: Firmware)
    requires f.Inv()
    ensures DigestOf(f.wire.offered).phase == if f.mode == Playing then Live else Idle
    ensures StartCount(f.wire.offered) == OutcomeCount(f.wire.offered) + if f.mode == Playing then 1 else 0
    ensures |f.runs| == |DigestOf(f.wire.offered).outcomes|
  {
    hide Firmware.Conserved, Firmware.Measured, Firmware.HeadArmed, PhysicalPath.Valid;
    OneOutcomePerRun(f.wire.offered);
  }

  /** Metrics that have arrived are not overwritten: only the newest outcome, still without its own, is completed. */
  lemma {:induction false} MetricsStay(d: Digest, m: Message, i: nat)
    requires Extend(d, m).phase != Bad && i < |d.outcomes| - (if d.phase == Ended then 1 else 0)
    ensures i < |Extend(d, m).outcomes| - (if Extend(d, m).phase == Ended then 1 else 0)
    ensures Extend(d, m).outcomes[i] == d.outcomes[i]
  {
  }

  lemma {:induction false} EndedHasOutcome(trace: seq<Message>)
    requires DigestOf(trace).phase == Ended
    ensures DigestOf(trace).outcomes != []
  {
  }

  /** Every PLAY_METRICS of a well-formed trace is the metrics of one of its outcomes. */
  lemma {:induction false} MetricsBelong(trace: seq<Message>, x: Metrics) returns (i: nat)
    requires DigestOf(trace).phase != Bad && PlayMetrics(x) in trace
    ensures i < |DigestOf(trace).outcomes| - (if DigestOf(trace).phase == Ended then 1 else 0)
    ensures DigestOf(trace).outcomes[i].metrics == x
  {
    var n := |trace| - 1;
    var front, m, d := trace[..n], trace[n], DigestOf(trace[..n]);
    assert DigestOf(trace) == Extend(d, m) && trace == front + [m];
    hide DigestOf;
    if m == PlayMetrics(x) {
      EndedHasOutcome(front);
      i := |d.outcomes| - 1;
    } else {
      i := MetricsBelong(front, x);
      MetricsStay(d, m, i);
      hide Extend;
    }
  }

  /** Main playback theorem: the i-th outcome and metrics on the wire belong to a run that sent nothing early,
      lost and repeated nothing, and whose metrics are exact; between its PLAY_STARTED and its outcome there is one
      PLAY_UNDERRUN for each maximal interval in which its queue was found empty, and the metrics count the same. A run
      of one report tells how many microseconds that report was past epoch plus offset. */
  lemma {:induction false} EveryRunIsGood(f: Firmware, i: nat)
    requires f.Inv() && i < |f.runs|
    ensures GoodRun(f.runs[i])
    ensures i < |DigestOf(f.wire.offered).outcomes|
    ensures DigestOf(f.wire.offered).outcomes[i]
         == Outcome(f.runs[i].finished, Rises(f.runs[i].history.observed), f.runs[i].metrics)
    ensures f.runs[i].metrics.underruns == Rises(f.runs[i].history.observed) % UINT32
    ensures var r := f.runs[i];
            |r.history.sent| == 1 && r.epoch + r.history.sent[0].event.offset < UINT64 ==>
              var late := r.history.sent[0].time - (r.epoch + r.history.sent[0].event.offset);
              var told := if late > INT32_MAX then INT32_MAX else late;
              r.metrics.min == r.metrics.max == r.metrics.sum == r.metrics.p95 == r.metrics.p99 == told
  {
    hide Firmware.Conserved, Firmware.Measured, Firmware.HeadArmed, PhysicalPath.Valid;
    GoodRunsAt(f.runs, i);
    var r := f.runs[i];
    if |r.history.sent| == 1 && r.epoch + r.history.sent[0].event.offset < UINT64 { OneReport(r); }
  }

  /** The deadline the scheduler waits for is epoch plus offset exactly when that sum fits 64 bits; a head for which it
      does not fit is due before the run began, so at once. */
  lemma {:induction false} WrappedHeadIsDue(f: Firmware)
    requires f.Inv() && f.running && !f.waitingForEvent
    ensures f.queue.Valid() && f.queue.Contents() != []
    ensures var offset := f.queue.Contents()[0].offset;
            && (f.nextDeadline == f.playbackStart + offset <==> f.playbackStart + offset < UINT64)
            && (f.playbackStart + offset >= UINT64 > offset ==>
                  f.nextDeadline == f.playbackStart + offset - UINT64 < f.playbackStart <= f.now)
  {
    hide Firmware.Conserved, Firmware.Measured, Firmware.Reported, Firmware.Inputs;
  }

  /** An acknowledgement that found room carries its credit, and what a transition adds after it carries none. */
  lemma {:induction false} AckArrives(room: nat -> bool, before: seq<Message>, ack: Message, more: seq<Message>)
    requires room(|before|) && forall m :: m in more ==> !CarriesCredit(m)
    ensures !LosesCredit(room, before + [ack] + more, |before|)
  {
    LosesNewest(room, before, ack);
    LosesNone(room, before + [ack], more);
    LosesMore(room, before + [ack], more, |before|);
  }

  /** A firmware in ARMED whose queue holds one event with the largest offset the wire can carry. */
  method LoadFarEvent(room: nat -> bool) returns (f: Firmware)
    requires room(1)
    ensures f.Inv() && f.queue.Valid() && f.mode == Armed && f.queue.Contents() == [Event(UINT64 - 1, NO_KEYS)]
    ensures fresh(f) && fresh(f.queue) && fresh(f.queue.events) && fresh(f.lateness) && fresh(f.lateness.samples)
    ensures fresh(f.wire) && fresh(f.physical) && fresh(f.physical.capture)
  {
    hide LosesCredit, LastStart, Firmware.Inv, Firmware.Stoppable, PlaybackQueue.Valid, PlaybackQueue.Contents;
    f := new Firmware(room);
    f.BoundaryIsStoppable();
    f.HandleModeSet(2);
    f.BoundaryQueue();
    f.BoundaryIsStoppable();
    ghost var before, ack := f.wire.offered, BufferStatus(Armed, 1, CAPACITY - 1);
    var command := AddEvent(UINT64 - 1, NO_KEYS);
    assert before == [ModeChanged(Armed, Okay)] && f.queue.Contents() == [];
    assert QueueAfter(command, []) == [Event(UINT64 - 1, NO_KEYS)] && QueueReplies(command, Armed, 1) == [ack];
    ghost var dropped := f.DispatchQueueCommand(command);
    ghost var more := if f.mode == Mode.Error then [ModeChanged(Mode.Error, ProtocolError)] else [];
    assert f.wire.offered == before + [ack] + more;
    AckArrives(room, before, ack, more);
  }

  /** A run in which that happens: once its acknowledgement finds room, the event is found due as soon as playback
      starts, unless it starts at time 0. */
  method WrappedHeadRun(room: nat -> bool) returns (f: Firmware, epoch: nat, due: bool)
    requires room(1)
    ensures f.Inv() && f.queue.Valid() && f.running && !f.waitingForEvent && f.playbackStart == epoch
    ensures f.queue.Contents() == [Event(UINT64 - 1, NO_KEYS)]
    ensures epoch > 0 ==> due && f.nextDeadline == epoch - 1
  {
    hide LosesCredit, LastStart, Firmware.Inv, StartFrames, PlaybackQueue.Valid, PlaybackQueue.Contents;
    f := LoadFarEvent(room);
    ghost var dropped: bool;
    epoch, dropped := f.StartPlayback();
    WrappedHeadIsDue(f);
    due := f.CheckDue();
  }

  /** Main safety theorem for input: no physical report reaches the host after a transition until the host has
      taken an all-keys release in an earlier pass, and none captured before the transition ever does. */
  lemma {:induction false} ReleaseBeforeInput(f: Firmware, i: nat, j: nat)
    requires f.Inv() && i < j < |f.physical.log|
    requires f.physical.log[i] == Transition && f.physical.log[j].Forwarded?
    ensures ReleasedBetween(f.physical.log, i, j)
    ensures i < f.physical.log[j].origin < j && f.physical.log[f.physical.log[j].origin].Arrived?
  {
    hide Firmware.Conserved, Firmware.Measured, Firmware.HeadArmed, Firmware.Reported;
    assert SafeAt(f.physical.log, j);
    assert f.physical.log[f.physical.log[j].origin] != Transition;
  }

  /** One MODE_SET in an iteration of the main loop without a fault: PASS is always granted, RECORD and ARMED from PASS
      or from themselves, and then it is the mode the iteration ends in; otherwise only a run in progress can still move
      the mode. Either way the answer was offered during the iteration. */
  lemma {:induction false} ModeRequestAnswered(input: LoopInput, target: byte, it: Iteration, offered: seq<Message>)
      returns (answer: nat)
    requires !input.fault && input.commands == [SetMode(target)] && Completed(input, it, offered)
    ensures it.start.offered <= answer < it.end.offered <= |offered|
    ensures var was, ends := it.start.mode, it.end.mode;
            if target == 0 then ends == Pass && offered[answer] == ModeChanged(Pass, Okay)
            else if target == 1 && (was == Pass || was == Record) then
              ends == Record && offered[answer] == ModeChanged(Record, Okay)
            else if target == 2 && (was == Pass || was == Armed) then
              ends == Armed && offered[answer] == ModeChanged(Armed, Okay)
            else
              && offered[answer] == ModeChanged(was, if target <= 2 then InvalidTransition else InvalidTarget)
              && (was != Playing ==> ends == was)
  {
    var before, after := it.marks[0], it.marks[1];
    var frames := Between(before, after, offered);
    answer := after.offered - 1;
    assert Answered(input.commands[0], before, after, frames) && before == it.start;
    assert frames != [] && frames[|frames| - 1] == offered[answer];
  }

  /** Main agreement theorem: the scheduler runs exactly in PLAYING; a stopped or waiting scheduler has no alarm
      pending and no flag set; otherwise the queue has a head and its deadline is what the scheduler waits for. */
  lemma {:induction false} ModulesAgree(f: Firmware)
    requires f.Inv()
    ensures f.running <==> f.mode == Playing
    ensures !f.running || f.waitingForEvent ==> !f.alarmFired && forall id :: id !in f.alarmPool
    ensures f.running && !f.waitingForEvent ==>
              && f.queue.Contents() != []
              && f.nextDeadline == Deadline(f.playbackStart, f.queue.Contents()[0].offset)
              && (f.alarmFired ==> f.nextDeadline <= f.now)
              && (forall id :: id in f.alarmPool ==> id == f.alarmId && f.alarmPool[id] == f.nextDeadline)
  {
    hide Firmware.Conserved, Firmware.Measured, Firmware.Reported, PhysicalPath.Valid;
  }
}
