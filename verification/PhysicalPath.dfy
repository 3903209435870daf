/** The physical keyboard path: pico/src/safety_release.c, pico/src/physical_report_dispatch.c and the
    mode callbacks of pico/src/main.c that act on them. */
module PhysicalPaths {
  import opened Bits
  import opened PlaybackQueues
  import opened KeyboardCaptures
  import opened Messages

  datatype ReleaseResult = Blocked | Sent | Ready

  /** What happens on the physical path, in order: `LoopPass` each time the main loop comes round to the
      release service, `Forwarded` with the log position of the arrival of its report. */
  datatype Entry =
    | LoopPass
    | Transition
    | Arrived(event: Captured)
    | Released
    | Forwarded(origin: nat)

  predicate AcceptsPhysical(mode: Mode) {
    mode == Pass || mode == Record
  }

  /** Between any transition before `j` and the report forwarded at `j`, the host took an all-keys release
      in an earlier loop iteration; and that report arrived after the last transition. */
  ghost predicate SafeAt(log: seq<Entry>, j: nat)
    requires j < |log| && log[j].Forwarded?
  {
    && log[j].origin < j && log[log[j].origin].Arrived?
    && (forall i :: log[j].origin < i < j ==> log[i] != Transition)
    && (forall i :: 0 <= i < j && log[i] == Transition ==> ReleasedBetween(log, i, j))
  }

  ghost predicate ReleasedBetween(log: seq<Entry>, i: nat, j: nat)
    requires j <= |log|
  {
    exists k, l :: i < k < l < j && log[k] == Released && log[l] == LoopPass
  }

  ghost predicate SafeLog(log: seq<Entry>) {
    forall j :: 0 <= j < |log| && log[j].Forwarded? ==> SafeAt(log, j)
  }

  lemma {:induction false} SafeLogStep(log: seq<Entry>, e: Entry)
    requires SafeLog(log)
    requires e.Forwarded? ==> SafeAt(log + [e], |log|)
    ensures SafeLog(log + [e])
  {
    var after := log + [e];
    forall j | 0 <= j < |after| && after[j].Forwarded?
      ensures SafeAt(after, j)
    {
      if j < |log| {
        forall i | 0 <= i < j && after[i] == Transition
          ensures ReleasedBetween(after, i, j)
        {
          assert ReleasedBetween(log, i, j);
          var k, l :| i < k < l < j && log[k] == Released && log[l] == LoopPass;
          assert after[k] == Released && after[l] == LoopPass;
        }
      }
    }
  }

  /** Positions of the last entry of each kind, and the arrivals of the queued reports. */
  datatype Marks = Marks(transition: int, release: int, loop: int, origins: seq<nat>)

  ghost predicate MarksFit(log: seq<Entry>, marks: Marks, queued: seq<Captured>, pending: bool) {
    && -1 <= marks.transition < |log| && -1 <= marks.release < |log| && -1 <= marks.loop < |log|
    && (marks.release >= 0 ==> log[marks.release] == Released)
    && (marks.loop >= 0 ==> log[marks.loop] == LoopPass)
    && (forall i :: marks.transition < i < |log| ==> log[i] != Transition)
    && (!pending && marks.transition >= 0 ==> marks.transition < marks.release)
    && |marks.origins| == |queued|
    && (forall q :: 0 <= q < |queued| ==> marks.transition < marks.origins[q] < |log|)
    && (forall q :: 0 <= q < |queued| ==> log[marks.origins[q]] == Arrived(queued[q]))
  }

  /** The next report may be forwarded safely once the last release is from an earlier iteration. */
  lemma {:induction false} ForwardIsSafe(log: seq<Entry>, marks: Marks, queued: seq<Captured>)
    requires SafeLog(log) && MarksFit(log, marks, queued, false)
    requires queued != [] && marks.release < marks.loop
    ensures SafeLog(log + [Forwarded(marks.origins[0])])
  {
    var after := log + [Forwarded(marks.origins[0])];
    forall i | 0 <= i < |log| && after[i] == Transition
      ensures ReleasedBetween(after, i, |log|)
    {
      assert i <= marks.transition;
      assert after[marks.release] == Released && after[marks.loop] == LoopPass;
    }
    SafeLogStep(log, Forwarded(marks.origins[0]));
  }

  lemma {:induction false} HasOrigin(log: seq<Entry>, marks: Marks, queued: seq<Captured>, pending: bool)
    requires MarksFit(log, marks, queued, pending)
    ensures |marks.origins| == |queued|
  {
  }

  lemma {:induction false} MarksAfterArrival(log: seq<Entry>, marks: Marks, queued: seq<Captured>, event: Captured,
      pending: bool)
    requires MarksFit(log, marks, queued, pending)
    ensures MarksFit(log + [Arrived(event)], marks.(origins := marks.origins + [|log|]), queued + [event], pending)
  {
  }

  lemma {:induction false} MarksAfterForward(log: seq<Entry>, marks: Marks, head: Captured, rest: seq<Captured>,
      pending: bool)
    requires MarksFit(log, marks, [head] + rest, pending)
    ensures MarksFit(log + [Forwarded(marks.origins[0])], marks.(origins := marks.origins[1..]), rest, pending)
  {
    var queued := [head] + rest;
    forall q | 0 <= q < |rest|
      ensures marks.transition < marks.origins[1..][q] < |log| && log[marks.origins[1..][q]] == Arrived(rest[q])
    {
      assert queued[q + 1] == rest[q] && marks.origins[1..][q] == marks.origins[q + 1];
    }
  }

  class PhysicalPath {
    const capture: KeyboardCapture
    const wire: Wire
    var releasePending: bool

    /** Since the last clear: reports taken into the FIFO, sent as RECORD_EVENT, accepted by the host. */
    ghost var accepted: seq<Captured>
    ghost var recorded: seq<Captured>
    ghost var forwarded: seq<Captured>
    /** RECORD_EVENTs sent before the last clear. */
    ghost var earlier: seq<Captured>
    ghost var log: seq<Entry>
    ghost var marks: Marks

    /** RECORD drives both sinks from one cursor: recorded is ahead of forwarded by exactly the flagged head. */
    ghost predicate SinksAgree(recording: bool)
      reads this, capture, capture.events
    {
      && capture.Valid()
      && accepted == forwarded + capture.Contents()
      && recorded == (if recording then forwarded else []) + (if capture.headRecorded then [capture.Contents()[0]]
          else [])
      && (capture.headRecorded ==> recording)
    }

    /** The RECORD_EVENT frames offered since the last clear are exactly `recorded`. */
    ghost predicate WireAgrees()
      reads this, wire
    {
      wire.digest.records == earlier + recorded
    }

    /** Every capture so far that was or may still be sent to Zero, in the order of arrival. */
    ghost function Captures(): seq<Captured>
      reads `earlier, `accepted
    {
      earlier + accepted
    }

    /** What was sent to Zero is a beginning of what was captured. */
    lemma {:induction false} RecordedFirst(recording: bool)
      requires SinksAgree(recording)
      ensures earlier + recorded <= Captures()
    {
      if recording { RecordDualSink(this); }
    }

    ghost predicate LogSafe()
      reads this, capture, capture.events
    {
      && capture.Valid()
      && SafeLog(log)
      && MarksFit(log, marks, capture.Contents(), releasePending)
    }

    ghost predicate Valid(recording: bool)
      reads this, capture, capture.events
    {
      SinksAgree(recording) && LogSafe()
    }

    constructor (wire: Wire)
      ensures Valid(false) && fresh(capture) && fresh(capture.events) && this.wire == wire && !releasePending
      ensures log == [] && earlier == [] && recorded == [] && Captures() == []
    {
      capture := new KeyboardCapture();
      this.wire := wire;
      releasePending := false;
      accepted, recorded, forwarded, earlier := [], [], [], [];
      log := [];
      marks := Marks(-1, -1, -1, []);
    }

    ghost method BeginLoop(recording: bool)
      requires Valid(recording)
      modifies `log, `marks
      ensures Valid(recording) && marks.release < marks.loop
      ensures log == old(log) + [LoopPass] && marks.transition == old(marks.transition)
    {
      SafeLogStep(log, LoopPass);
      marks := marks.(loop := |log|);
      log := log + [LoopPass];
    }

    lemma {:induction false} FlagHasHead()
      requires capture.Valid()
      ensures capture.headRecorded ==> capture.Contents() != []
    {
    }

    /** tuh_hid_report_received_cb: keep the report only in a mode that accepts physical input. */
    method Receive(timestamp: uint64, report: seq<byte>, mode: Mode)
      requires Valid(mode == Record)
      modifies capture, capture.events, `accepted, `log, `marks
      ensures Valid(mode == Record)
      ensures marks.release == old(marks.release) && marks.loop == old(marks.loop)
      ensures accepted ==
                if |report| == REPORT_LEN && (mode == Pass || mode == Record)
                   && |old(capture.Contents())| < CAPTURE_CAPACITY
                then old(accepted) + [Captured(timestamp, report)] else old(accepted)
      ensures capture.Contents() ==
                if |report| == REPORT_LEN && (mode == Pass || mode == Record)
                   && |old(capture.Contents())| < CAPTURE_CAPACITY
                then old(capture.Contents()) + [Captured(timestamp, report)] else old(capture.Contents())
      ensures forwarded == old(forwarded)
      ensures Captures() == old(Captures()) || Captures() == old(Captures()) + [Captured(timestamp, report)]
    {
      hide SafeLog, MarksFit, KeyboardCapture.Valid, KeyboardCapture.Contents, Captures;
      ghost var before := capture.Contents();
      FlagHasHead();
      if AcceptsPhysical(mode) {
        var ok := capture.Push(timestamp, report);
        if ok {
          NoteArrival(mode == Record, before, Captured(timestamp, report));
        }
      }
    }

    /** Both sinks as they were before the newest report joined the FIFO. */
    ghost predicate SinksBefore(recording: bool, before: seq<Captured>)
      reads `accepted, `recorded, `forwarded, `log, `marks, `releasePending, capture
    {
      && accepted == forwarded + before
      && (capture.headRecorded ==> recording && before != [])
      && recorded == (if recording then forwarded else []) + (if capture.headRecorded then [before[0]] else [])
      && SafeLog(log) && MarksFit(log, marks, before, releasePending)
    }

    /** The newest report of the FIFO enters the books. */
    ghost method NoteArrival(recording: bool, before: seq<Captured>, event: Captured)
      requires capture.Valid() && capture.Contents() == before + [event] && SinksBefore(recording, before)
      modifies `accepted, `log, `marks
      ensures Valid(recording) && accepted == old(accepted) + [event] && Captures() == old(Captures()) + [event]
      ensures marks.release == old(marks.release) && marks.loop == old(marks.loop)
    {
      hide KeyboardCapture.Valid, KeyboardCapture.Contents;
      assert forwarded + before + [event] == forwarded + (before + [event]);
      assert earlier + (accepted + [event]) == earlier + accepted + [event];
      SafeLogStep(log, Arrived(event));
      MarksAfterArrival(log, marks, before, event, releasePending);
      hide SafeLog, MarksFit;
      marks := marks.(origins := marks.origins + [|log|]);
      log := log + [Arrived(event)];
      accepted := accepted + [event];
    }

    /** clear_and_release in mode_state.c, through mode_clear_physical and mode_all_release. */
    method ClearAndRelease()
      requires Valid(false) || Valid(true)
      modifies this, capture
      ensures Valid(false) && Valid(true) && releasePending && capture.Contents() == []
      ensures log == old(log)
      ensures accepted == [] && recorded == [] && forwarded == [] && Captures() <= old(Captures())
      ensures old(WireAgrees()) ==> WireAgrees()
    {
      RecordedFirst(SinksAgree(true));
      capture.Clear();
      releasePending := true;
      earlier := earlier + recorded;
      accepted, recorded, forwarded := [], [], [];
      marks := marks.(origins := []);
    }

    /** Logs a state change; every one must come after ClearAndRelease. */
    ghost method NoteTransition()
      requires Valid(false) && Valid(true) && releasePending && capture.Contents() == []
      modifies `log, `marks
      ensures Valid(false) && Valid(true)
      ensures log == old(log) + [Transition]
    {
      SafeLogStep(log, Transition);
      marks := marks.(transition := |log|);
      log := log + [Transition];
    }

    /** pico_safety_release_service: SENT is not READY, so input waits one more iteration. `takes` says whether HID
        takes the release, if there is one to send. */
    method ServiceRelease(recording: bool, takes: bool) returns (result: ReleaseResult)
      requires Valid(recording) && marks.release < marks.loop
      modifies `releasePending, `log, `marks
      ensures Valid(recording)
      ensures result == if !old(releasePending) then Ready else if takes then Sent else Blocked
      ensures releasePending == (old(releasePending) && !takes)
      ensures result == Ready ==> marks.release < marks.loop
      ensures log == old(log) + if result == Sent then [Released] else []
    {
      if !releasePending {
        return Ready;
      }
      if takes {
        SafeLogStep(log, Released);
        marks := marks.(release := |log|);
        log := log + [Released];
        releasePending := false;
        return Sent;
      }
      return Blocked;
    }

    /** The head was accepted by the host: log it and drop it from the FIFO. */
    method ForwardHead(recording: bool, event: Captured)
      requires LogSafe() && capture.Contents() != [] && event == capture.Contents()[0]
      requires accepted == forwarded + capture.Contents()
      requires recorded == if recording then forwarded + [event] else []
      requires !releasePending && marks.release < marks.loop
      modifies `log, `marks, `forwarded, capture
      ensures Valid(recording) && marks.release < marks.loop
      ensures old(capture.Contents()) == [event] + capture.Contents()
      ensures forwarded == old(forwarded) + [event]
    {
      hide SafeLog, MarksFit, KeyboardCapture.Contents, KeyboardCapture.Valid;
      HasOrigin(log, marks, capture.Contents(), releasePending);
      ForwardIsSafe(log, marks, capture.Contents());
      var _, _ := capture.Pop();
      MarksAfterForward(log, marks, event, capture.Contents(), releasePending);
      log := log + [Forwarded(marks.origins[0])];
      marks := marks.(origins := marks.origins[1..]);
      forwarded := forwarded + [event];
    }

    /** Emit the RECORD_EVENT of the head the first time it is seen. */
    method RecordHead(event: Captured)
      requires SinksAgree(true) && LogSafe() && capture.Contents() != [] && event == capture.Contents()[0]
      requires wire.Valid() && WireAgrees() && wire.digest.phase == Idle && wire.digest.mode == Record
      modifies wire, capture`headRecorded, `recorded
      ensures SinksAgree(true) && LogSafe() && capture.headRecorded
      ensures capture.Contents() == old(capture.Contents())
      ensures wire.Valid() && WireAgrees() && wire.digest.phase == Idle && wire.digest.mode == Record
      ensures wire.digest.outcomes == old(wire.digest.outcomes)
      ensures wire.offered == old(wire.offered) + if old(capture.headRecorded) then [] else [RecordEvent(event)]
    {
      hide SafeLog, MarksFit, Wire.Valid;
      if !capture.headRecorded {
        var _ := wire.QueueFrame(RecordEvent(event));
        capture.MarkHeadRecorded();
        recorded := recorded + [event];
      }
    }

    /** pico_physical_report_dispatch in RECORD: one cursor, two sinks. HID takes up to `takes` reports. */
    method DispatchRecord(hidReady: bool, takes: nat) returns (refused: bool)
      requires Valid(true) && wire.Valid() && WireAgrees() && wire.digest.phase == Idle && wire.digest.mode == Record
      requires hidReady ==> !releasePending && marks.release < marks.loop
      modifies `log, `marks, `forwarded, `recorded, capture, wire
      ensures Valid(true) && wire.Valid() && WireAgrees() && wire.digest.phase == Idle && wire.digest.mode == Record
      ensures wire.digest.outcomes == old(wire.digest.outcomes) && old(wire.offered) <= wire.offered
      ensures Taken(old(capture.Contents()), if hidReady then takes else 0, capture.Contents(), old(forwarded))
      ensures capture.Contents() != [] ==> capture.headRecorded
      ensures refused <==> hidReady && capture.Contents() != []
    {
      hide SafeLog, MarksFit, KeyboardCapture.Contents, KeyboardCapture.Valid, Wire.Valid;
      ghost var queue, count := capture.Contents(), 0;
      refused := false;
      var left := takes;
      var some, event := capture.Peek();
      assert queue[0..] == queue && queue[..0] == [] && forwarded + [] == forwarded;
      while some
        invariant Valid(true) && wire.Valid() && WireAgrees() && wire.digest.phase == Idle && wire.digest.mode == Record
        invariant wire.digest.outcomes == old(wire.digest.outcomes) && old(wire.offered) <= wire.offered
        invariant hidReady ==> marks.release < marks.loop
        invariant count <= |queue| && count + left == takes && (!hidReady ==> count == 0)
        invariant capture.Contents() == queue[count..] && forwarded == old(forwarded) + queue[..count]
        invariant some <==> capture.Contents() != []
        invariant some ==> event == capture.Contents()[0]
        decreases |capture.Contents()|
      {
        RecordHead(event);
        if !hidReady {
          return;
        }
        if left == 0 {
          refused := true;
          return;
        }
        ForwardHead(true, event);
        NextTaken(queue, count, capture.Contents(), old(forwarded));
        left, count := left - 1, count + 1;
        some, event := capture.Peek();
      }
    }

    /** pico_physical_report_dispatch in PASS. HID takes up to `takes` reports. */
    method DispatchPass(hidReady: bool, takes: nat) returns (refused: bool)
      requires Valid(false)
      requires hidReady ==> !releasePending && marks.release < marks.loop
      modifies `log, `marks, `forwarded, capture
      ensures Valid(false)
      ensures Taken(old(capture.Contents()), if hidReady then takes else 0, capture.Contents(), old(forwarded))
      ensures refused <==> hidReady && capture.Contents() != []
    {
      hide SafeLog, MarksFit, KeyboardCapture.Contents, KeyboardCapture.Valid;
      ghost var queue, count := capture.Contents(), 0;
      refused := false;
      assert queue[0..] == queue && queue[..0] == [] && forwarded + [] == forwarded;
      if !hidReady {
        return;
      }
      var left := takes;
      var some, event := capture.Peek();
      while some
        invariant Valid(false)
        invariant marks.release < marks.loop
        invariant count <= |queue| && count + left == takes
        invariant capture.Contents() == queue[count..] && forwarded == old(forwarded) + queue[..count]
        invariant some <==> capture.Contents() != []
        invariant some ==> event == capture.Contents()[0]
        decreases |capture.Contents()|
      {
        if left == 0 {
          refused := true;
          return;
        }
        ForwardHead(false, event);
        NextTaken(queue, count, capture.Contents(), old(forwarded));
        left, count := left - 1, count + 1;
        some, event := capture.Peek();
      }
    }

    /** The first `takes` captured reports, or all if there are fewer, have been forwarded in order; the others are
        still captured. */
    ghost predicate Taken(before: seq<Captured>, takes: nat, left: seq<Captured>, already: seq<Captured>)
      reads `forwarded
    {
      var n := if takes <= |before| then takes else |before|;
      left == before[n..] && forwarded == already + before[..n]
    }

    /** pico_physical_report_dispatch: RECORD and PASS forward, every other mode leaves input alone. */
    method Dispatch(mode: Mode, hidReady: bool, takes: nat) returns (refused: bool)
      requires Valid(mode == Record) && wire.Valid() && WireAgrees()
      requires mode == Record ==> wire.digest.phase == Idle && wire.digest.mode == Record
      requires hidReady ==> !releasePending && marks.release < marks.loop
      modifies `log, `marks, `forwarded, `recorded, capture, wire
      ensures Valid(mode == Record) && wire.Valid() && WireAgrees()
      ensures mode != Record ==> wire.offered == old(wire.offered) && wire.digest == old(wire.digest)
      ensures mode == Record ==>
                wire.digest.phase == Idle && wire.digest.mode == Record
                    && wire.digest.outcomes == old(wire.digest.outcomes)
      ensures old(wire.offered) <= wire.offered
      ensures Taken(old(capture.Contents()), if (mode == Pass || mode == Record) && hidReady then takes else 0,
                    capture.Contents(), old(forwarded))
      ensures refused <==> (mode == Pass || mode == Record) && hidReady && capture.Contents() != []
      ensures mode == Record && capture.Contents() != [] ==> capture.headRecorded
    {
      refused := false;
      if mode == Record {
        refused := DispatchRecord(hidReady, takes);
        return;
      }
      if mode != Pass {
        assert capture.Contents()[0..] == capture.Contents() && forwarded + capture.Contents()[..0] == forwarded;
        return;
      }
      refused := DispatchPass(hidReady, takes);
    }
  }

  lemma {:induction false} NextTaken<T>(queue: seq<T>, count: nat, rest: seq<T>, already: seq<T>)
    requires count < |queue| && queue[count..] == [queue[count]] + rest
    ensures rest == queue[count + 1..] && already + queue[..count] + [queue[count]] == already + queue[..count + 1]
  {
    assert queue[count..][1..] == queue[count + 1..];
  }

  /** Main RECORD theorem: forwarded is a prefix of recorded, recorded of accepted; recorded leads by exactly
      the flagged head. So every report yields at most one RECORD_EVENT, in arrival order, and none is
      forwarded before it was recorded. */
  lemma {:induction false} RecordDualSink(p: PhysicalPath)
    requires p.SinksAgree(true)
    ensures p.forwarded <= p.recorded <= p.accepted
    ensures |p.recorded| == |p.forwarded| + if p.capture.headRecorded then 1 else 0
  {
    var queued := p.capture.Contents();
    if p.capture.headRecorded {
      assert queued == [queued[0]] + queued[1..];
      assert p.accepted == p.recorded + queued[1..];
    } else {
      assert p.recorded == p.forwarded;
    }
  }
}
