/** The Pico of the credit protocol is the firmware: on the queue, the mode and the frames Zero reads, every step of
    CreditProtocol's Pico is what the firmware class does. */
module CreditRefinement {
  import opened PlaybackQueues
  import opened Messages
  import opened Firmwares
  import P = CreditProtocol

  /** The frames _send_through and _await_credit look at; MODE_CHANGED belongs to the PLAY_STARTED that follows it. */
  function Seen(frames: seq<Message>): (r: seq<P.Reply>)
    ensures |r| <= |frames|
  {
    if frames == [] then []
    else
      (match frames[0]
       case BufferStatus(mode, _, free) => [P.Status(mode == Playing, free)]
       case PlayUnderrun(_, free) => [P.UnderrunNotice(free)]
       case PlayReady => [P.Reply.PlayReady]
       case PlayStarted(_) => [P.Started]
       case _ => [])
      + Seen(frames[1..])
  }

  lemma {:induction false} SeenConcat(a: seq<Message>, b: seq<Message>)
    ensures Seen(a + b) == Seen(a) + Seen(b)
  {
    if a == [] {
      assert a + b == b;
    } else {
      assert (a + b)[1..] == a[1..] + b;
      SeenConcat(a[1..], b);
    }
  }

  lemma {:induction false} SeenOne(m: Message)
    ensures Seen([m]) == (match m
                          case BufferStatus(mode, _, free) => [P.Status(mode == Playing, free)]
                          case PlayUnderrun(_, free) => [P.UnderrunNotice(free)]
                          case PlayReady => [P.Reply.PlayReady]
                          case PlayStarted(_) => [P.Started]
                          case _ => [])
  {
    assert [m][1..] == [];
  }

  lemma {:induction false} SeenTwo(m: Message, n: Message)
    ensures Seen([m, n]) == Seen([m]) + Seen([n])
  {
    assert [m] + [n] == [m, n];
    SeenConcat([m], [n]);
  }

  lemma {:induction false} DrainUnseen(runs: seq<PlaybackRuns.Run>)
    requires runs != []
    ensures Seen(DrainFrames(runs)) == []
  {
    assert DrainFrames(runs) == [DrainFrames(runs)[0]] + [DrainFrames(runs)[1], DrainFrames(runs)[2]];
    SeenConcat([DrainFrames(runs)[0]], [DrainFrames(runs)[1], DrainFrames(runs)[2]]);
    SeenOne(DrainFrames(runs)[0]);
    SeenTwo(DrainFrames(runs)[1], DrainFrames(runs)[2]);
    SeenOne(DrainFrames(runs)[1]);
    SeenOne(DrainFrames(runs)[2]);
  }

  /** The firmware is in the state the protocol says. After the run has finished only the mode is left to compare. */
  ghost predicate Abstracts(c: P.Config, f: Firmware, s: P.State)
    requires f.queue.Valid()
    reads f, f.queue, f.queue.events
  {
    && c.capacity == CAPACITY && s.queued == |f.queue.Contents()| && !s.overflow && s.mode != P.ExpiredMode
    && (f.running && f.waitingForEvent ==> s.underruns > 0)
    && (s.mode == P.FinishedMode ==> f.mode == Armed && s.queued == 0)
    && (s.mode != P.FinishedMode ==> s.ended == f.sequenceEnded)
    && (s.mode == P.ArmedMode ==> f.mode == Armed)
    && (s.mode == P.PlayingMode ==> f.mode == Playing)
  }

  predicate Carries(r: P.Request, command: Command) {
    match r
    case QueueEvent(_) => command.AddEvent?
    case QueueEnd => command.EndQueue?
    case PlayStart => command.StartPlay?
  }

  lemma {:induction false} QueueRepliesSeen(command: Command, mode: Mode, queued: nat)
    requires queued <= CAPACITY
    ensures Seen(QueueReplies(command, mode, queued))
         == (if command.EndQueue? && mode == Armed then [P.Reply.PlayReady] else [])
             + [P.Status(mode == Playing, CAPACITY - queued)]
  {
    var status := BufferStatus(mode, queued, CAPACITY - queued);
    SeenOne(status);
    SeenOne(Message.PlayReady);
    SeenConcat([Message.PlayReady], [status]);
    assert [] + [status] == [status];
  }

  /** The protocol's step for a queue command that is not overrun, in the firmware's terms. */
  lemma {:induction false} QueueCommandMatches(c: P.Config, s: P.State, command: Command, mode: Mode, queued: nat)
    requires c.capacity == CAPACITY && s.down != [] && !s.down[0].PlayStart? && Carries(s.down[0], command)
    requires (s.mode == P.ArmedMode && mode == Armed) || (s.mode == P.PlayingMode && mode == Playing)
    requires queued == (if command.AddEvent? then s.queued + 1 else s.queued) <= CAPACITY
    ensures var s' := P.PicoReceive(c, s);
            && s'.queued == queued && s'.mode == s.mode && s'.overflow == s.overflow && s'.underruns == s.underruns
            && s'.ended == (command.EndQueue? || s.ended)
            && s'.up == s.up + Seen(QueueReplies(command, mode, queued))
  {
    QueueRepliesSeen(command, mode, queued);
    hide Seen;
    if command.AddEvent? {
      assert [] + [P.Status(mode == Playing, CAPACITY - queued)] == [P.Status(mode == Playing, CAPACITY - queued)];
    }
  }

  lemma {:induction false} QueueFits(q: PlaybackQueue)
    requires q.Valid()
    ensures |q.Contents()| <= CAPACITY
  {
  }

  /** QUEUE_EVENT and QUEUE_END: the firmware takes the protocol's step and sends the protocol's replies, and it enters
      ERROR exactly when the protocol says the queue overflows or the acknowledgement is dropped. */
  method ReceiveQueueCommand(f: Firmware, c: P.Config, s: P.State, command: Command) returns (ghost dropped: bool)
    requires f.Inv() && f.queue.Valid() && Abstracts(c, f, s)
    requires s.down != [] && !s.down[0].PlayStart? && Carries(s.down[0], command)
    requires s.mode == P.ArmedMode || s.mode == P.PlayingMode
    modifies f, f.queue, f.queue.events, f.lateness.samples, f.wire, f.physical, f.physical.capture
    ensures f.Inv() && f.queue.Valid()
    ensures (f.mode == Error <==> P.PicoReceive(c, s).overflow || dropped)
    ensures dropped == f.wire.LostCredit(|old(f.wire.offered)|) && old(f.wire.offered) <= f.wire.offered
    ensures f.mode != Error ==> Abstracts(c, f, P.PicoReceive(c, s)) && f.flowControlFault == old(f.flowControlFault)
    ensures f.mode != Error ==> f.pushed == QueueAfter(command, old(f.pushed))
    ensures f.mode != Error ==> exists sent ::
              f.wire.offered == old(f.wire.offered) + sent && P.PicoReceive(c, s).up == s.up + Seen(sent)
  {
    hide Seen, LosesCredit, Firmware.Inv, PlaybackQueue.Valid, PlaybackQueue.Contents;
    ghost var before, mode := f.wire.offered, f.mode;
    dropped := f.DispatchQueueCommand(command);
    if f.mode != Error {
      ghost var queued := |f.queue.Contents()|;
      QueueCommandMatches(c, s, command, mode, queued);
      assert f.wire.offered == before + QueueReplies(command, mode, queued);
    }
  }

  /** What PLAY_START adds to its announcement when nothing is queued. */
  lemma {:induction false} StartMatches(c: P.Config, s: P.State, epoch: nat, more: seq<Message>)
    requires c.capacity == CAPACITY && s.down != [] && s.down[0].PlayStart?
    requires Seen(more) == if s.queued == 0 && !s.ended then [P.UnderrunNotice(CAPACITY)] else []
    ensures var s' := P.PicoReceive(c, s);
            && s'.queued == s.queued && s'.ended == s.ended && s'.overflow == s.overflow
            && s'.mode == (if s.queued == 0 && s.ended then P.FinishedMode else P.PlayingMode)
            && (s.queued == 0 && !s.ended ==> s'.underruns > 0)
            && s'.up == s.up + Seen([ModeChanged(Playing, Okay), PlayStarted(epoch)] + more)
  {
    SeenTwo(ModeChanged(Playing, Okay), PlayStarted(epoch));
    SeenOne(ModeChanged(Playing, Okay));
    SeenOne(PlayStarted(epoch));
    SeenConcat([ModeChanged(Playing, Okay), PlayStarted(epoch)], more);
    hide Seen;
    assert [] + [P.Started] == [P.Started];
    assert s.up + [P.Started] + [P.UnderrunNotice(CAPACITY)] == s.up + ([P.Started] + [P.UnderrunNotice(CAPACITY)]);
    assert [P.Started] + [] == [P.Started];
  }

  /** PLAY_START: announcement, and at once the outcome or the underrun of an empty queue. */
  method ReceivePlayStart(f: Firmware, c: P.Config, s: P.State) returns (ghost dropped: bool)
    requires f.Inv() && f.queue.Valid() && Abstracts(c, f, s)
    requires s.down != [] && s.down[0].PlayStart? && s.mode == P.ArmedMode
    modifies f, f.queue, f.lateness, f.lateness.samples, f.wire, f.physical, f.physical.capture
    ensures f.Inv() && f.queue.Valid() && Abstracts(c, f, P.PicoReceive(c, s)) && f.Fed(old(f.pushed))
    ensures f.flowControlFault == (f.running && (old(f.flowControlFault) || dropped)) && (dropped ==> f.running)
    ensures dropped == f.wire.LostCredit(|old(f.wire.offered)|) && old(f.wire.offered) <= f.wire.offered
    ensures exists sent :: f.wire.offered == old(f.wire.offered) + sent && P.PicoReceive(c, s).up == s.up + Seen(sent)
  {
    hide Seen, LosesCredit, P.PicoReceive, DrainFrames, UnderrunNotice;
    hide Firmware.Inv, Firmware.Stoppable, PlaybackQueue.Valid, PlaybackQueue.Contents;
    ghost var before := f.wire.offered;
    ghost var epoch: nat;
    epoch, dropped := f.StartPlayback();
    f.BoundaryQueue();
    ghost var more := if s.queued > 0 then [] else if f.running then [UnderrunNotice(f.underrunSince, epoch)]
        else DrainFrames(f.runs);
    MoreSeen(f.underrunSince, epoch, f.runs);
    StartMatches(c, s, epoch, more);
    f.BoundaryIsStoppable();
    assert f.wire.offered == before + ([ModeChanged(Playing, Okay), PlayStarted(epoch)] + more);
  }

  lemma {:induction false} MoreSeen(since: nat, epoch: nat, runs: seq<PlaybackRuns.Run>)
    ensures Seen([]) == [] && Seen([UnderrunNotice(since, epoch)]) == [P.UnderrunNotice(CAPACITY)]
    ensures runs != [] ==> Seen(DrainFrames(runs)) == []
  {
    SeenOne(UnderrunNotice(since, epoch));
    if runs != [] { DrainUnseen(runs); }
  }

  /** A pop in the firmware's terms. */
  lemma {:induction false} PopMatches(c: P.Config, s: P.State, more: seq<Message>)
    requires c.capacity == CAPACITY && s.mode == P.PlayingMode && 0 < s.queued <= CAPACITY
    requires Seen(more) == if s.queued == 1 && !s.ended then [P.UnderrunNotice(CAPACITY)] else []
    ensures var s' := P.PicoDispatch(c, s);
            && s'.queued == s.queued - 1 && s'.ended == s.ended && s'.overflow == s.overflow
            && s'.mode == (if s.queued == 1 && s.ended then P.FinishedMode else P.PlayingMode)
            && (s.queued == 1 && !s.ended ==> s'.underruns > 0)
            && s'.up == s.up + Seen(GrantFrames(s.queued, s.ended) + more)
  {
    P.DispatchPops(c, s);
    SeenConcat(GrantFrames(s.queued, s.ended), more);
    SeenOne(BufferStatus(Playing, CAPACITY - 1, 1));
    assert Seen([]) == [];
    hide Seen, P.PicoDispatch;
    assert s.up + [] + Seen(more) == s.up + ([] + Seen(more));
    assert s.up + [P.Status(true, 1)] + Seen(more) == s.up + ([P.Status(true, 1)] + Seen(more));
    assert s.up + Seen(more) == s.up + ([] + Seen(more));
  }

  /** One turn of the scheduler's loop: nothing when the head is not due or HID does not take it, otherwise the
      protocol's dispatch, with the grant before the underrun notice. */
  method Dispatch(f: Firmware, c: P.Config, s: P.State, takes: bool) returns (popped: bool, ghost dropped: bool)
    requires f.Inv() && f.queue.Valid() && Abstracts(c, f, s)
    requires s.mode == P.PlayingMode && f.running && !f.waitingForEvent
    modifies f, f.queue, f.lateness, f.lateness.samples, f.wire, f.physical, f.physical.capture
    ensures f.Inv() && f.queue.Valid() && f.Fed(old(f.pushed))
    ensures f.flowControlFault == (f.running && (old(f.flowControlFault) || dropped)) && (dropped ==> f.running)
    ensures dropped == f.wire.LostCredit(|old(f.wire.offered)|) && old(f.wire.offered) <= f.wire.offered
    ensures popped ==> takes
    ensures !popped ==> f.running && (!takes || old(f.now) < f.nextDeadline)
    ensures !popped ==> Abstracts(c, f, s) && f.wire.offered == old(f.wire.offered)
    ensures popped ==> Abstracts(c, f, P.PicoDispatch(c, s))
    ensures popped ==> exists sent ::
              f.wire.offered == old(f.wire.offered) + sent && P.PicoDispatch(c, s).up == s.up + Seen(sent)
  {
    hide Seen, LosesCredit, P.PicoDispatch, DrainFrames, UnderrunNotice;
    hide Firmware.Inv, Firmware.Stoppable, PlaybackQueue.Valid, PlaybackQueue.Contents;
    ghost var before, ended := f.wire.offered, f.sequenceEnded;
    QueueFits(f.queue);
    var again, refused: bool;
    again, refused, dropped := f.DispatchRound(takes);
    f.BoundaryIsStoppable();
    popped := again || !f.running || f.waitingForEvent;
    if popped {
      ghost var more :=
        if again then [] else if f.running then [UnderrunNotice(f.underrunSince, f.playbackStart)]
            else DrainFrames(f.runs);
      MoreSeen(f.underrunSince, f.playbackStart, f.runs);
      PopMatches(c, s, more);
      assert f.wire.offered == before + (GrantFrames(s.queued, ended) + more);
    }
  }

  /** A waiting scheduler looks at the queue again: an ended empty sequence finishes, an open one waits on without a
      second notice, and a refilled queue is armed, none of which Zero sees. */
  method LookAgain(f: Firmware, c: P.Config, s: P.State) returns (ghost dropped: bool)
    requires f.Inv() && f.queue.Valid() && Abstracts(c, f, s)
    requires s.mode == P.PlayingMode && f.running && f.waitingForEvent
    modifies f, f.queue, f.lateness.samples, f.wire, f.physical, f.physical.capture
    ensures f.Inv() && f.queue.Valid() && f.Fed(old(f.pushed))
    ensures Abstracts(c, f, if s.queued == 0 then P.PicoDispatch(c, s) else s)
    ensures s.queued == 0 ==> P.PicoDispatch(c, s).up == s.up
    ensures !dropped && f.flowControlFault == (f.running && old(f.flowControlFault))
    ensures dropped == f.wire.LostCredit(|old(f.wire.offered)|) && old(f.wire.offered) <= f.wire.offered
    ensures exists sent :: f.wire.offered == old(f.wire.offered) + sent && Seen(sent) == []
  {
    hide Seen, LastStart, Firmware.Inv, PlaybackQueue.Valid, PlaybackQueue.Contents, Firmware.Playable;
    hide Firmware.Armable, Firmware.Fed, Firmware.Stoppable;
    ghost var before := f.wire.offered;
    f.BoundaryIsPlayable();
    var armed: bool;
    armed, dropped := f.ArmNext();
    f.BoundaryIsStoppable();
    MoreSeen(f.underrunSince, f.playbackStart, f.runs);
    ghost var sent := if !armed && !f.running then DrainFrames(f.runs) else [];
    assert f.wire.offered == before + sent;
  }

  // ---- whole runs ----

  /** The requests in flight are events in order, each only once, and control commands only where the Pico takes
      them. */
  lemma {:induction false} OldestRequest(c: P.Config, s: P.State)
    requires P.ValidConfig(c) && P.Inv(c, s) && s.down != []
    ensures s.mode == P.ArmedMode || (s.mode == P.PlayingMode && !s.down[0].PlayStart?)
    ensures s.down[0].QueueEvent? ==> s.down[0].index == |s.received| < c.total
  {
    P.InvFits(c, s);
    hide P.Upstream, P.CreditFits;
    if P.InFlight(s) > 0 {
      assert s.down[0] == P.Flight(|s.received|, P.InFlight(s))[0];
    } else {
      assert s.down[0] == P.Control(c, s)[0];
    }
  }

  /** What the protocol's Pico has put on the wire in a run, in order. */
  function Emitted(c: P.Config, actions: seq<P.Action>): seq<P.Reply> {
    if actions == [] then []
    else
      var n := |actions| - 1;
      var before, after := P.Run(c, P.Init(c), actions[..n]), P.Run(c, P.Init(c), actions);
      Emitted(c, actions[..n])
      + if actions[n].Zero? || |after.up| < |before.up| then [] else after.up[|before.up|..]
  }

  lemma {:induction false} EmittedStep(c: P.Config, actions: seq<P.Action>, a: P.Action, sent: seq<P.Reply>)
    requires a.Zero? ==> sent == []
    requires !a.Zero? ==>
               P.Step(c, P.Run(c, P.Init(c), actions), a).up == P.Run(c, P.Init(c), actions).up + sent
    ensures Emitted(c, actions + [a]) == Emitted(c, actions) + sent
  {
    assert (actions + [a])[..|actions|] == actions;
  }

  lemma {:induction false} RunSnoc(c: P.Config, actions: seq<P.Action>, a: P.Action)
    ensures P.Run(c, P.Init(c), actions + [a]) == P.Step(c, P.Run(c, P.Init(c), actions), a)
  {
    assert (actions + [a])[..|actions|] == actions;
  }

  /** Firmware and protocol agree, no fault is pending, and the firmware was given the events the protocol says: in the
      run in progress, or in the last run once that has finished. */
  ghost predicate Linked(c: P.Config, f: Firmware, s: P.State, events: seq<Event>)
    reads f, f.queue, f.queue.events
  {
    && f.queue.Valid() && Abstracts(c, f, s) && |s.received| <= |events| && !f.flowControlFault
    && (s.mode != P.FinishedMode ==> f.pushed == events[..|s.received|])
    && (s.mode == P.FinishedMode ==> !f.running && f.Fed(events[..|s.received|]))
  }

  /** The command that carries a request. */
  function CommandFor(r: P.Request, events: seq<Event>): (command: Command)
    requires r.QueueEvent? ==> r.index < |events|
    ensures Carries(r, command)
  {
    match r
    case QueueEvent(i) => AddEvent(events[i].offset, events[i].report)
    case QueueEnd => EndQueue
    case PlayStart => StartPlay
  }

  lemma {:induction false} ReceivedNext(c: P.Config, s: P.State, events: seq<Event>, pushed: seq<Event>)
    requires s.down != [] && |s.received| <= |events| && pushed == events[..|s.received|]
               && !P.PicoReceive(c, s).overflow
    requires s.down[0].QueueEvent? ==> s.down[0].index == |s.received| < |events|
    ensures |P.PicoReceive(c, s).received| <= |events|
    ensures QueueAfter(CommandFor(s.down[0], events), pushed) == events[..|P.PicoReceive(c, s).received|]
    ensures !s.down[0].PlayStart? ==> P.PicoReceive(c, s).mode == s.mode
    ensures s.down[0].PlayStart? ==> P.PicoReceive(c, s).received == s.received
    ensures s.down[0].PlayStart? && s.mode == P.ArmedMode ==> P.PicoReceive(c, s).mode != P.ArmedMode
  {
    if s.down[0].QueueEvent? {
      var n := |s.received|;
      assert events[..n + 1] == events[..n] + [events[n]];
    }
  }

  /** The Pico takes the oldest request from the wire. */
  method TakeRequest(c: P.Config, f: Firmware, s: P.State, events: seq<Event>)
      returns (ghost lost: bool, ghost sent: seq<Message>)
    requires P.ValidConfig(c) && P.Inv(c, s) && s.down != [] && c.total == |events|
    requires f.Inv() && Linked(c, f, s, events)
    modifies f, f.queue, f.queue.events, f.lateness, f.lateness.samples, f.wire, f.physical, f.physical.capture
    ensures f.Inv() && f.queue.Valid()
    ensures f.mode == Error || f.flowControlFault <==> lost || P.PicoReceive(c, s).overflow
    ensures lost == f.wire.LostCredit(|old(f.wire.offered)|) && old(f.wire.offered) <= f.wire.offered
    ensures !lost && !P.PicoReceive(c, s).overflow ==>
              Linked(c, f, P.PicoReceive(c, s), events)
              && f.wire.offered == old(f.wire.offered) + sent && P.PicoReceive(c, s).up == s.up + Seen(sent)
  {
    hide Seen, LosesCredit, P.PicoReceive, P.Inv, P.ValidConfig, Firmware.Inv, PlaybackQueue.Valid;
    hide PlaybackQueue.Contents;
    OldestRequest(c, s);
    sent := [];
    if s.down[0].PlayStart? {
      lost := ReceivePlayStart(f, c, s);
    } else {
      lost := ReceiveQueueCommand(f, c, s, CommandFor(s.down[0], events));
    }
    f.BoundaryIsStoppable();
    if !lost && !P.PicoReceive(c, s).overflow {
      ReceivedNext(c, s, events, old(f.pushed));
      sent :| f.wire.offered == old(f.wire.offered) + sent && P.PicoReceive(c, s).up == s.up + Seen(sent);
    }
  }

  lemma {:induction false} DispatchKeeps(c: P.Config, s: P.State)
    requires s.mode == P.PlayingMode
    ensures P.PicoDispatch(c, s).received == s.received
    ensures P.PicoDispatch(c, s).mode == P.PlayingMode || P.PicoDispatch(c, s).mode == P.FinishedMode
    ensures Seen([]) == []
  {
  }

  /** What may happen next: Zero runs, a command is dispatched, the scheduler gets a turn, which HID may or may not let
      send a report, or the watchdog does. */
  datatype Move = ZeroRuns | CommandArrives | Turn(takes: bool) | Watchdog

  function ActionOf(m: Move): P.Action {
    match m
    case ZeroRuns => P.Zero
    case CommandArrives => P.Receive
    case Turn(_) => P.Dispatch
    case Watchdog => P.Watch
  }

  /** Whether a move was a step of the protocol, and if not, why: no request is on its way or no run in progress, HID
      refused the report, the head was not due, a waiting scheduler aimed at a new head, the watchdog kept quiet. */
  datatype Why = Acted | Nothing | Refused | NotDue | Rearmed | Quiet

  /** Zero always takes its step, the Pico takes every request there is, and its scheduler a report unless HID refuses
      or the head is not due. */
  predicate Explains(s: P.State, m: Move, why: Why) {
    match m
    case ZeroRuns => why == Acted
    case CommandArrives => why == if s.down != [] then Acted else Nothing
    case Turn(takes) =>
      if s.mode != P.PlayingMode then why == Nothing
      else
        && (why == Acted || why == Refused || why == NotDue || why == Rearmed)
        && (why == Refused ==> !takes) && (s.queued == 0 ==> why != Rearmed)
        && (why == Acted && s.queued > 0 ==> takes)
    case Watchdog => why == Acted || why == Quiet
  }

  /** The steps of the protocol among the moves. */
  function Steps(moves: seq<Move>, whys: seq<Why>): seq<P.Action>
    requires |whys| <= |moves|
    decreases |whys|
  {
    if whys == [] then []
    else
      var n := |whys| - 1;
      Steps(moves, whys[..n]) + if whys[n] == Acted then [ActionOf(moves[n])] else []
  }

  /** Every move was explained in the state in which it was made. */
  ghost predicate AllExplained(c: P.Config, moves: seq<Move>, whys: seq<Why>)
    requires |whys| <= |moves|
  {
    forall i :: 0 <= i < |whys| ==> Explains(P.Run(c, P.Init(c), Steps(moves, whys[..i])), moves[i], whys[i])
  }

  lemma {:induction false} NoMoves(c: P.Config, moves: seq<Move>)
    ensures Steps(moves, []) == [] && AllExplained(c, moves, [])
  {
  }

  lemma {:induction false} TurnExplained(s: P.State, takes: bool, why: Why)
    requires s.mode == P.PlayingMode
    requires match why
             case Acted => s.queued == 0 || takes
             case Refused => !takes
             case Rearmed => s.queued > 0
             case NotDue => true
             case _ => false
    ensures Explains(s, Turn(takes), why)
  {
  }

  lemma {:induction false} ExplainedStep(c: P.Config, moves: seq<Move>, whys: seq<Why>, why: Why)
    requires |whys| < |moves| && AllExplained(c, moves, whys)
    requires Explains(P.Run(c, P.Init(c), Steps(moves, whys)), moves[|whys|], why)
    ensures AllExplained(c, moves, whys + [why])
    ensures Steps(moves, whys + [why]) == Steps(moves, whys) + if why == Acted then [ActionOf(moves[|whys|])] else []
  {
    var more := whys + [why];
    assert more[..|whys|] == whys;
    forall i | 0 <= i < |more|
      ensures Explains(P.Run(c, P.Init(c), Steps(moves, more[..i])), moves[i], more[i])
    {
      if i < |whys| { assert more[..i] == whys[..i]; }
    }
  }

  /** The scheduler gets a turn in task(). */
  method TakeTurn(c: P.Config, f: Firmware, s: P.State, events: seq<Event>, takes: bool)
      returns (why: Why, ghost lost: bool, ghost sent: seq<Message>)
    requires f.Inv() && Linked(c, f, s, events) && f.running && s.mode == P.PlayingMode
    modifies f, f.queue, f.queue.events, f.lateness, f.lateness.samples, f.wire, f.physical, f.physical.capture
    ensures f.Inv() && f.queue.Valid()
    ensures (f.mode == Error || f.flowControlFault <==> lost)
    ensures lost == f.wire.LostCredit(|old(f.wire.offered)|) && old(f.wire.offered) <= f.wire.offered
    ensures !lost ==> f.wire.offered == old(f.wire.offered) + sent
    ensures !lost && why == Acted ==>
              Linked(c, f, P.PicoDispatch(c, s), events) && P.PicoDispatch(c, s).up == s.up + Seen(sent)
    ensures !lost && why != Acted ==> Linked(c, f, s, events) && Seen(sent) == []
    ensures Explains(s, Turn(takes), why) && (why == NotDue ==> f.running && old(f.now) < f.nextDeadline)
    ensures why == Rearmed ==> old(f.waitingForEvent)
  {
    hide Seen, LosesCredit, P.PicoDispatch, Firmware.Inv, PlaybackQueue.Valid, PlaybackQueue.Contents;
    hide Explains, Firmware.Stoppable;
    sent := [];
    DispatchKeeps(c, s);
    if f.waitingForEvent {
      lost := LookAgain(f, c, s);
      why := if s.queued == 0 then Acted else Rearmed;
      sent :| f.wire.offered == old(f.wire.offered) + sent && Seen(sent) == [];
    } else {
      var acted: bool;
      acted, lost := Dispatch(f, c, s, takes);
      why := if acted then Acted else if !takes then Refused else NotDue;
      if acted {
        sent :| f.wire.offered == old(f.wire.offered) + sent && P.PicoDispatch(c, s).up == s.up + Seen(sent);
      }
    }
    TurnExplained(s, takes, why);
    f.BoundaryIsStoppable();
  }

  /** The watchdog gets a turn: it either changes nothing of this, or ends the run, after an underrun. */
  method TakeWatch(c: P.Config, f: Firmware, s: P.State, events: seq<Event>) returns (fired: bool)
    requires f.Inv() && Linked(c, f, s, events)
    modifies f, f.queue, f.lateness.samples, f.wire, f.physical, f.physical.capture
    ensures f.Inv() && f.queue.Valid() && (f.mode == Error <==> fired)
    ensures old(f.wire.offered) <= f.wire.offered && !f.wire.LostCredit(|old(f.wire.offered)|)
    ensures fired ==> s.mode == P.PlayingMode && s.underruns > 0 && GaveUp(f)
    ensures !fired ==> Linked(c, f, s, events) && f.wire.offered == old(f.wire.offered)
  {
    hide LosesCredit, Firmware.Inv, Firmware.EmptySince, PlaybackQueue.Valid, PlaybackQueue.Contents;
    f.BoundaryIsStoppable();
    if f.running { f.BoundaryIsPlayable(); }
    ghost var sampled := f.CheckWatchdog();
    f.BoundaryQueue();
    fired := f.mode == Error;
  }

  /** The queue of the open sequence was found empty by every look for two seconds. */
  ghost predicate GaveUp(f: Firmware)
    reads f
  {
    f.mode == Error && f.EmptySince(f.underrunSince) && f.underrunSince + PlaybackRuns.WATCHDOG_TIMEOUT <= f.now
  }

  lemma {:induction false} RunsOn(c: P.Config, actions: seq<P.Action>)
    requires P.ValidConfig(c)
    ensures var s := P.Run(c, P.Init(c), actions);
            && !s.rejected
            && (s.overflow ==> s.underruns > 0 && c.total > c.prebuffer + c.capacity)
            && (s.mode == P.ExpiredMode ==> s.underruns > 0 && c.prebuffer < c.total)
            && (!s.overflow && s.mode != P.ExpiredMode ==> P.Inv(c, s))
    ensures Seen([]) == []
  {
    P.RunKeeps(c, actions);
  }

  lemma {:induction false} OnlyWatchExpires(c: P.Config, s: P.State)
    requires s.mode != P.ExpiredMode
    ensures P.PicoReceive(c, s).mode != P.ExpiredMode && P.PicoDispatch(c, s).mode != P.ExpiredMode
  {
  }

  lemma {:induction false} LinkedModes(c: P.Config, f: Firmware, s: P.State, events: seq<Event>)
    requires f.Inv() && Linked(c, f, s, events)
    ensures f.queue.Valid() && !f.flowControlFault && f.mode != Error
    ensures !s.overflow && s.mode != P.ExpiredMode && (f.running <==> s.mode == P.PlayingMode)
  {
    hide Firmware.Inv, Firmware.Fed, Firmware.Stoppable;
    f.BoundaryIsStoppable();
  }

  lemma {:induction false} ZeroKeepsLink(c: P.Config, f: Firmware, s: P.State, events: seq<Event>)
    requires f.Inv() && Linked(c, f, s, events)
    ensures Linked(c, f, P.ZeroStep(c, s), events)
    ensures !P.ZeroStep(c, s).overflow && P.ZeroStep(c, s).mode != P.ExpiredMode
  {
    hide Firmware.Inv, Firmware.Fed, P.ZeroStep;
    P.ZeroLeavesQueue(c, s);
    P.ZeroLeavesPico(c, s);
  }

  /** The state after a move. */
  function Moved(c: P.Config, s: P.State, move: Move, why: Why): P.State {
    if why == Acted then P.Step(c, s, ActionOf(move)) else s
  }

  /** The frames a move offered are those of the step, if it was one. */
  ghost predicate Sends(c: P.Config, s: P.State, move: Move, why: Why, sent: seq<Message>) {
    if why == Acted && move != ZeroRuns then P.Step(c, s, ActionOf(move)).up == s.up + Seen(sent) else Seen(sent) == []
  }

  /** One move of either side: Zero, the Pico's command dispatch, its scheduler or its watchdog. A move that finds
      nothing to do is no step of the protocol. */
  method MakeMove(c: P.Config, f: Firmware, events: seq<Event>, s: P.State, move: Move)
    returns (why: Why, ghost lost: bool, ghost sent: seq<Message>)
    requires P.ValidConfig(c) && P.Inv(c, s) && !s.rejected && c.total == |events|
    requires f.Inv() && Linked(c, f, s, events)
    modifies f, f.queue, f.queue.events, f.lateness, f.lateness.samples, f.wire, f.physical, f.physical.capture
    ensures f.Inv() && f.queue.Valid() && Explains(s, move, why)
    ensures var s' := Moved(c, s, move, why);
            && (f.mode == Error || f.flowControlFault <==> lost || s'.overflow || s'.mode == P.ExpiredMode)
            && (s'.mode == P.ExpiredMode ==> GaveUp(f))
            && (!lost && !s'.overflow && s'.mode != P.ExpiredMode ==>
                  && Linked(c, f, s', events)
                  && f.wire.offered == old(f.wire.offered) + sent && Sends(c, s, move, why, sent))
            && (why == Acted && move == Watchdog ==> s'.mode == P.ExpiredMode)
    ensures lost == f.wire.LostCredit(|old(f.wire.offered)|) && old(f.wire.offered) <= f.wire.offered
    ensures why == NotDue ==> f.running && old(f.now) < f.nextDeadline
  {
    hide Seen, P.PicoReceive, P.PicoDispatch, P.ZeroStep, P.Inv, P.ValidConfig;
    hide LosesCredit, GaveUp, Firmware.Inv, PlaybackQueue.Valid, Linked, Firmware.Stoppable;
    LosesNone(f.wire.room, f.wire.offered, []);
    NothingSeen();
    LinkedModes(c, f, s, events);
    OnlyWatchExpires(c, s);
    sent := [];
    why := Nothing;
    lost := false;
    match move {
      case ZeroRuns =>
        ZeroKeepsLink(c, f, s, events);
        why := Acted;
      case CommandArrives =>
        if s.down != [] {
          lost, sent := TakeRequest(c, f, s, events);
          why := Acted;
        }
      case Turn(takes) =>
        if f.running {
          why, lost, sent := TakeTurn(c, f, s, events, takes);
          if !lost && why == Acted { LinkedModes(c, f, P.PicoDispatch(c, s), events); }
        }
      case Watchdog =>
        var fired := TakeWatch(c, f, s, events);
        why := if fired then Acted else Quiet;
        if !fired { LinkedModes(c, f, s, events); }
    }
  }

  /** A move in a run of the protocol extends the run by one step, or by none. */
  method Advance(c: P.Config, f: Firmware, events: seq<Event>, actions: seq<P.Action>, s: P.State, move: Move)
    returns (actions': seq<P.Action>, s': P.State, why: Why, ghost lost: bool)
    requires P.ValidConfig(c) && c.total == |events| && s == P.Run(c, P.Init(c), actions)
    requires f.Inv() && Linked(c, f, s, events)
    modifies f, f.queue, f.queue.events, f.lateness, f.lateness.samples, f.wire, f.physical, f.physical.capture
    ensures f.Inv() && f.queue.Valid() && s' == P.Run(c, P.Init(c), actions')
    ensures f.mode == Error || f.flowControlFault <==> lost || s'.overflow || s'.mode == P.ExpiredMode
    ensures lost == f.wire.LostCredit(|old(f.wire.offered)|) && (s'.mode == P.ExpiredMode ==> GaveUp(f))
    ensures !lost && !s'.overflow && s'.mode != P.ExpiredMode ==> Linked(c, f, s', events)
    ensures old(f.wire.offered) <= f.wire.offered
    ensures Explains(s, move, why) && actions' == if why == Acted then actions + [ActionOf(move)] else actions
    ensures why == NotDue ==> f.running && old(f.now) < f.nextDeadline
    ensures why == Acted && move == Watchdog ==> s'.mode == P.ExpiredMode
    ensures !lost && !s'.overflow && s'.mode != P.ExpiredMode ==> exists sent ::
              f.wire.offered == old(f.wire.offered) + sent && Emitted(c, actions') == Emitted(c, actions) + Seen(sent)
  {
    hide Seen, P.Step, P.Inv, P.ValidConfig, P.Run, Emitted, Explains;
    hide LosesCredit, GaveUp, Firmware.Inv, Firmware.Fed, PlaybackQueue.Valid, PlaybackQueue.Contents;
    assert !s.overflow && s.mode != P.ExpiredMode;
    hide Abstracts;
    RunsOn(c, actions);
    ghost var sent: seq<Message>;
    why, lost, sent := MakeMove(c, f, events, s, move);
    actions' := if why == Acted then actions + [ActionOf(move)] else actions;
    s' := Moved(c, s, move, why);
    RunSnoc(c, actions, ActionOf(move));
    if why == Acted && !lost && !s'.overflow && s'.mode != P.ExpiredMode {
      EmittedStep(c, actions, ActionOf(move), Seen(sent));
    }
  }

  lemma {:induction false} NothingSeen()
    ensures Seen([]) == []
  {
  }

  /** The run has finished, and what HID accepted in it is `events`: each once, in order, none before its deadline. */
  ghost predicate PlayedBack(f: Firmware, events: seq<Event>)
    reads f
  {
    && f.runs != []
    && var run := f.runs[|f.runs| - 1];
       run.finished && PlaybackRuns.Events(run.history.sent) == events
           && PlaybackRuns.AllOnTime(run.epoch, run.history.sent)
  }

  lemma {:induction false} FinishedIsPlayed(c: P.Config, f: Firmware, s: P.State, events: seq<Event>)
    requires c.total == |events| && P.Inv(c, s) && s.mode == P.FinishedMode && f.Inv() && Linked(c, f, s, events)
    ensures PlayedBack(f, events)
  {
    hide P.Downstream, P.Upstream, P.CreditFits;
    hide Firmware.Parts, Firmware.Conserved, Firmware.Measured, Firmware.HeadArmed, Firmware.Inputs;
    assert events[..|s.received|] == events;
    PlaybackRuns.GoodRunsAt(f.runs, |f.runs| - 1);
    PlaybackRuns.FinishedRunIsComplete(f.runs[|f.runs| - 1]);
  }

  /** Zero and the Pico over a whole playback, from QUEUE_CLEAR in ARMED, for any recording and any interleaving of
      moves, each of which is a step of the protocol unless there is a stated reason why it cannot be one: the firmware
      follows a run of the protocol until it enters ERROR or raises its flow-control fault, which happens exactly when
      the protocol overruns the queue, a frame that carries credit is dropped, or the watchdog finds that the queue of
      an open sequence has been empty for two seconds. */
  method PlayRecording(c: P.Config, f: Firmware, events: seq<Event>, moves: seq<Move>)
    returns (actions: seq<P.Action>, ghost whys: seq<Why>, ghost first: nat)
    requires P.ValidConfig(c) && c.capacity == CAPACITY && c.total == |events|
    requires f.Inv() && f.queue.Valid() && f.mode == Armed && !f.flowControlFault
    modifies f, f.queue, f.queue.events, f.lateness, f.lateness.samples, f.wire, f.physical, f.physical.capture
    ensures f.Inv() && f.queue.Valid()
    ensures |whys| <= |moves| && actions == Steps(moves, whys) && AllExplained(c, moves, whys)
    ensures f.mode != Error && !f.flowControlFault ==> |whys| == |moves|
    ensures f.mode == Error || f.flowControlFault
            <==> var s := P.Run(c, P.Init(c), actions);
                 f.wire.LostCredit(|old(f.wire.offered)|) || s.overflow || s.mode == P.ExpiredMode
    ensures var s := P.Run(c, P.Init(c), actions);
            f.mode != Error && !f.flowControlFault ==>
              && Linked(c, f, s, events)
              && first <= |f.wire.offered| && Emitted(c, actions) == Seen(f.wire.offered[first..])
              && (s.mode == P.FinishedMode ==> PlayedBack(f, events))
    ensures var s := P.Run(c, P.Init(c), actions);
            && !s.rejected
            && (s.overflow ==> s.underruns > 0 && c.total > c.prebuffer + c.capacity)
            && (s.mode == P.ExpiredMode ==> s.underruns > 0 && c.prebuffer < c.total && GaveUp(f))
  {
    hide Seen, LosesCredit, P.Run, P.Inv, P.ValidConfig, Emitted, Firmware.Inv, PlaybackQueue.Valid;
    hide PlaybackQueue.Contents, Firmware.Fed, Explains, AllExplained, Steps, GaveUp, Linked;
    actions := [];
    var s := P.Init(c);
    ghost var lost := OpenRun(c, f, events);
    first := |f.wire.offered|;
    whys := [];
    NoMoves(c, moves);
    var i := 0;
    while i < |moves| && f.mode != Error && !f.flowControlFault
      invariant i == |whys| <= |moves| && actions == Steps(moves, whys) && AllExplained(c, moves, whys)
      invariant f.Inv() && f.queue.Valid() && s == P.Run(c, P.Init(c), actions)
      invariant f.mode == Error || f.flowControlFault
                <==> f.wire.LostCredit(|old(f.wire.offered)|) || s.overflow || s.mode == P.ExpiredMode
      invariant s.mode == P.ExpiredMode ==> GaveUp(f)
      invariant old(f.wire.offered) <= f.wire.offered
      invariant f.mode != Error && !f.flowControlFault ==>
                  && Linked(c, f, s, events)
                  && first <= |f.wire.offered| && Emitted(c, actions) == Seen(f.wire.offered[first..])
    {
      ghost var before := f.wire.offered;
      ghost var emitted := Emitted(c, actions);
      var why: Why;
      actions, s, why, lost := Advance(c, f, events, actions, s, moves[i]);
      ExplainedStep(c, moves, whys, why);
      whys := whys + [why];
      LosesMore(f.wire.room, before, f.wire.offered[|before|..], |old(f.wire.offered)|);
      assert f.wire.offered == before + f.wire.offered[|before|..];
      if f.mode != Error && !f.flowControlFault {
        ghost var sent :| f.wire.offered == before + sent && Emitted(c, actions) == emitted + Seen(sent);
        SeenSince(before, sent, first);
      }
      i := i + 1;
    }
    RunsOn(c, actions);
    if f.mode != Error && !f.flowControlFault && s.mode == P.FinishedMode {
      FinishedIsPlayed(c, f, s, events);
    }
  }

  lemma {:induction false} SeenSince(before: seq<Message>, sent: seq<Message>, first: nat)
    requires first <= |before|
    ensures Seen((before + sent)[first..]) == Seen(before[first..]) + Seen(sent)
  {
    assert (before + sent)[first..] == before[first..] + sent;
    SeenConcat(before[first..], sent);
  }

  /** QUEUE_CLEAR in ARMED puts both sides in the initial state of the protocol. */
  method OpenRun(c: P.Config, f: Firmware, events: seq<Event>) returns (ghost lost: bool)
    requires c.capacity == CAPACITY
    requires f.Inv() && f.queue.Valid() && f.mode == Armed && !f.flowControlFault
    modifies f, f.queue, f.queue.events, f.lateness.samples, f.wire, f.physical, f.physical.capture
    ensures f.Inv() && f.queue.Valid()
    ensures (f.mode == Error || f.flowControlFault <==> lost) && lost == f.wire.LostCredit(|old(f.wire.offered)|)
    ensures old(f.wire.offered) <= f.wire.offered && (!lost ==> Linked(c, f, P.Init(c), events))
    ensures P.Init(c) == P.Run(c, P.Init(c), []) && Emitted(c, []) == [] == Seen([])
  {
    hide LosesCredit, LastStart, Seen, Firmware.Inv, Firmware.Stoppable, Firmware.CreditKept, PlaybackQueue.Valid;
    hide PlaybackQueue.Contents;
    lost := f.DispatchQueueCommand(ClearQueue);
    f.BoundaryIsStoppable();
  }
}
