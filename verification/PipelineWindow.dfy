/** The pipeline window of zero/app/playback.py: how many events Zero has on their way at a time. */
module PipelineWindow {
  import opened CreditProtocol
  import opened UartTransports

  /** PIPELINE_WINDOW of zero/app/playback.py. */
  const DEPLOYED_WINDOW: nat := 4

  // ---- batches ----

  /** A batch is as large as window, credit and what is left to send allow, and no larger. */
  predicate BatchFits(c: Config, s: State) {
    match s.phase
    case Sending(sent, batch) =>
      && 0 < batch <= c.window && batch <= s.free && s.next + batch <= Stop(c, s) && sent <= batch
      && (batch == c.window || batch == s.free || s.next + batch == Stop(c, s))
    case AwaitAcks(left, batch) => left <= batch <= c.window
    case _ => true
  }

  lemma {:induction false} TopFits(c: Config, s: State)
    requires ValidConfig(c) && s.phase.Top?
    ensures BatchFits(c, ZeroTop(c, s))
  {
  }

  lemma {:induction false} ZeroFits(c: Config, s: State)
    requires ValidConfig(c) && BatchFits(c, s)
    ensures BatchFits(c, ZeroStep(c, s))
  {
    hide Take, ZeroTop;
    if s.phase.Top? {
      TopFits(c, s);
    } else {
      OtherFits(c, s);
    }
    hide ZeroSend, ZeroAck, ZeroCredit, ZeroReady, ZeroStarted, BatchFits;
  }

  lemma {:induction false} OtherFits(c: Config, s: State)
    requires BatchFits(c, s) && !s.phase.Top?
    ensures s.phase.Sending? ==> BatchFits(c, ZeroSend(s))
    ensures s.phase.AwaitAcks? ==> BatchFits(c, ZeroAck(s))
    ensures BatchFits(c, ZeroCredit(s)) || !s.phase.AwaitCredit?
    ensures BatchFits(c, ZeroReady(s)) || !s.phase.AwaitReady?
    ensures BatchFits(c, ZeroStarted(s)) || !s.phase.AwaitStarted?
  {
    hide Take;
  }

  lemma {:induction false} PicoLeavesZero(c: Config, s: State)
    ensures ZeroSame(s, PicoReceive(c, s)) && ZeroSame(s, PicoDispatch(c, s)) && ZeroSame(s, PicoWatch(s))
  {
    hide Report;
  }

  lemma {:induction false} PicoFits(c: Config, s: State)
    requires BatchFits(c, s)
    ensures BatchFits(c, PicoReceive(c, s)) && BatchFits(c, PicoDispatch(c, s)) && BatchFits(c, PicoWatch(s))
  {
    PicoLeavesZero(c, s);
    hide PicoReceive, PicoDispatch, PicoWatch;
  }

  /** In every run, whatever underruns it has, Zero sends batches of at most the window and waits for all their
      acknowledgements; and a smaller batch has used up the credit or reached what is to be sent. */
  lemma {:induction false} BatchesKeepWindow(c: Config, actions: seq<Action>)
    requires ValidConfig(c)
    ensures var s := Run(c, Init(c), actions);
            && (s.phase.Sending? ==>
                  && 0 < s.phase.batch <= c.window && s.phase.batch <= s.free
                  && s.next + s.phase.batch <= Stop(c, s)
                  && (s.phase.batch < c.window ==>
                        s.phase.batch == s.free || s.next + s.phase.batch == Stop(c, s)))
            && (s.phase.AwaitAcks? ==> s.phase.batch <= c.window)
            && BatchFits(c, s) && Unconfirmed(s) <= c.window
  {
    if actions != [] {
      var s := Run(c, Init(c), actions[..|actions| - 1]);
      BatchesKeepWindow(c, actions[..|actions| - 1]);
      hide BatchFits, Stop, ZeroStep, PicoReceive, PicoDispatch;
      ZeroFits(c, s);
      PicoFits(c, s);
    }
  }

  // ---- what is in flight ----

  /** No status behind an underrun notice. */
  ghost predicate StatusesFirst(up: seq<Reply>) {
    forall i, j :: 0 <= i < j < |up| && up[i].UnderrunNotice? ==> !up[j].Status?
  }

  lemma {:induction false} TakeKeepsOrder(up: seq<Reply>, wanted: set<Kind>)
    requires StatusesFirst(up)
    ensures Take(up, wanted).Some? ==> StatusesFirst(Take(up, wanted).rest)
    ensures Take(up, wanted).Some? ==> forall r :: r in Take(up, wanted).rest ==> r in up
  {
    if up != [] && up[0].Kind() !in wanted {
      TakeKeepsOrder(up[1..], wanted);
      if Take(up[1..], wanted).Some? {
        var rest := Take(up[1..], wanted).rest;
        forall j | 0 < j < |rest| + 1 && up[0].UnderrunNotice?
          ensures !([up[0]] + rest)[j].Status?
        {
          assert ([up[0]] + rest)[j] == rest[j - 1];
          assert rest[j - 1] in up[1..];
        }
      }
    }
  }

  /** With a status on its way and none behind a notice, _await_credit takes the status. */
  lemma {:induction false} StatusTaken(up: seq<Reply>)
    requires StatusesFirst(up) && Filter(up, StatusKind) != []
    ensures Take(up, {StatusKind, UnderrunKind}).Some? && Take(up, {StatusKind, UnderrunKind}).reply.Status?
  {
    if up[0].Kind() != StatusKind {
      FilterSource(up, StatusKind, 0);
      StatusTaken(up[1..]);
    }
  }

  /** The credit Zero will hold once the acknowledgements it waits for are in. */
  function Awaited(s: State): nat
    requires Unconfirmed(s) <= |Acks(s)|
  {
    if Unconfirmed(s) > 0 then Credit(Acks(s)[Unconfirmed(s) - 1]) else s.free
  }

  /** One grant is on its way behind the acknowledgements; Zero has no credit before it takes it. */
  ghost predicate GrantAhead(s: State) {
    && InFlight(s) == 0 && ToSend(s) == 0 && |Acks(s)| == Unconfirmed(s) + 1
    && Awaited(s) == 0 && StatusesFirst(s.up)
  }

  /** Every status on its way is the acknowledgement of one event that Zero waits for, except such a grant, and except
      when every event has been received. */
  ghost predicate Orderly(c: Config, s: State) {
    Closing(s) || |s.received| == c.total || |Acks(s)| + InFlight(s) == Unconfirmed(s) || GrantAhead(s)
  }

  lemma {:induction false} NoNotices(up: seq<Reply>)
    requires Filter(up, UnderrunKind) == []
    ensures StatusesFirst(up)
  {
    forall i | 0 <= i < |up|
      ensures !up[i].UnderrunNotice?
    {
      NoneOfKind(up, UnderrunKind, i);
    }
  }

  lemma {:induction false} NoneOfKind(up: seq<Reply>, kind: Kind, i: nat)
    requires Filter(up, kind) == [] && i < |up|
    ensures up[i].Kind() != kind
  {
    if i > 0 { NoneOfKind(up[1..], kind, i - 1); }
  }

  /** Without an underrun that is what sound credit means. */
  lemma {:induction false} SoundIsOrderly(c: Config, s: State)
    requires Inv(c, s) && s.underruns == 0
    ensures Orderly(c, s)
  {
    NoNotices(s.up);
    assert ToSend(s) >= 0 && InFlight(s) >= 0;
    hide Filter, Upstream, Downstream, PicoAgrees, StatusesFirst, CreditSound;
    if !Closing(s) { SoundOrderly(c, s); }
  }

  lemma {:induction false} SoundOrderly(c: Config, s: State)
    requires CreditSound(c, s) && StatusesFirst(s.up) && ToSend(s) >= 0 && InFlight(s) >= 0
    ensures Orderly(c, s)
  {
    hide Filter, StatusesFirst, InFlight, ToSend, Unconfirmed;
  }

  lemma {:induction false} TopOrderly(c: Config, s: State)
    requires Inv(c, s) && Orderly(c, s) && s.phase.Top?
    ensures Orderly(c, ZeroTop(c, s))
  {
    hide Filter, Upstream, PicoAgrees, CreditFits, StatusesFirst;
  }

  lemma {:induction false} SendOrderly(c: Config, s: State)
    requires Inv(c, s) && Orderly(c, s) && s.phase.Sending?
    ensures Orderly(c, ZeroSend(s))
  {
    hide Filter, Upstream, PicoAgrees, CreditFits, StatusesFirst;
  }

  /** An acknowledgement consumed is one less to wait for. */
  lemma {:induction false} ConsumedOrderly(c: Config, s: State, s': State)
    requires Orderly(c, s) && s.phase.AwaitAcks? && s.phase.left > 0 && Acks(s) != []
    requires s'.phase == AwaitAcks(s.phase.left - 1, s.phase.batch) && s'.next == s.next
    requires s'.received == s.received && s'.ended == s.ended && s'.free == Credit(Acks(s)[0])
    requires Acks(s') == Acks(s)[1..] && (StatusesFirst(s.up) ==> StatusesFirst(s'.up))
    ensures Orderly(c, s')
  {
    assert InFlight(s') == InFlight(s) && ToSend(s') == ToSend(s) && Unconfirmed(s') == Unconfirmed(s) - 1;
    hide Acks, StatusesFirst, InFlight, ToSend, Unconfirmed;
  }

  lemma {:induction false} AckOrderly(c: Config, s: State)
    requires Inv(c, s) && Orderly(c, s) && s.phase.AwaitAcks?
    ensures Orderly(c, ZeroAck(s))
  {
    hide Filter, StatusesFirst, AllCarry, Removed, Take;
    if s.phase.left > 0 && Acks(s) != [] {
      AckFields(s);
      AckTaken(c, s);
      OldestAck(c, s);
      if StatusesFirst(s.up) { TakeKeepsOrder(s.up, {StatusKind}); }
      assert ZeroAck(s).up == Take(s.up, {StatusKind}).rest && ZeroAck(s).next == s.next;
      hide Orderly, Acks, ZeroAck, Inv;
      ConsumedOrderly(c, s, ZeroAck(s));
    } else {
      BatchFields(c, s);
      AckFields(s);
      assert ZeroAck(s).up == s.up by { OldestAck(c, s); }
      hide Inv;
    }
  }

  lemma {:induction false} CreditOrderly(c: Config, s: State)
    requires Inv(c, s) && Orderly(c, s) && s.phase.AwaitCredit?
    ensures Orderly(c, ZeroCredit(s))
  {
    TakeRemovesOne(s.up, {StatusKind, UnderrunKind});
    if GrantAhead(s) { StatusTaken(s.up); }
    if Acks(s) != [] { AllCarryOldest(Acks(s), Serving(s), 0); }
    var taken := Take(s.up, {StatusKind, UnderrunKind});
    assert Upstream(c, s) && InFlight(s) >= 0;
    hide Filter, Take, PicoAgrees, CreditFits, StatusesFirst, Downstream, AllCarry;
    if taken.Some? {
      assert taken.reply.Status? ==> taken.reply.playing == s.feeding;
      var s' := ZeroCredit(s);
      assert InFlight(s') == InFlight(s) && s'.up == taken.rest;
      hide Upstream, InFlight, ZeroCredit;
    }
  }

  lemma {:induction false} StartedOrderly(c: Config, s: State)
    requires Inv(c, s) && Orderly(c, s) && s.phase.AwaitStarted?
    ensures Orderly(c, ZeroStarted(s))
  {
    TakeRemovesOne(s.up, {StartedKind});
    if StatusesFirst(s.up) { TakeKeepsOrder(s.up, {StartedKind}); }
    hide Filter, Take, PicoAgrees, CreditFits, StatusesFirst, Downstream, AllCarry;
  }

  lemma {:induction false} ReadyOrderly(c: Config, s: State)
    requires ValidConfig(c) && Inv(c, s) && s.phase.AwaitReady?
    ensures Orderly(c, ZeroReady(s))
  {
    ReadyLeavesQueue(s);
    hide Filter, Take, CreditFits, Upstream, AllCarry;
  }

  lemma {:induction false} ZeroOrderly(c: Config, s: State)
    requires ValidConfig(c) && Inv(c, s) && Orderly(c, s)
    ensures Orderly(c, ZeroStep(c, s))
  {
    hide Orderly, Inv, ZeroTop, ZeroSend, ZeroAck, ZeroCredit, ZeroReady, ZeroStarted;
    match s.phase
    case Top => TopOrderly(c, s);
    case Sending(_, _) => SendOrderly(c, s);
    case AwaitAcks(_, _) => AckOrderly(c, s);
    case AwaitCredit => CreditOrderly(c, s);
    case AwaitReady => ReadyOrderly(c, s);
    case AwaitStarted => StartedOrderly(c, s);
    case Done =>
  }

  lemma {:induction false} EventOrderly(c: Config, s: State)
    requires Inv(c, s) && Orderly(c, s) && s.down != [] && s.down[0].QueueEvent? && s.queued < c.capacity
    ensures Orderly(c, PicoReceive(c, s))
  {
    OldestRequest(c, s);
    EventFields(c, s);
    var s' := PicoReceive(c, s);
    FilterOne(s.up, Status(s.mode == PlayingMode, c.capacity - s.queued - 1), StatusKind);
    assert InFlight(s') == InFlight(s) - 1;
    assert Acks(s') == Acks(s) + [Status(s.mode == PlayingMode, c.capacity - s.queued - 1)];
    hide Filter, Inv, PicoReceive, StatusesFirst;
  }

  lemma {:induction false} PlayOrderly(c: Config, s: State)
    requires ValidConfig(c) && Inv(c, s) && Orderly(c, s) && s.down != [] && s.down[0].PlayStart?
    ensures Orderly(c, PicoReceive(c, s))
  {
    PlayDown(c, s);
    var s' := PicoReceive(c, s);
    assert s.queued > 0 || s.ended;
    assert s'.up == s.up + [Started];
    FilterOne(s.up, Started, StatusKind);
    assert StatusesFirst(s.up) ==> StatusesFirst(s'.up);
    hide Filter, Inv, PicoReceive, StatusesFirst;
  }

  lemma {:induction false} ReceiveOrderly(c: Config, s: State)
    requires ValidConfig(c) && Inv(c, s) && Orderly(c, s)
    requires s.down != [] && (s.down[0].QueueEvent? ==> s.queued < c.capacity)
    ensures Orderly(c, PicoReceive(c, s))
  {
    match s.down[0]
    case QueueEvent(_) => EventOrderly(c, s);
    case QueueEnd =>
    case PlayStart => PlayOrderly(c, s);
  }

  /** A pop from full after an underrun, or one of the first prebuffer, leaves nothing more to send. */
  lemma {:induction false} LateGrant(c: Config, s: State)
    requires Inv(c, s) && s.queued == c.capacity && s.underruns > 0 && c.total <= c.prebuffer + c.capacity
    ensures |s.received| == c.total
  {
    hide Upstream, CreditFits, Flight;
  }

  /** A notice goes behind everything else. */
  lemma {:induction false} NoticeOrderly(c: Config, s: State, s': State)
    requires Orderly(c, s) && ZeroSame(s, s') && s'.received == s.received && s'.ended == s.ended
    requires s'.up == s.up + [UnderrunNotice(c.capacity)]
    ensures Orderly(c, s')
  {
    FilterOne(s.up, UnderrunNotice(c.capacity), StatusKind);
    assert Acks(s') == Acks(s);
    assert StatusesFirst(s.up) ==> StatusesFirst(s'.up);
    hide Filter, StatusesFirst;
  }

  /** The grant of a run without an underrun is the first and goes behind the acknowledgements. */
  lemma {:induction false} GrantOrderly(c: Config, s: State, s': State)
    requires Inv(c, s) && Orderly(c, s) && s.underruns == 0 && s.mode == PlayingMode && 0 < s.queued <= c.capacity
    requires s' == s.(queued := s.queued - 1, dispatched := s.dispatched + 1, up := Granted(c, s))
    ensures Orderly(c, s')
  {
    assert Filter(s.up, UnderrunKind) == [];
    FilterOne(s.up, Status(true, 1), UnderrunKind);
    NoNotices(s'.up);
    assert ToSend(s) >= 0 && InFlight(s') == InFlight(s) >= 0;
    assert Closing(s) || CreditSound(c, s);
    hide Filter, Upstream, Downstream, PicoAgrees, StatusesFirst, CreditSound, Orderly;
    assert Closing(s) ==> Orderly(c, s');
    if !Closing(s) {
      assert CountsSame(s, s');
      PopSound(c, s, s');
      SoundOrderly(c, s');
    }
  }

  lemma {:induction false} PopOrderly(c: Config, s: State)
    requires Inv(c, s) && Orderly(c, s) && c.total <= c.prebuffer + c.capacity
    requires s.mode == PlayingMode && s.queued > 0
    ensures Orderly(c, PicoDispatch(c, s))
  {
    DispatchPops(c, s);
    var s1 := s.(queued := s.queued - 1, dispatched := s.dispatched + 1, up := Granted(c, s));
    if s.underruns == 0 {
      GrantOrderly(c, s, s1);
    } else if s.queued == c.capacity {
      LateGrant(c, s);
    }
    hide Inv, Filter, PicoDispatch, StatusesFirst;
    assert Orderly(c, s1);
    if Empties(s) { NoticeOrderly(c, s1, PicoDispatch(c, s)); }
  }

  /** Every step keeps it when the recording fits prebuffer and capacity. */
  lemma {:induction false} StepOrderly(c: Config, s: State, a: Action)
    requires ValidConfig(c) && Inv(c, s) && c.total <= c.prebuffer + c.capacity && Orderly(c, s)
    ensures Orderly(c, Step(c, s, a))
  {
    assert !s.overflow && !s.rejected && s.queued <= c.capacity;
    hide Inv, ZeroStep, Filter, StatusesFirst;
    match a
    case Zero => ZeroOrderly(c, s);
    case Receive =>
      if s.down != [] {
        if PicoReceive(c, s).overflow {
          OverflowNeeds(c, s);
          assert false;
        } else {
          ReceiveOrderly(c, s);
        }
      }
    case Dispatch =>
      if s.mode == PlayingMode && s.queued > 0 { PopOrderly(c, s); }
    case Watch =>
  }

  // ---- the window as a bound ----

  /** Every event in flight is one whose acknowledgement Zero waits for, and there are no more requests on their way
      than the window allows. */
  ghost predicate WindowKept(c: Config, s: State) {
    0 <= InFlight(s) <= Unconfirmed(s) <= c.window && |s.down| <= c.window
  }

  lemma {:induction false} OrderlyKeepsWindow(c: Config, s: State)
    requires ValidConfig(c) && Inv(c, s) && Orderly(c, s) && BatchFits(c, s)
    ensures WindowKept(c, s)
  {
    InvFits(c, s);
    hide Filter, CreditFits, StatusesFirst;
    assert s.phase.AwaitReady? ==> InFlight(s) == 0;
  }

  lemma {:induction false} RunOrderly(c: Config, actions: seq<Action>)
    requires ValidConfig(c) && c.total <= c.prebuffer + c.capacity
    ensures var s := Run(c, Init(c), actions);
            WindowKept(c, s) && ((Inv(c, s) && Orderly(c, s)) || Abandoned(c, s))
  {
    var s := Run(c, Init(c), actions);
    BatchesKeepWindow(c, actions);
    RunKeeps(c, actions);
    if actions == [] {
      InitInv(c);
      SoundIsOrderly(c, s);
      OrderlyKeepsWindow(c, s);
    } else {
      var before, a := actions[..|actions| - 1], actions[|actions| - 1];
      var t := Run(c, Init(c), before);
      RunOrderly(c, before);
      RunKeeps(c, before);
      hide Inv, Orderly, BatchFits, ZeroStep, PicoReceive, PicoDispatch;
      if Abandoned(c, t) {
        StepHalts(c, t, a);
      } else {
        StepOrderly(c, t, a);
        if Inv(c, s) { OrderlyKeepsWindow(c, s); } else { WatchLeavesWindow(c, t, a); }
      }
    }
  }

  /** The run that the watchdog ends has nothing new on its way. */
  lemma {:induction false} WatchLeavesWindow(c: Config, t: State, a: Action)
    requires Inv(c, t) && WindowKept(c, t) && Abandoned(c, Step(c, t, a))
    ensures WindowKept(c, Step(c, t, a))
  {
    ZeroLeavesQueue(c, t);
    hide ZeroStep, Filter, Upstream, Downstream, CreditFits;
  }

  /** Stop and wait: as long as a run has had no underrun, or when the recording fits prebuffer and capacity together,
      Zero never has more than a window of requests on their way, and none that it does not wait for. */
  lemma {:induction false} WindowBoundsFlight(c: Config, actions: seq<Action>)
    requires ValidConfig(c)
    requires Run(c, Init(c), actions).underruns == 0 || c.total <= c.prebuffer + c.capacity
    ensures var s := Run(c, Init(c), actions);
            0 <= InFlight(s) <= Unconfirmed(s) <= c.window && |s.down| <= c.window
    ensures Run(c, Init(c), actions).phase.Top? ==> InFlight(Run(c, Init(c), actions)) == 0
  {
    var s := Run(c, Init(c), actions);
    if c.total <= c.prebuffer + c.capacity {
      RunOrderly(c, actions);
    } else {
      RunKeeps(c, actions);
      BatchesKeepWindow(c, actions);
      hide Run;
      SoundIsOrderly(c, s);
      OrderlyKeepsWindow(c, s);
    }
  }

  /** So with the deployed window the feeder alone never fills the command ring of the Pico. */
  lemma {:induction false} CommandRingSuffices(c: Config, actions: seq<Action>)
    requires ValidConfig(c) && c.window == DEPLOYED_WINDOW
    requires Run(c, Init(c), actions).underruns == 0 || c.total <= c.prebuffer + c.capacity
    ensures |Run(c, Init(c), actions).down| < COMMAND_CAPACITY
  {
    WindowBoundsFlight(c, actions);
  }

  // ---- every run: where a grant goes ----

  /** The pop from full of an open sequence, which grants one slot. */
  predicate Granting(c: Config, s: State) {
    s.mode == PlayingMode && 0 < s.queued == c.capacity && !s.ended
  }

  /** _await_credit takes a status. */
  predicate Spending(s: State) {
    && s.phase.AwaitCredit?
    && var taken := Take(s.up, {StatusKind, UnderrunKind}); taken.Some? && taken.reply.Status?
  }

  /** Grants sent, less the statuses taken as credit. */
  function Unspent(c: Config, actions: seq<Action>): int {
    if actions == [] then 0
    else
      var before, a := actions[..|actions| - 1], actions[|actions| - 1];
      var s := Run(c, Init(c), before);
      Unspent(c, before) + (
        if s.overflow || s.rejected || s.mode == ExpiredMode then 0
        else if a.Dispatch? && Granting(c, s) then 1
        else if a.Zero? && Spending(s) then -1
        else 0)
  }

  /** Every status is the acknowledgement of an event or a grant. */
  ghost predicate Accounted(s: State, unspent: int) {
    (Closing(s) && InFlight(s) == 0) || |Acks(s)| + InFlight(s) == Unconfirmed(s) + unspent
  }

  lemma {:induction false} ClosingIsReceived(c: Config, s: State)
    requires ValidConfig(c) && Inv(c, s) && Closing(s)
    ensures InFlight(s) == 0
  {
    InvFits(c, s);
    hide Filter, Upstream, CreditFits;
  }

  lemma {:induction false} CreditAccounted(c: Config, s: State, unspent: int)
    requires Inv(c, s) && s.phase.AwaitCredit? && Accounted(s, unspent)
    ensures Accounted(ZeroCredit(s), unspent - if Spending(s) then 1 else 0)
  {
    TakeRemovesOne(s.up, {StatusKind, UnderrunKind});
    hide Filter, Take, CreditFits, Downstream, AllCarry, Upstream;
  }

  lemma {:induction false} AckAccounted(c: Config, s: State, unspent: int)
    requires Inv(c, s) && s.phase.AwaitAcks? && Accounted(s, unspent)
    ensures Accounted(ZeroAck(s), unspent)
  {
    AckFields(s);
    if s.phase.left > 0 && Acks(s) != [] { AckTaken(c, s); } else { BatchFields(c, s); }
    hide Inv, Acks, ZeroAck;
  }

  lemma {:induction false} StartedAccounted(c: Config, s: State, unspent: int)
    requires Inv(c, s) && s.phase.AwaitStarted? && Accounted(s, unspent)
    ensures Accounted(ZeroStarted(s), unspent)
  {
    TakeRemovesOne(s.up, {StartedKind});
    hide Filter, Take, CreditFits, PicoAgrees, AllCarry, Upstream, Flight;
  }

  lemma {:induction false} SendAccounted(c: Config, s: State, unspent: int)
    requires Inv(c, s) && Accounted(s, unspent)
    ensures s.phase.Top? ==> Closing(ZeroTop(c, s)) || Accounted(ZeroTop(c, s), unspent)
    ensures s.phase.Sending? ==> Accounted(ZeroSend(s), unspent)
  {
    hide Filter, CreditFits, AllCarry, Upstream, Flight;
  }

  lemma {:induction false} ReadyCloses(c: Config, s: State)
    requires Inv(c, s) && s.phase.AwaitReady?
    ensures Closing(ZeroReady(s))
  {
    ReadyLeavesQueue(s);
    TakeRemovesOne(s.up, {ReadyKind});
    var ready := Take(s.up, {ReadyKind});
    if ready.Some? { TakeRemovesOne(ready.rest, {StatusKind}); }
    hide Filter, Take, CreditFits, PicoAgrees, AllCarry, Downstream;
  }

  lemma {:induction false} ZeroAccounted(c: Config, s: State, unspent: int)
    requires ValidConfig(c) && Inv(c, s) && Inv(c, ZeroStep(c, s)) && Accounted(s, unspent)
    ensures Accounted(ZeroStep(c, s), unspent - if Spending(s) then 1 else 0)
  {
    if Closing(ZeroStep(c, s)) { ClosingIsReceived(c, ZeroStep(c, s)); }
    hide Inv, Filter, Take, ZeroAck, ZeroCredit, ZeroTop, ZeroSend, ZeroReady, ZeroStarted, Acks, InFlight;
    match s.phase
    case Top => SendAccounted(c, s, unspent);
    case Sending(_, _) => SendAccounted(c, s, unspent);
    case AwaitCredit => CreditAccounted(c, s, unspent);
    case AwaitAcks(_, _) => AckAccounted(c, s, unspent);
    case AwaitStarted => StartedAccounted(c, s, unspent);
    case AwaitReady => ReadyCloses(c, s);
    case Done =>
  }

  lemma {:induction false} EventAccounted(c: Config, s: State, unspent: int)
    requires Inv(c, s) && Accounted(s, unspent) && s.down != [] && s.down[0].QueueEvent? && s.queued < c.capacity
    ensures Accounted(PicoReceive(c, s), unspent) || Closing(s)
  {
    EventFields(c, s);
    FilterOne(s.up, Status(s.mode == PlayingMode, c.capacity - s.queued - 1), StatusKind);
    hide Filter, Inv, PicoReceive;
  }

  lemma {:induction false} DispatchAccounted(c: Config, s: State, unspent: int)
    requires Inv(c, s) && Accounted(s, unspent) && s.mode == PlayingMode && s.queued > 0
    ensures Accounted(PicoDispatch(c, s), unspent + if Granting(c, s) then 1 else 0)
  {
    DispatchPops(c, s);
    FilterOne(s.up, Status(true, 1), StatusKind);
    FilterOne(Granted(c, s), UnderrunNotice(c.capacity), StatusKind);
    var s' := PicoDispatch(c, s);
    assert InFlight(s') == InFlight(s) && Unconfirmed(s') == Unconfirmed(s);
    hide Filter, Inv, PicoDispatch, InFlight, Unconfirmed;
  }

  lemma {:induction false} PlayAccounted(c: Config, s: State, unspent: int)
    requires ValidConfig(c) && Inv(c, s) && Accounted(s, unspent) && s.down != [] && s.down[0].PlayStart?
    ensures Accounted(PicoReceive(c, s), unspent)
  {
    PlayDown(c, s);
    FilterOne(s.up, Started, StatusKind);
    assert PicoReceive(c, s).up == s.up + [Started];
    hide Filter, CreditFits, AllCarry, Upstream, Flight;
  }

  lemma {:induction false} StepAccounted(c: Config, s: State, a: Action, unspent: int)
    requires ValidConfig(c) && Inv(c, s) && Accounted(s, unspent)
    requires Inv(c, Step(c, s, a)) || Overrun(c, Step(c, s, a)) || Abandoned(c, Step(c, s, a))
    ensures var change := if a.Dispatch? && Granting(c, s) then 1 else if a.Zero? && Spending(s) then -1 else 0;
            Accounted(Step(c, s, a), unspent + change)
  {
    var s' := Step(c, s, a);
    if Inv(c, s') && Closing(s') { ClosingIsReceived(c, s'); }
    assert !s.overflow && !s.rejected && s.mode != ExpiredMode && s.queued <= c.capacity;
    ZeroLeavesQueue(c, s);
    hide Inv, ZeroStep, Filter, PicoDispatch;
    match a
    case Zero => ZeroAccounted(c, s, unspent);
    case Receive =>
      if s.down != [] && !s'.overflow {
        match s.down[0]
        case QueueEvent(_) => EventAccounted(c, s, unspent);
        case PlayStart => PlayAccounted(c, s, unspent);
        case QueueEnd =>
      }
    case Dispatch => if s.mode == PlayingMode && s.queued > 0 { DispatchAccounted(c, s, unspent); }
    case Watch =>
  }

  lemma {:induction false} RunAccounted(c: Config, actions: seq<Action>)
    requires ValidConfig(c)
    ensures Accounted(Run(c, Init(c), actions), Unspent(c, actions))
  {
    if actions != [] {
      var before, a := actions[..|actions| - 1], actions[|actions| - 1];
      var t := Run(c, Init(c), before);
      RunAccounted(c, before);
      RunKeeps(c, before);
      RunKeeps(c, actions);
      hide Inv, Accounted, Granting, Spending;
      if Inv(c, t) { StepAccounted(c, t, a, Unspent(c, before)); } else { StepHalts(c, t, a); }
    }
  }

  /** In every run, underruns or not, the events in flight and the statuses on their way are together those that Zero
      waits for and the grants it has not spent. So Zero exceeds its window by no more than the grants it has taken for
      acknowledgements. */
  lemma {:induction false} FlightIsAccounted(c: Config, actions: seq<Action>)
    requires ValidConfig(c)
    ensures var s, unspent := Run(c, Init(c), actions), Unspent(c, actions);
            InFlight(s) != 0 ==>
              && InFlight(s) == Unconfirmed(s) + (unspent - |Acks(s)|)
              && Unconfirmed(s) <= c.window && InFlight(s) <= c.window + unspent
  {
    RunAccounted(c, actions);
    BatchesKeepWindow(c, actions);
    hide Run, Unspent, Filter, InFlight, Unconfirmed, BatchFits;
  }

  // ---- longer recordings, after an underrun ----

  /** The queue is full again, Zero has no credit left, and the notice of an earlier underrun is still unread. */
  function Full(c: Config): State {
    State(Top, true, c.prebuffer + c.capacity, 0, false, [], [UnderrunNotice(c.capacity)], PlayingMode, false,
          c.capacity, Ints(0, c.prebuffer + c.capacity), c.prebuffer, 1, false)
  }

  lemma {:induction false} Refilled(c: Config, free: nat)
    requires c.prebuffer <= c.capacity
    requires Ints(0, c.prebuffer) + Ints(c.prebuffer, c.capacity) == Ints(0, c.prebuffer + c.capacity)
    ensures var s := Streaming(c, free, 0, 1, [UnderrunNotice(c.capacity)]);
            s.(next := s.next + c.capacity, free := 0, queued := c.capacity,
               received := s.received + Ints(s.next, c.capacity)) == Full(c)
    ensures var s := Streaming(c, free, 0, 1, [UnderrunNotice(c.capacity)]);
            s.next == c.prebuffer && s.queued == 0
  {
    hide Ints;
  }

  lemma {:induction false} StaleReady(c: Config, free: nat)
    requires ValidConfig(c) && c.total > c.prebuffer && 0 < free <= c.capacity
    ensures var s := Streaming(c, free, 0, 1, [UnderrunNotice(c.capacity)]);
            Ready(c, s) && Stop(c, s) == c.total && s.free == free
  {
    assert Streaming(c, free, 0, 1, [UnderrunNotice(c.capacity)]).up[1..] == [];
  }

  /** Refilling the queue behind the notice. */
  lemma {:induction false} Refill(c: Config, free: nat) returns (actions: seq<Action>)
    requires ValidConfig(c) && c.total > c.prebuffer + c.capacity && 0 < free <= c.capacity
    ensures Run(c, Streaming(c, free, 0, 1, [UnderrunNotice(c.capacity)]), actions) == Full(c)
  {
    hide Ready, Run, Filter, Ints, Stop, Streaming, Full;
    var s := Streaming(c, free, 0, 1, [UnderrunNotice(c.capacity)]);
    StaleReady(c, free);
    IntsConcat(0, c.prebuffer, c.capacity);
    Refilled(c, free);
    var n: nat;
    actions, n := Fill(c, s);
    assert n == c.capacity;
  }

  lemma {:induction false} ReachFull(c: Config) returns (actions: seq<Action>)
    requires ValidConfig(c) && c.total > c.prebuffer + c.capacity
    ensures Run(c, Init(c), actions) == Full(c)
  {
    hide Run, Streaming, Full;
    var start := StartPlaying(c);
    var dry, free := LeaveNotice(c);
    var fill := Refill(c, free);
    RunConcat(c, Init(c), start, dry);
    RunConcat(c, Init(c), start + dry, fill);
    actions := start + dry + fill;
  }

  function FirstBatch(c: Config): (b: nat)
    requires ValidConfig(c) && c.total > c.prebuffer + c.capacity
    ensures 0 < b <= c.window && b <= c.capacity
  {
    Min(Min(c.window, c.capacity), c.total - c.prebuffer - c.capacity)
  }

  /** One pop has granted a slot, and Zero has spent the stale notice on a batch of which `sent` events are out. */
  function Spent(c: Config, sent: nat): State
    requires ValidConfig(c) && c.total > c.prebuffer + c.capacity
  {
    var notice := if c.capacity == 1 then [UnderrunNotice(1)] else [];
    Full(c).(phase := Sending(sent, FirstBatch(c)), free := c.capacity,
    down := Flight(c.prebuffer + c.capacity, sent), up := [Status(true, 1)] + notice,
    queued := c.capacity - 1, dispatched := c.prebuffer + 1, underruns := if c.capacity == 1 then 2 else 1)
  }

  lemma {:induction false} SpendStale(c: Config) returns (actions: seq<Action>)
    requires ValidConfig(c) && c.total > c.prebuffer + c.capacity
    ensures Run(c, Full(c), actions) == Spent(c, 0)
  {
    var s0 := Full(c);
    var s1 := s0.(phase := AwaitCredit);
    assert Step(c, s0, Zero) == s1;
    DispatchPops(c, s1);
    var s2 := Step(c, s1, Dispatch);
    var notice := if c.capacity == 1 then [UnderrunNotice(1)] else [];
    assert s2.up == [UnderrunNotice(c.capacity)] + ([Status(true, 1)] + notice);
    assert s2.up[1..] == [Status(true, 1)] + notice;
    var s3 := Step(c, s2, Zero);
    assert s3 == s2.(phase := Top, free := c.capacity, up := [Status(true, 1)] + notice);
    assert Step(c, s3, Zero) == Spent(c, 0);
    RunOne(c, s0, [], Zero);
    RunOne(c, s0, [Zero], Dispatch);
    RunOne(c, s0, [Zero] + [Dispatch], Zero);
    RunOne(c, s0, [Zero] + [Dispatch] + [Zero], Zero);
    actions := [Zero] + [Dispatch] + [Zero] + [Zero];
  }

  /** `n` events of the batch are out. */
  function Out(s: State, n: nat): State
    requires s.phase.Sending?
  {
    s.(phase := Sending(n, s.phase.batch), down := s.down + Flight(s.next, n))
  }

  lemma {:induction false} SendNext(c: Config, s: State, n: nat)
    requires !s.overflow && !s.rejected && s.mode != ExpiredMode && s.phase.Sending? && n < s.phase.batch
    ensures Step(c, Out(s, n), Zero) == Out(s, n + 1)
  {
    FlightGrows(s.next, n);
    hide Flight;
    assert s.down + Flight(s.next, n) + [QueueEvent(s.next + n)] == s.down + Flight(s.next, n + 1);
  }

  /** Zero sends `n` events of its batch while nothing else moves. */
  lemma {:induction false} SendOn(c: Config, s: State, n: nat) returns (actions: seq<Action>)
    requires !s.overflow && !s.rejected && s.mode != ExpiredMode
    requires s.phase.Sending? && s.phase.sent == 0 && n <= s.phase.batch
    ensures Run(c, s, actions) == Out(s, n)
  {
    if n == 0 {
      actions := [];
      assert s.down + [] == s.down;
    } else {
      hide Run, Step, Out;
      actions := SendOn(c, s, n - 1);
      SendNext(c, s, n - 1);
      RunOne(c, s, actions, Zero);
      actions := actions + [Zero];
    }
  }

  /** The grant counted as the acknowledgement of an event that is still on its way. */
  function Miscounted(c: Config): State
    requires ValidConfig(c) && c.total > c.prebuffer + c.capacity
  {
    Spent(c, FirstBatch(c)).(phase := AwaitAcks(FirstBatch(c) - 1, FirstBatch(c)), free := 1,
    up := if c.capacity == 1 then [UnderrunNotice(1)] else [])
  }

  lemma {:induction false} TakeGrant(c: Config)
    requires ValidConfig(c) && c.total > c.prebuffer + c.capacity
    ensures Step(c, Step(c, Spent(c, FirstBatch(c)), Zero), Zero) == Miscounted(c)
  {
    hide FirstBatch, Flight, Ints;
    var b := FirstBatch(c);
    var waiting := Spent(c, b).(phase := AwaitAcks(b, b));
    assert Step(c, Spent(c, b), Zero) == waiting;
    var notice := if c.capacity == 1 then [UnderrunNotice(1)] else [];
    assert waiting.up == [Status(true, 1)] + notice;
    TakeFirst(Status(true, 1), notice);
    hide Take;
  }

  lemma {:induction false} Miscount(c: Config) returns (actions: seq<Action>)
    requires ValidConfig(c) && c.total > c.prebuffer + c.capacity
    ensures Run(c, Init(c), actions) == Miscounted(c)
  {
    hide Run, Step, FirstBatch, Flight, Ints, Miscounted;
    var b := FirstBatch(c);
    var full := ReachFull(c);
    var spend := SpendStale(c);
    assert Spent(c, 0).down == [] by { FlightNone(c.prebuffer + c.capacity); }
    var send := SendOn(c, Spent(c, 0), b);
    assert [] + Flight(c.prebuffer + c.capacity, b) == Flight(c.prebuffer + c.capacity, b);
    assert Out(Spent(c, 0), b) == Spent(c, b);
    TakeGrant(c);
    hide Spent, Full;
    RunConcat(c, Init(c), full, spend);
    RunConcat(c, Init(c), full + spend, send);
    RunOne(c, Init(c), full + spend + send, Zero);
    RunOne(c, Init(c), full + spend + send + [Zero], Zero);
    actions := full + spend + send + [Zero] + [Zero];
  }

  lemma {:induction false} FlightNone(i: nat)
    ensures Flight(i, 0) == []
  {
  }

  /** Stop and wait fails after an underrun, and exactly this is when: some run has an event on its way that Zero no
      longer waits for, because a grant was counted as its acknowledgement, if and only if the recording is longer than
      prebuffer and capacity together. */
  lemma {:induction false} UnawaitedIffLonger(c: Config)
    requires ValidConfig(c)
    ensures (exists actions :: var s := Run(c, Init(c), actions); InFlight(s) > Unconfirmed(s))
            <==> c.total > c.prebuffer + c.capacity
  {
    if c.total > c.prebuffer + c.capacity {
      var actions := Miscount(c);
      FlightCount(c, Miscounted(c));
      hide Run, Miscounted;
      assert InFlight(Run(c, Init(c), actions)) > Unconfirmed(Run(c, Init(c), actions));
    } else {
      forall actions ensures InFlight(Run(c, Init(c), actions)) <= Unconfirmed(Run(c, Init(c), actions)) {
        RunOrderly(c, actions);
        hide Run;
      }
    }
  }

  lemma {:induction false} FlightCount(c: Config, s: State)
    requires ValidConfig(c) && c.total > c.prebuffer + c.capacity && s == Miscounted(c)
    ensures InFlight(s) == FirstBatch(c) == Unconfirmed(s) + 1
  {
    hide FirstBatch, Ints, Flight;
    IntsLength(0, c.prebuffer + c.capacity);
  }

  lemma {:induction false} IntsLength(from: nat, n: nat)
    ensures |Ints(from, n)| == n
  {
    if n != 0 { IntsLength(from, n - 1); }
  }

  /** Zero waits for `left` acknowledgements, `flying` events are on their way, and the queue is dry. */
  ghost predicate Dripping(c: Config, s: State, left: nat, flying: nat) {
    && s.phase == AwaitAcks(left, c.window) && s.feeding && s.mode == PlayingMode && !s.ended && s.queued == 0
    && !s.overflow && !s.rejected && InFlight(s) == flying && s.down == Flight(|s.received|, flying)
    && Filter(s.up, StatusKind) == [] && s.next == c.prebuffer + c.capacity
  }

  /** The Pico receives one event, Zero takes its acknowledgement, and the event is dispatched at once. */
  lemma {:induction false} DripOne(c: Config, s: State, left: nat, flying: nat) returns (actions: seq<Action>)
    requires c.capacity > 1 && left > 0 && flying > 0 && Dripping(c, s, left, flying)
    ensures Dripping(c, Run(c, s, actions), left - 1, flying - 1) && Run(c, s, actions).free == c.capacity - 1
  {
    var ack := Status(true, c.capacity - 1);
    var s1 := Step(c, s, Receive);
    assert s1 == s.(down := s.down[1..], queued := 1, received := s.received + [s.down[0].index], up := s.up + [ack]);
    TakePast(s.up, ack, []);
    assert s.up + ([ack] + []) == s.up + [ack] && s.up + [] == s.up;
    hide Filter, Take;
    var s2 := Step(c, s1, Zero);
    assert s2 == s1.(phase := AwaitAcks(left - 1, c.window), free := c.capacity - 1, up := s.up);
    DispatchPops(c, s2);
    var s3 := Step(c, s2, Dispatch);
    FilterOne(s.up, UnderrunNotice(c.capacity), StatusKind);
    RunOne(c, s, [], Receive);
    RunOne(c, s, [Receive], Zero);
    RunOne(c, s, [Receive] + [Zero], Dispatch);
    actions := [Receive] + [Zero] + [Dispatch];
    hide PicoDispatch;
    assert s3.down == s.down[1..] == Flight(|s3.received|, flying - 1);
  }

  lemma {:induction false} Drip(c: Config, s: State, left: nat, flying: nat) returns (actions: seq<Action>)
    requires c.capacity > 1 && left < flying && Dripping(c, s, left, flying)
    ensures Dripping(c, Run(c, s, actions), 0, flying - left)
    ensures Run(c, s, actions).free == if left == 0 then s.free else c.capacity - 1
    decreases left
  {
    hide Dripping, Run, Filter, Flight;
    if left == 0 {
      actions := [];
      RunNone(c, s);
    } else {
      var one := DripOne(c, s, left, flying);
      var rest := Drip(c, Run(c, s, one), left - 1, flying - 1);
      RunConcat(c, s, one, rest);
      actions := one + rest;
    }
  }

  /** Zero opens its next window while one event of the last is still on its way. */
  lemma {:induction false} NextWindow(c: Config, t: State) returns (actions: seq<Action>)
    requires Dripping(c, t, 0, 1) && t.free >= c.window > 0 && t.next + 2 * c.window <= c.total
    ensures InFlight(Run(c, t, actions)) == c.window + 1
  {
    var w := c.window;
    var u := t.(phase := Top, next := t.next + w);
    var v := u.(phase := Sending(0, w));
    assert Step(c, t, Zero) == u && Step(c, u, Zero) == v;
    var send := SendOn(c, v, w);
    hide Dripping, Run, Step;
    RunOne(c, t, [], Zero);
    assert Run(c, t, []) == t by { RunNone(c, t); }
    RunOne(c, t, [] + [Zero], Zero);
    RunConcat(c, t, [] + [Zero] + [Zero], send);
    actions := [] + [Zero] + [Zero] + send;
  }

  lemma {:induction false} RunNone(c: Config, s: State)
    ensures Run(c, s, []) == s
  {
  }

  /** Draining the queue leaves Zero waiting for what it takes to be the rest of its batch. */
  lemma {:induction false} DrainMiscounted(c: Config) returns (actions: seq<Action>)
    requires ValidConfig(c) && c.window < c.capacity && c.total >= c.prebuffer + c.capacity + 2 * c.window
    ensures var s := Run(c, Miscounted(c), actions); Dripping(c, s, c.window - 1, c.window) && s.free == 1
  {
    actions := DispatchAll(c, Miscounted(c));
    FlightCount(c, Miscounted(c));
    IntsLength(0, c.prebuffer + c.capacity);
    assert FirstBatch(c) == c.window;
    hide Run, Ints, Flight, FirstBatch;
    IsDripping(c, Run(c, Miscounted(c), actions), c.capacity - 1);
  }

  lemma {:induction false} IsDripping(c: Config, s: State, popped: nat)
    requires ValidConfig(c) && c.capacity > 1 && c.total > c.prebuffer + c.capacity && FirstBatch(c) == c.window
    requires var m := Miscounted(c);
             s == m.(queued := 0, dispatched := m.dispatched + popped, underruns := m.underruns + 1,
                     up := m.up + [UnderrunNotice(c.capacity)])
    ensures Dripping(c, s, c.window - 1, c.window) && s.free == 1
  {
    FlightCount(c, Miscounted(c));
    IntsLength(0, c.prebuffer + c.capacity);
    assert s.up == [UnderrunNotice(c.capacity)];
    assert Filter(s.up[1..], StatusKind) == [];
    hide Ints, Flight, FirstBatch;
  }

  /** The window itself is exceeded after an underrun: with fewer slots in the window than in the queue, and two windows
      of events beyond prebuffer and capacity, some run has a whole window and one more event on their way. */
  lemma {:induction false} WindowExceeded(c: Config) returns (actions: seq<Action>)
    requires ValidConfig(c) && c.window < c.capacity && c.total >= c.prebuffer + c.capacity + 2 * c.window
    ensures InFlight(Run(c, Init(c), actions)) == c.window + 1
  {
    hide Run, Miscounted, InFlight;
    var miscount := Miscount(c);
    var dry := DrainMiscounted(c);
    var s := Run(c, Miscounted(c), dry);
    var drip := Drip(c, s, c.window - 1, c.window);
    var t := Run(c, s, drip);
    assert t.next == c.prebuffer + c.capacity;
    var send := NextWindow(c, t);
    RunConcat(c, Init(c), miscount, dry);
    RunConcat(c, Init(c), miscount + dry, drip);
    RunConcat(c, Init(c), miscount + dry + drip, send);
    actions := miscount + dry + drip + send;
  }
}
