/** The credit-controlled feeder of zero/app/playback.py against the playback queue of the Pico: two processes
    and two FIFO channels, for any capacity, pipeline window, prebuffer and number of events.

    `up` is everything the Pico has sent and Zero has not consumed: the frames Zero deferred, put back at the
    front, followed by those still on the wire. Waiting for a message type takes the first frame of that type
    and leaves the others in order. */
module CreditProtocol {

  datatype Config = Config(capacity: nat, window: nat, prebuffer: nat, total: nat)

  /** What PlaybackSession.start accepts: the prebuffer fits the queue, and a recording that is not empty has
      a non-empty prebuffer. */
  predicate ValidConfig(c: Config) {
    c.capacity >= 1 && c.window >= 1 && c.prebuffer <= c.capacity && c.prebuffer <= c.total
        && (c.total > 0 ==> c.prebuffer > 0)
  }

  datatype Kind = StatusKind | UnderrunKind | StartedKind | ReadyKind

  /** Pico to Zero. `Started` stands for MODE_CHANGED(PLAYING, OK) and PLAY_STARTED back to back. */
  datatype Reply = Status(playing: bool, free: nat) | UnderrunNotice(free: nat) | Started | PlayReady {
    function Kind(): Kind {
      if Status? then StatusKind else if UnderrunNotice? then UnderrunKind else if Started? then StartedKind else
      ReadyKind
    }
  }

  /** Zero to Pico; an event carries its position in the recording. */
  datatype Request = QueueEvent(index: nat) | QueueEnd | PlayStart

  /** Where PlaybackSession stands. `Top` is the head of the loop in _send_through. */
  datatype Phase =
    | Top
    | AwaitCredit
    | Sending(sent: nat, batch: nat)
    | AwaitAcks(left: nat, batch: nat)
    | AwaitReady
    | AwaitStarted
    | Done

  /** `ExpiredMode` is the ERROR the watchdog leads to. */
  datatype PicoMode = ArmedMode | PlayingMode | FinishedMode | ExpiredMode

  datatype State = State(
    phase: Phase, feeding: bool, next: nat, free: nat, rejected: bool,
    down: seq<Request>, up: seq<Reply>,
    mode: PicoMode, ended: bool, queued: nat, received: seq<nat>, dispatched: nat, underruns: nat, overflow: bool)

  /** Queue cleared and acknowledged: Zero knows the whole capacity is free. */
  function Init(c: Config): State {
    State(Top, false, 0, c.capacity, false, [], [], ArmedMode, false, 0, [], 0, 0, false)
  }

  datatype Taken = None | Some(reply: Reply, rest: seq<Reply>)

  /** _await and _await_credit: the first frame of a wanted kind, everything else preserved in order. */
  function Take(up: seq<Reply>, wanted: set<Kind>): Taken {
    if up == [] then None
    else if up[0].Kind() in wanted then Some(up[0], up[1..])
    else match Take(up[1..], wanted)
      case None => None
      case Some(reply, rest) => Some(reply, [up[0]] + rest)
  }

  function Min(a: nat, b: nat): nat {
    if a < b then a else b
  }

  /** The prefix _send_through is asked to send: the prebuffer in start(), everything in finish(). */
  function Stop(c: Config, s: State): nat {
    if s.feeding then c.total else c.prebuffer
  }

  // ---- Zero ----

  function ZeroTop(c: Config, s: State): State {
    if s.next < Stop(c, s) then
      if s.free == 0 then s.(phase := AwaitCredit)
      else
        var batch := Min(Min(c.window, s.free), Stop(c, s) - s.next);
        s.(phase := Sending(0, batch))
    else if s.feeding then
      // finish(): QUEUE_END follows only if events were left after start().
      if c.prebuffer < c.total then s.(phase := Done, down := s.down + [QueueEnd]) else s.(phase := Done)
    else if s.next == c.total then s.(phase := AwaitReady, down := s.down + [QueueEnd])
    else s.(phase := AwaitStarted, down := s.down + [PlayStart])
  }

  function Credit(reply: Reply): nat {
    if reply.Status? || reply.UnderrunNotice? then reply.free else 0
  }

  /** A frame that carries credit: BUFFER_STATUS must name the expected mode, PLAY_UNDERRUN is taken as it is. */
  function ZeroAccept(s: State, reply: Reply, rest: seq<Reply>, phase: Phase): State {
    if reply.Status? && reply.playing != s.feeding then s.(rejected := true, up := rest)
    else s.(free := Credit(reply), phase := phase, up := rest)
  }

  /** One turn of the batch loop: the next event, or on to the acknowledgements. */
  function ZeroSend(s: State): State
    requires s.phase.Sending?
  {
    var Sending(sent, batch) := s.phase;
    if sent >= batch then s.(phase := AwaitAcks(batch, batch))
    else s.(phase := Sending(sent + 1, batch), down := s.down + [QueueEvent(s.next + sent)])
  }

  function ZeroAck(s: State): State
    requires s.phase.AwaitAcks?
  {
    var AwaitAcks(left, batch) := s.phase;
    if left == 0 then s.(phase := Top, next := s.next + batch)
    else match Take(s.up, {StatusKind})
      case None => s
      case Some(reply, rest) => ZeroAccept(s, reply, rest, AwaitAcks(left - 1, batch))
  }

  function ZeroCredit(s: State): State {
    match Take(s.up, {StatusKind, UnderrunKind})
    case None => s
    case Some(reply, rest) => ZeroAccept(s, reply, rest, if Credit(reply) > 0 then Top else AwaitCredit)
  }

  /** PLAY_READY, then the acknowledgement of QUEUE_END, then PLAY_START. */
  function ZeroReady(s: State): State {
    match Take(s.up, {ReadyKind})
    case None => s
    case Some(_, afterReady) =>
      match Take(afterReady, {StatusKind})
      case None => s
      case Some(reply, rest) =>
        var s' := ZeroAccept(s, reply, rest, AwaitStarted);
        if s'.rejected then s' else s'.(down := s'.down + [PlayStart])
  }

  function ZeroStarted(s: State): State {
    match Take(s.up, {StartedKind})
    case None => s
    case Some(_, rest) => s.(phase := Top, feeding := true, up := rest)
  }

  /** One step of PlaybackSession; a blocked wait leaves the state alone. */
  function ZeroStep(c: Config, s: State): State {
    match s.phase
    case Top => ZeroTop(c, s)
    case Sending(_, _) => ZeroSend(s)
    case AwaitAcks(_, _) => ZeroAck(s)
    case AwaitCredit => ZeroCredit(s)
    case AwaitReady => ZeroReady(s)
    case AwaitStarted => ZeroStarted(s)
    case Done => s
  }

  // ---- Pico ----

  function Report(c: Config, s: State): Reply {
    Status(s.mode == PlayingMode, if s.queued <= c.capacity then c.capacity - s.queued else 0)
  }

  /** An empty queue in PLAYING: the end of a closed sequence, an underrun of an open one. */
  function Drained(c: Config, s: State): State {
    if s.mode != PlayingMode || s.queued != 0 then s
    else if s.ended then s.(mode := FinishedMode)
    else s.(underruns := s.underruns + 1, up := s.up + [UnderrunNotice(c.capacity)])
  }

  /** dispatch_command on the oldest request. */
  function PicoReceive(c: Config, s: State): State {
    if s.down == [] then s
    else
      var s1 := s.(down := s.down[1..]);
      match s.down[0]
      case QueueEvent(index) =>
        if s.queued >= c.capacity then s1.(overflow := true)
        else
          var s2 := s1.(queued := s.queued + 1, received := s.received + [index]);
          s2.(up := s2.up + [Report(c, s2)])
      case QueueEnd =>
        s1.(ended := true, up := s1.up + (if s.mode == ArmedMode then [PlayReady] else []) + [Report(c, s1)])
      case PlayStart => Drained(c, s1.(mode := PlayingMode, up := s1.up + [Started]))
  }

  /** One dispatched report: credit is granted at the pop from full, before any underrun is noticed. */
  function PicoDispatch(c: Config, s: State): State {
    if s.mode != PlayingMode then s
    else if s.queued == 0 then (if s.ended then s.(mode := FinishedMode) else s)
    else
      var s1 := s.(queued := s.queued - 1, dispatched := s.dispatched + 1);
      var s2 := if s.queued == c.capacity && !s.ended then s1.(up := s1.up + [Report(c, s1)]) else s1;
      Drained(c, s2)
  }

  /** The watchdog of the main loop: it may end a run once the queue of an open sequence has been found empty. How long
      the queue has to stay empty is not part of the protocol. */
  function PicoWatch(s: State): State {
    if s.mode == PlayingMode && s.underruns > 0 then s.(mode := ExpiredMode) else s
  }

  datatype Action = Zero | Receive | Dispatch | Watch

  function Step(c: Config, s: State, a: Action): State {
    if s.overflow || s.rejected || s.mode == ExpiredMode then s
    else match a
      case Zero => ZeroStep(c, s)
      case Receive => PicoReceive(c, s)
      case Dispatch => PicoDispatch(c, s)
      case Watch => PicoWatch(s)
  }

  /** Every run: any interleaving of the two processes is a sequence of actions. */
  function Run(c: Config, s: State, actions: seq<Action>): State {
    if actions == [] then s else Step(c, Run(c, s, actions[..|actions| - 1]), actions[|actions| - 1])
  }

  // ---- channels ----

  function Filter(up: seq<Reply>, kind: Kind): (r: seq<Reply>)
    ensures forall i :: 0 <= i < |r| ==> r[i].Kind() == kind
  {
    if up == [] then []
    else (if up[0].Kind() == kind then [up[0]] else []) + Filter(up[1..], kind)
  }

  lemma {:induction false} FilterConcat(a: seq<Reply>, b: seq<Reply>, kind: Kind)
    ensures Filter(a + b, kind) == Filter(a, kind) + Filter(b, kind)
  {
    if a == [] {
      assert a + b == b;
    } else {
      assert (a + b)[1..] == a[1..] + b;
      FilterConcat(a[1..], b, kind);
    }
  }

  lemma {:induction false} FilterOne(a: seq<Reply>, r: Reply, kind: Kind)
    ensures Filter(a + [r], kind) == Filter(a, kind) + if r.Kind() == kind then [r] else []
  {
    FilterConcat(a, [r], kind);
    assert [r][1..] == [];
  }

  /** Waiting removes the oldest frame of a wanted kind and nothing else, and blocks only if there is none. */
  lemma {:induction false} TakeRemovesOne(up: seq<Reply>, wanted: set<Kind>)
    ensures Take(up, wanted).None? ==> forall k :: k in wanted ==> Filter(up, k) == []
    ensures Take(up, wanted).Some? ==> Removed(up, Take(up, wanted).reply, Take(up, wanted).rest, wanted)
  {
    if up != [] && up[0].Kind() !in wanted {
      TakeRemovesOne(up[1..], wanted);
      if Take(up[1..], wanted).Some? {
        var rest := Take(up[1..], wanted).rest;
        assert ([up[0]] + rest)[1..] == rest;
      }
    }
  }

  /** The channel carries the same frames of every other kind. */
  predicate OthersKept(up: seq<Reply>, up': seq<Reply>, kind: Kind) {
    && (kind != StatusKind ==> Filter(up', StatusKind) == Filter(up, StatusKind))
    && (kind != UnderrunKind ==> Filter(up', UnderrunKind) == Filter(up, UnderrunKind))
    && (kind != StartedKind ==> Filter(up', StartedKind) == Filter(up, StartedKind))
    && (kind != ReadyKind ==> Filter(up', ReadyKind) == Filter(up, ReadyKind))
  }

  ghost predicate Removed(up: seq<Reply>, reply: Reply, rest: seq<Reply>, wanted: set<Kind>) {
    && reply.Kind() in wanted
    && |up| == |rest| + 1
    && Filter(up, reply.Kind()) == [reply] + Filter(rest, reply.Kind())
    && OthersKept(up, rest, reply.Kind())
  }

  /** `n` consecutive events on their way, starting at index `i`. */
  function Flight(i: nat, n: nat): (f: seq<Request>)
    ensures |f| == n
    decreases n, i
  {
    if n == 0 then [] else [QueueEvent(i)] + Flight(i + 1, n - 1)
  }

  lemma {:induction false} FlightGrows(i: nat, n: nat)
    ensures Flight(i, n) + [QueueEvent(i + n)] == Flight(i, n + 1)
    decreases n
  {
    if n != 0 { FlightGrows(i + 1, n - 1); }
  }

  // ---- invariants ----

  function Sent(s: State): nat {
    s.next + if s.phase.Sending? then s.phase.sent else if s.phase.AwaitAcks? then s.phase.batch else 0
  }

  function ToSend(s: State): int {
    if s.phase.Sending? then s.phase.batch - s.phase.sent else 0
  }

  /** Statuses Zero will still consume for events already sent. */
  function Unconfirmed(s: State): nat {
    if s.phase.Sending? then s.phase.sent else if s.phase.AwaitAcks? then s.phase.left else 0
  }

  function Control(c: Config, s: State): seq<Request> {
    if (s.phase.AwaitReady? || (s.phase.Done? && c.prebuffer < c.total)) && !s.ended then [QueueEnd]
    else if s.phase.AwaitStarted? && s.mode == ArmedMode then [PlayStart]
    else []
  }

  /** Every status names the same mode and every underrun notice the same capacity. */
  ghost predicate AllCarry(replies: seq<Reply>, playing: bool, capacity: nat) {
    forall i :: 0 <= i < |replies| ==>
      match replies[i]
      case Status(mode, _) => mode == playing
      case UnderrunNotice(free) => free == capacity
      case _ => true
  }

  lemma {:induction false} AllCarryOldest(replies: seq<Reply>, playing: bool, capacity: nat)
    requires replies != [] && AllCarry(replies, playing, capacity)
    ensures AllCarry(replies[1..], playing, capacity)
    ensures replies[0].Status? ==> replies[0].playing == playing
    ensures replies[0].UnderrunNotice? ==> replies[0].free == capacity
  {
  }

  lemma {:induction false} AllCarryNewest(replies: seq<Reply>, reply: Reply, playing: bool, capacity: nat)
    requires AllCarry(replies, playing, capacity) && AllCarry([reply], playing, capacity)
    ensures AllCarry(replies + [reply], playing, capacity)
  {
    assert AllCarry([reply], playing, capacity) ==> [reply][0] == reply;
  }

  /** Appending a reply appends it to the frames of its own kind. */
  lemma {:induction false} Appended(up: seq<Reply>, reply: Reply)
    ensures Filter(up + [reply], reply.Kind()) == Filter(up, reply.Kind()) + [reply]
    ensures OthersKept(up, up + [reply], reply.Kind())
  {
    FilterOne(up, reply, StatusKind);
    FilterOne(up, reply, UnderrunKind);
    FilterOne(up, reply, StartedKind);
    FilterOne(up, reply, ReadyKind);
  }

  function InFlight(s: State): int {
    Sent(s) - |s.received|
  }

  function Acks(s: State): seq<Reply> {
    Filter(s.up, StatusKind)
  }

  predicate Serving(s: State) {
    s.feeding || s.phase.AwaitStarted?
  }

  predicate PhaseFits(c: Config, s: State) {
    match s.phase
    case Top => s.next <= Stop(c, s)
    case Sending(sent, batch) => sent <= batch && s.next + batch <= Stop(c, s) && 0 < batch
    case AwaitAcks(left, batch) => left <= batch && s.next + batch <= Stop(c, s)
    case AwaitCredit => s.next < Stop(c, s) && s.free == 0
    case AwaitReady => !s.feeding && s.next == c.prebuffer == c.total == |s.received|
    case AwaitStarted => !s.feeding && s.next == c.prebuffer && (c.prebuffer == c.total ==> s.ended)
    case Done => s.feeding && s.next == c.total && (c.prebuffer == c.total ==> s.ended)
  }

  /** The requests: events in order without gap or repetition, then at most one control command. */
  ghost predicate Downstream(c: Config, s: State) {
    && PhaseFits(c, s)
    && |s.received| <= Sent(s)
    && (forall i :: 0 <= i < |s.received| ==> s.received[i] == i)
    && s.down == Flight(|s.received|, InFlight(s)) + Control(c, s)
  }

  ghost predicate PicoAgrees(c: Config, s: State) {
    && !s.overflow && s.mode != ExpiredMode
    && |s.received| == s.queued + s.dispatched && s.queued <= c.capacity
    && (s.mode == ArmedMode ==> s.dispatched == 0 && s.underruns == 0 && !s.feeding)
    && (s.mode != ArmedMode ==> |s.received| >= c.prebuffer && Serving(s))
    && (s.mode == FinishedMode ==> s.ended && s.queued == 0)
    && (s.mode == PlayingMode && s.queued == 0 && !s.ended ==> s.underruns > 0)
    && (s.ended ==> |s.received| == c.total && (s.mode == ArmedMode ==> c.prebuffer == c.total))
    && (s.ended ==>
        s.phase.AwaitReady? || s.phase.AwaitStarted? || (s.feeding && (c.prebuffer == c.total || s.phase.Done?)))
    && (s.feeding && c.prebuffer == c.total ==> s.ended)
    && (s.underruns > 0 ==> s.dispatched >= c.prebuffer && c.prebuffer < c.total)
  }

  /** The free capacity Zero will hold once it has consumed every status on its way. */
  function LastFree(s: State): nat {
    if Acks(s) == [] then s.free else Credit(Acks(s)[|Acks(s)| - 1])
  }

  ghost predicate Upstream(c: Config, s: State) {
    && !s.rejected
    && (s.underruns == 0 ==> Filter(s.up, UnderrunKind) == [])
    && AllCarry(Filter(s.up, UnderrunKind), true, c.capacity)
    && Filter(s.up, StartedKind) == (if s.phase.AwaitStarted? && s.mode != ArmedMode then [Started] else [])
    && AllCarry(Acks(s), Serving(s), 0)
    && |Acks(s)| + InFlight(s) >= Unconfirmed(s)
    && (s.mode == ArmedMode && !s.phase.AwaitReady? ==> |Acks(s)| + InFlight(s) == Unconfirmed(s))
    && (!s.ended && LastFree(s) == 0 ==> s.queued == c.capacity)
    && (s.phase.AwaitReady? ==> Acks(s) == (if s.ended then [Report(c, s)] else []))
    && (s.phase.AwaitReady? && s.ended ==> Filter(s.up, ReadyKind) != [])
  }

  /** Credit accounting while no underrun was ever noticed and the sequence is open. With events still to send or
      in flight, every status is the acknowledgement of one event and the queue has room for all of them.
      Otherwise the last acknowledgement is the credit Zero will spend; it is covered by free slots, and exactly
      if it was zero and the queue has opened since, one grant of a single slot follows it. */
  predicate Sound(capacity: nat, queued: nat, acks: seq<Reply>, toSend: int, inFlight: int, waiting: nat, free: nat,
      armed: bool) {
    if toSend + inFlight > 0 then
      |acks| + inFlight == waiting && queued + toSend + inFlight <= capacity
    else
      && |acks| >= waiting
      && var last := if waiting > 0 then Credit(acks[waiting - 1]) else free;
         && queued + last <= capacity
         && (armed ==> queued + last == capacity)
         && |acks| == waiting + (if last == 0 && queued < capacity then 1 else 0)
         && (|acks| > waiting ==> Credit(acks[waiting]) == 1)
  }

  predicate CreditSound(c: Config, s: State) {
    Sound(c.capacity, s.queued, Acks(s), ToSend(s), InFlight(s), Unconfirmed(s), s.free, s.mode == ArmedMode)
  }

  /** Consuming the oldest status moves its credit from the channel to Zero. */
  lemma {:induction false} SoundConsume(capacity: nat, queued: nat, acks: seq<Reply>, inFlight: int, waiting: nat,
      free: nat, armed: bool)
    requires Sound(capacity, queued, acks, 0, inFlight, waiting, free, armed) && acks != []
    ensures waiting > 0 ==> Sound(capacity, queued, acks[1..], 0, inFlight, waiting - 1, Credit(acks[0]), armed)
    ensures waiting == 0 && free == 0 && inFlight == 0 ==>
              Sound(capacity, queued, acks[1..], 0, inFlight, 0, Credit(acks[0]), armed)
  {
  }

  /** Receiving one event turns a request in flight into an acknowledgement of what is left. */
  lemma {:induction false} SoundReceive(capacity: nat, queued: nat, acks: seq<Reply>, toSend: int, inFlight: int,
      waiting: nat, free: nat, armed: bool, ack: Reply)
    requires Sound(capacity, queued, acks, toSend, inFlight, waiting, free, armed) && inFlight > 0 && toSend >= 0
    ensures queued < capacity
    ensures Credit(ack) == capacity - queued - 1 ==>
              Sound(capacity, queued + 1, acks + [ack], toSend, inFlight - 1, waiting, free, armed)
  {
  }

  /** A pop keeps every promise; a pop from full adds the grant of one slot. */
  lemma {:induction false} SoundPop(capacity: nat, queued: nat, acks: seq<Reply>, toSend: int, inFlight: int,
      waiting: nat, free: nat, grant: Reply)
    requires Sound(capacity, queued, acks, toSend, inFlight, waiting, free, false) && 0 < queued && toSend >= 0
               && inFlight >= 0
    requires queued == capacity ==> Credit(grant) == 1
    ensures Sound(capacity, queued - 1, acks + (if queued == capacity then [grant] else []), toSend, inFlight,
              waiting, free, false)
  {
    assert acks + [] == acks;
  }

  /** Nothing left to feed: credit no longer matters. */
  predicate Closing(s: State) {
    s.ended || s.phase.AwaitReady?
  }

  ghost predicate CreditFits(c: Config, s: State) {
    s.underruns == 0 && !Closing(s) ==> CreditSound(c, s)
  }

  ghost predicate Inv(c: Config, s: State) {
    && Streams(c, s)
    && CreditFits(c, s)
  }

  ghost predicate Streams(c: Config, s: State) {
    Downstream(c, s) && PicoAgrees(c, s) && Upstream(c, s)
  }

  lemma {:induction false} InitInv(c: Config)
    requires ValidConfig(c)
    ensures Inv(c, Init(c))
  {
  }

  // ---- Zero keeps it ----

  lemma {:induction false} TopStreams(c: Config, s: State)
    requires ValidConfig(c) && Streams(c, s) && s.phase.Top?
    ensures Streams(c, ZeroTop(c, s))
  {
    TopDown(c, s);
    TopAgrees(c, s);
    TopUp(c, s);
    hide Downstream, PicoAgrees, Upstream, ZeroTop;
  }

  lemma {:induction false} TopDown(c: Config, s: State)
    requires ValidConfig(c) && Streams(c, s) && s.phase.Top?
    ensures Downstream(c, ZeroTop(c, s))
  {
    assert s.mode == ArmedMode ==> InFlight(s) == 0;
    assert s.mode != ArmedMode ==> s.feeding;
    assert s.ended ==> s.feeding && |s.received| == c.total;
    assert s.feeding && c.prebuffer == c.total ==> s.ended;
    hide Filter, Flight, AllCarry, Upstream, PicoAgrees;
    var s' := ZeroTop(c, s);
    assert s.down + [] == s.down;
    assert Control(c, s) == [] && s'.down == s.down + Control(c, s') && InFlight(s') == InFlight(s);
  }

  lemma {:induction false} TopAgrees(c: Config, s: State)
    requires ValidConfig(c) && Streams(c, s) && s.phase.Top?
    ensures PicoAgrees(c, ZeroTop(c, s))
  {
    hide Filter, Flight, AllCarry, Upstream, Downstream;
  }

  lemma {:induction false} TopUp(c: Config, s: State)
    requires ValidConfig(c) && Streams(c, s) && s.phase.Top?
    ensures Upstream(c, ZeroTop(c, s))
  {
    hide Filter, Flight;
    var s' := ZeroTop(c, s);
    assert s'.mode == ArmedMode && !s'.feeding && s'.next >= c.prebuffer ==> Acks(s) == [];
  }

  lemma {:induction false} TopCredit(c: Config, s: State)
    requires ValidConfig(c) && Inv(c, s) && s.phase.Top?
    ensures CreditFits(c, ZeroTop(c, s))
  {
    hide Filter, Flight, AllCarry;
  }

  lemma {:induction false} SendStreams(c: Config, s: State)
    requires ValidConfig(c) && Streams(c, s) && s.phase.Sending?
    ensures Streams(c, ZeroSend(s))
  {
    SendDown(c, s);
    SendUp(c, s);
    hide Downstream, PicoAgrees, Upstream, ZeroSend;
  }

  lemma {:induction false} SendDown(c: Config, s: State)
    requires ValidConfig(c) && Streams(c, s) && s.phase.Sending?
    ensures Downstream(c, ZeroSend(s)) && PicoAgrees(c, ZeroSend(s))
  {
    hide Filter, Flight, AllCarry, Upstream;
    FlightGrows(|s.received|, InFlight(s));
    assert s.down + [] == s.down;
  }

  lemma {:induction false} SendUp(c: Config, s: State)
    requires ValidConfig(c) && Streams(c, s) && s.phase.Sending?
    ensures Upstream(c, ZeroSend(s))
  {
    hide Filter, Flight, AllCarry, PicoAgrees, Take;
  }

  lemma {:induction false} SendCredit(c: Config, s: State)
    requires ValidConfig(c) && Inv(c, s) && s.phase.Sending?
    ensures CreditFits(c, ZeroSend(s))
  {
    hide Filter, Flight, Upstream, PicoAgrees, AllCarry, Take;
    var s', more := ZeroSend(s), if s.phase.sent < s.phase.batch then 1 else 0;
    assert PhaseFits(c, s);
    assert Acks(s') == Acks(s) && s'.queued == s.queued && s'.free == s.free && s'.mode == s.mode;
    assert ToSend(s') == ToSend(s) - more && InFlight(s') == InFlight(s) + more
             && Unconfirmed(s') == Unconfirmed(s) + more;
    hide ZeroSend, Downstream, Acks, ToSend, InFlight, Unconfirmed, PhaseFits;
  }

  /** The oldest status is the one _await returns, and it names the mode Zero expects. */
  lemma {:induction false} OldestAck(c: Config, s: State)
    requires Upstream(c, s)
    ensures Take(s.up, {StatusKind}).None? <==> Acks(s) == []
    ensures Acks(s) != [] ==> Removed(s.up, Acks(s)[0], Take(s.up, {StatusKind}).rest, {StatusKind})
    ensures Acks(s) != [] ==> Take(s.up, {StatusKind}).reply == Acks(s)[0]
    ensures Acks(s) != [] ==> Filter(Take(s.up, {StatusKind}).rest, StatusKind) == Acks(s)[1..]
    ensures Acks(s) != [] ==> Acks(s)[0].playing == Serving(s) && AllCarry(Acks(s)[1..], Serving(s), 0)
  {
    TakeRemovesOne(s.up, {StatusKind});
    if Acks(s) != [] { AllCarryOldest(Acks(s), Serving(s), 0); }
  }

  /** Consuming an acknowledgement or ending a batch changes nothing the Pico sees. */
  lemma {:induction false} AckFields(s: State)
    requires s.phase.AwaitAcks?
    ensures var s' := ZeroAck(s);
            && Sent(s') == Sent(s) && s'.down == s.down && s'.received == s.received && s'.feeding == s.feeding
            && s'.mode == s.mode && s'.ended == s.ended && s'.queued == s.queued && s'.dispatched == s.dispatched
            && s'.underruns == s.underruns && s'.overflow == s.overflow && (s'.phase.AwaitAcks? || s'.phase.Top?)
  {
    hide Take;
  }

  lemma {:induction false} AckDown(c: Config, s: State)
    requires ValidConfig(c) && Streams(c, s) && s.phase.AwaitAcks?
    ensures Downstream(c, ZeroAck(s)) && PicoAgrees(c, ZeroAck(s))
  {
    hide Filter, Flight, Take, Upstream, Sent, ZeroAck, PhaseFits;
    AckFields(s);
    AckPhase(c, s);
  }

  lemma {:induction false} AckPhase(c: Config, s: State)
    requires PhaseFits(c, s) && s.phase.AwaitAcks?
    ensures PhaseFits(c, ZeroAck(s))
  {
    hide Take;
  }

  /** The oldest status consumed: its credit is Zero's, everything else in the channel stays. */
  lemma {:induction false} StatusConsumed(c: Config, s: State, s': State)
    requires Upstream(c, s) && Acks(s) != [] && OthersKept(s.up, s'.up, StatusKind) && Acks(s') == Acks(s)[1..]
    requires AllCarry(Acks(s)[1..], Serving(s), 0) && Serving(s') == Serving(s) && !s'.rejected
    requires s'.mode == s.mode && s'.ended == s.ended && s'.queued == s.queued && s'.underruns == s.underruns
    requires InFlight(s') == InFlight(s) && s'.free == Credit(Acks(s)[0])
    requires Unconfirmed(s') == Unconfirmed(s) - 1 && s.phase.AwaitAcks? && s'.phase.AwaitAcks?
    ensures Upstream(c, s')
  {
    hide Filter, AllCarry, InFlight, Unconfirmed;
    assert LastFree(s') == LastFree(s);
  }

  lemma {:induction false} AckUp(c: Config, s: State)
    requires ValidConfig(c) && Streams(c, s) && s.phase.AwaitAcks?
    ensures Upstream(c, ZeroAck(s))
  {
    hide Filter, Flight, Take, AllCarry, PicoAgrees, Downstream, Control, ZeroAck, Acks, OthersKept;
    if s.phase.left > 0 && Acks(s) != [] {
      AckFields(s);
      AckTaken(c, s);
      hide Upstream, Sent;
      StatusConsumed(c, s, ZeroAck(s));
    } else {
      BatchEnds(c, s);
    }
  }

  /** Every acknowledgement of the batch is in, or none is there yet. */
  lemma {:induction false} BatchEnds(c: Config, s: State)
    requires Upstream(c, s) && s.phase.AwaitAcks? && (s.phase.left == 0 || Acks(s) == [])
    ensures Upstream(c, ZeroAck(s))
  {
    OldestAck(c, s);
    hide Filter, Flight, Take, AllCarry;
  }

  lemma {:induction false} AckCredit(c: Config, s: State)
    requires ValidConfig(c) && Inv(c, s) && s.phase.AwaitAcks?
    ensures CreditFits(c, ZeroAck(s))
  {
    hide Filter, Flight, Take, AllCarry, Upstream, PicoAgrees, Downstream, Sound, Sent, ZeroAck;
    AckFields(s);
    if s.phase.left == 0 || Acks(s) == [] {
      BatchFields(c, s);
      hide Acks, Unconfirmed;
    } else {
      AckTaken(c, s);
      if CreditSound(c, s) {
        SoundConsume(c.capacity, s.queued, Acks(s), InFlight(s), Unconfirmed(s), s.free, s.mode == ArmedMode);
      }
    }
  }

  /** Ending a batch, or waiting on, leaves Zero's credit and the channel alone. */
  lemma {:induction false} BatchFields(c: Config, s: State)
    requires Upstream(c, s) && s.phase.AwaitAcks? && (s.phase.left == 0 || Acks(s) == [])
    ensures Acks(ZeroAck(s)) == Acks(s) && ZeroAck(s).free == s.free && Unconfirmed(ZeroAck(s)) == Unconfirmed(s)
  {
    OldestAck(c, s);
    hide Filter, Flight, Take, AllCarry;
  }

  /** What the acknowledgement Zero consumes leaves behind. */
  lemma {:induction false} AckTaken(c: Config, s: State)
    requires Upstream(c, s) && s.phase.AwaitAcks? && s.phase.left > 0 && Acks(s) != []
    ensures ZeroAck(s).phase == AwaitAcks(s.phase.left - 1, s.phase.batch)
    ensures ZeroAck(s).free == Credit(Acks(s)[0]) && Acks(ZeroAck(s)) == Acks(s)[1..] && !ZeroAck(s).rejected
    ensures OthersKept(s.up, ZeroAck(s).up, StatusKind) && AllCarry(Acks(s)[1..], Serving(s), 0)
  {
    OldestAck(c, s);
    hide Filter, Flight, Take, AllCarry;
  }

  lemma {:induction false} CreditStreams(c: Config, s: State)
    requires ValidConfig(c) && Streams(c, s) && s.phase.AwaitCredit?
    ensures Streams(c, ZeroCredit(s))
  {
    CreditDown(c, s);
    CreditUp(c, s);
    hide Downstream, PicoAgrees, Upstream, ZeroCredit;
  }

  lemma {:induction false} CreditDown(c: Config, s: State)
    requires ValidConfig(c) && Streams(c, s) && s.phase.AwaitCredit?
    ensures Downstream(c, ZeroCredit(s)) && PicoAgrees(c, ZeroCredit(s))
  {
    hide Filter, Flight, Take, AllCarry, Upstream;
  }

  lemma {:induction false} CreditUp(c: Config, s: State)
    requires ValidConfig(c) && Streams(c, s) && s.phase.AwaitCredit?
    ensures Upstream(c, ZeroCredit(s))
  {
    hide Filter, Flight, Take, AllCarry;
    TakeRemovesOne(s.up, {StatusKind, UnderrunKind});
    if Acks(s) != [] { AllCarryOldest(Acks(s), Serving(s), 0); }
    var notices := Filter(s.up, UnderrunKind);
    if notices != [] { AllCarryOldest(notices, true, c.capacity); }
  }

  lemma {:induction false} CreditCredit(c: Config, s: State)
    requires ValidConfig(c) && Inv(c, s) && s.phase.AwaitCredit?
    ensures CreditFits(c, ZeroCredit(s))
  {
    hide Filter, Flight, Take, AllCarry;
    TakeRemovesOne(s.up, {StatusKind, UnderrunKind});
    if Acks(s) != [] { AllCarryOldest(Acks(s), Serving(s), 0); }
  }

  lemma {:induction false} ReadyKeeps(c: Config, s: State)
    requires ValidConfig(c) && Inv(c, s) && s.phase.AwaitReady?
    ensures Inv(c, ZeroReady(s))
  {
    hide Filter, Flight, Take;
    assert s.down + [] == s.down;
    TakeRemovesOne(s.up, {ReadyKind});
    if Take(s.up, {ReadyKind}).Some? {
      var rest := Take(s.up, {ReadyKind}).rest;
      TakeRemovesOne(rest, {StatusKind});
      if Take(rest, {StatusKind}).Some? {
        var s' := ZeroReady(s);
        assert Acks(s) == [Report(c, s)] && Acks(s)[0] == Take(rest, {StatusKind}).reply;
        assert Acks(s') == Acks(s)[1..];
        assert Downstream(c, s');
        assert PicoAgrees(c, s');
        assert !s'.rejected;
        assert Filter(s'.up, UnderrunKind) == Filter(s.up, UnderrunKind);
        assert Filter(s'.up, StartedKind) == Filter(s.up, StartedKind);
        assert Upstream(c, s');
      }
    }
  }

  lemma {:induction false} StartedKeeps(c: Config, s: State)
    requires ValidConfig(c) && Inv(c, s) && s.phase.AwaitStarted?
    ensures Inv(c, ZeroStarted(s))
  {
    hide Filter, Flight, Take, AllCarry, Sound;
    TakeRemovesOne(s.up, {StartedKind});
    assert s.down + [] == s.down;
    if Take(s.up, {StartedKind}).Some? {
      assert Filter(ZeroStarted(s).up, StartedKind) == Filter(s.up, StartedKind)[1..];
    }
  }

  lemma {:induction false} ZeroKeeps(c: Config, s: State)
    requires ValidConfig(c) && Inv(c, s)
    ensures Inv(c, ZeroStep(c, s))
  {
    match s.phase
    case Top =>
      TopStreams(c, s);
      TopCredit(c, s);
    case Sending(_, _) =>
      SendStreams(c, s);
      SendCredit(c, s);
    case AwaitAcks(_, _) =>
      AckDown(c, s);
      AckUp(c, s);
      AckCredit(c, s);
    case AwaitCredit =>
      CreditStreams(c, s);
      CreditCredit(c, s);
    case AwaitReady => ReadyKeeps(c, s);
    case AwaitStarted => StartedKeeps(c, s);
    case Done =>
  }

  lemma {:induction false} ZeroLeavesPico(c: Config, s: State)
    ensures ZeroStep(c, s).underruns == s.underruns
  {
    hide Take;
  }

  /** Nothing the Pico holds has changed. */
  predicate PicoSame(s: State, s': State) {
    s'.mode == s.mode && s'.ended == s.ended && s'.overflow == s.overflow && s'.queued == s.queued
        && s'.received == s.received
  }

  lemma {:induction false} ReadyLeavesQueue(s: State)
    ensures PicoSame(s, ZeroReady(s))
  {
    hide Take;
  }

  lemma {:induction false} TopLeavesQueue(c: Config, s: State)
    ensures PicoSame(s, ZeroTop(c, s))
  {
    hide Stop, Min;
  }

  /** A step of Zero leaves the Pico's side of the state alone. */
  lemma {:induction false} ZeroLeavesQueue(c: Config, s: State)
    ensures PicoSame(s, ZeroStep(c, s))
  {
    ReadyLeavesQueue(s);
    TopLeavesQueue(c, s);
    hide Take, ZeroReady, ZeroTop;
  }

  // ---- the Pico keeps it ----

  /** A step of the Pico leaves Zero's side of the state alone. */
  predicate ZeroSame(s: State, s': State) {
    s'.phase == s.phase && s'.feeding == s.feeding && s'.next == s.next && s'.free == s.free
        && s'.rejected == s.rejected
  }

  /** One more status on its way up: an acknowledgement or a grant that tells the truth about the queue. */
  lemma {:induction false} StatusAppended(c: Config, s: State, s': State, r: Reply)
    requires Upstream(c, s) && ZeroSame(s, s') && s'.up == s.up + [r] && r.Status? && r.playing == Serving(s)
    requires s'.underruns == s.underruns && s'.mode == s.mode && !s.phase.AwaitReady?
    requires InFlight(s') >= InFlight(s) - 1 && (s.mode == ArmedMode ==> InFlight(s') == InFlight(s) - 1)
    requires !s'.ended && r.free == 0 ==> s'.queued == c.capacity
    ensures Upstream(c, s')
  {
    assert AllCarry([r], Serving(s), 0);
    AllCarryNewest(Acks(s), r, Serving(s), 0);
    Appended(s.up, r);
    hide Filter, AllCarry, InFlight;
    assert Acks(s') == Acks(s) + [r] && Unconfirmed(s') == Unconfirmed(s);
  }

  /** No status sent: none was due as long as the queue was not full, or the sequence has ended. */
  lemma {:induction false} StatusUnchanged(c: Config, s: State, s': State)
    requires Upstream(c, s) && ZeroSame(s, s') && OthersKept(s.up, s'.up, UnderrunKind)
    requires s'.mode == s.mode && !s.phase.AwaitReady? && InFlight(s') == InFlight(s)
    requires AllCarry(Filter(s'.up, UnderrunKind), true, c.capacity)
    requires s'.underruns == 0 ==> Filter(s'.up, UnderrunKind) == []
    requires !s'.ended && LastFree(s) == 0 ==> s'.queued == c.capacity
    ensures Upstream(c, s')
  {
    hide Filter, AllCarry, InFlight;
    assert Acks(s') == Acks(s) && Unconfirmed(s') == Unconfirmed(s);
  }

  /** What the oldest request says about the state: events first, in order; control only when none is in flight. */
  lemma {:induction false} OldestRequest(c: Config, s: State)
    requires Streams(c, s) && s.down != []
    ensures s.down[0].QueueEvent? ==>
              InFlight(s) > 0 && s.down[0].index == |s.received| && !s.ended && !s.phase.AwaitReady?
    ensures !s.down[0].QueueEvent? ==> InFlight(s) == 0 && Control(c, s) == s.down
  {
  }

  lemma {:induction false} EventDown(c: Config, s: State)
    requires ValidConfig(c) && Streams(c, s) && s.down != [] && s.down[0].QueueEvent? && s.queued < c.capacity
    ensures Downstream(c, PicoReceive(c, s)) && PicoAgrees(c, PicoReceive(c, s))
  {
    hide Upstream;
    var s' := PicoReceive(c, s);
    assert InFlight(s) > 0;
    assert s'.down == Flight(|s'.received|, InFlight(s')) + Control(c, s);
  }

  /** The acknowledgement an accepted event earns, and all it changes. */
  lemma {:induction false} EventFields(c: Config, s: State)
    requires s.down != [] && s.down[0].QueueEvent? && s.queued < c.capacity
    ensures var s' := PicoReceive(c, s);
            && ZeroSame(s, s') && s'.underruns == s.underruns && s'.mode == s.mode && s'.ended == s.ended
            && s'.queued == s.queued + 1 && |s'.received| == |s.received| + 1
            && s'.up == s.up + [Status(s.mode == PlayingMode, c.capacity - s.queued - 1)]
  {
  }

  lemma {:induction false} EventUp(c: Config, s: State)
    requires ValidConfig(c) && Streams(c, s) && s.down != [] && s.down[0].QueueEvent? && s.queued < c.capacity
    ensures Upstream(c, PicoReceive(c, s))
  {
    OldestRequest(c, s);
    EventFields(c, s);
    assert Serving(s) == (s.mode == PlayingMode);
    assert InFlight(PicoReceive(c, s)) == InFlight(s) - 1;
    hide PicoReceive, Upstream, Downstream, PicoAgrees, InFlight;
    StatusAppended(c, s, PicoReceive(c, s), Status(s.mode == PlayingMode, c.capacity - s.queued - 1));
  }

  /** The accounts of Zero are those of `s`; only the queue and the channels moved. */
  predicate CountsSame(s: State, s': State) {
    ToSend(s') == ToSend(s) && Unconfirmed(s') == Unconfirmed(s) && s'.free == s.free && s'.mode == s.mode
  }

  lemma {:induction false} EventSound(c: Config, s: State, s': State, ack: Reply)
    requires CreditSound(c, s) && CountsSame(s, s') && ToSend(s) >= 0 && InFlight(s) > 0
               && InFlight(s') == InFlight(s) - 1
    requires s'.up == s.up + [ack] && ack.Status? && ack.free == c.capacity - s.queued - 1 && s'.queued == s.queued + 1
    ensures CreditSound(c, s')
  {
    hide Filter, Sound, ToSend, InFlight, Unconfirmed;
    FilterOne(s.up, ack, StatusKind);
    SoundReceive(c.capacity, s.queued, Acks(s), ToSend(s), InFlight(s), Unconfirmed(s), s.free, s.mode
        == ArmedMode, ack);
  }

  lemma {:induction false} EventCredit(c: Config, s: State)
    requires ValidConfig(c) && Inv(c, s) && s.down != [] && s.down[0].QueueEvent? && s.queued < c.capacity
    ensures CreditFits(c, PicoReceive(c, s))
  {
    OldestRequest(c, s);
    EventFields(c, s);
    var s' := PicoReceive(c, s);
    assert ToSend(s) >= 0;
    hide Filter, Upstream, Downstream, PicoAgrees, PicoReceive, CreditSound;
    if s.underruns == 0 {
      assert !Closing(s) && CountsSame(s, s') && InFlight(s') == InFlight(s) - 1;
      EventSound(c, s, s', Status(s.mode == PlayingMode, c.capacity - s.queued - 1));
    }
  }

  /** An event can only meet a full queue after an underrun, and only beyond prebuffer and capacity together. */
  lemma {:induction false} OverflowNeeds(c: Config, s: State)
    requires ValidConfig(c) && Inv(c, s) && PicoReceive(c, s).overflow && !s.overflow
    ensures s.underruns > 0 && c.total > c.prebuffer + c.capacity
  {
    OldestRequest(c, s);
    hide Filter, Flight, Upstream, Sound;
    if s.underruns == 0 {
      SoundReceive(c.capacity, s.queued, Acks(s), ToSend(s), InFlight(s), Unconfirmed(s), s.free, s.mode
          == ArmedMode, PlayReady);
    }
  }

  lemma {:induction false} EndDown(c: Config, s: State)
    requires ValidConfig(c) && Streams(c, s) && s.down != [] && s.down[0].QueueEnd?
    ensures Downstream(c, PicoReceive(c, s)) && PicoAgrees(c, PicoReceive(c, s))
  {
    hide Upstream;
    var s' := PicoReceive(c, s);
    assert s'.down == Flight(|s'.received|, InFlight(s')) + Control(c, s');
  }

  lemma {:induction false} EndFields(c: Config, s: State)
    requires s.down != [] && s.down[0].QueueEnd? && s.queued <= c.capacity
    ensures var s' := PicoReceive(c, s);
            && ZeroSame(s, s') && s'.underruns == s.underruns && s'.mode == s.mode && s'.ended
            && s'.queued == s.queued && s'.received == s.received
            && s'.up == s.up + (if s.mode == ArmedMode then [PlayReady] else [])
                + [Status(s.mode == PlayingMode, c.capacity - s.queued)]
  {
  }

  /** In ARMED the two replies to QUEUE_END are what Zero is waiting for. */
  lemma {:induction false} ReadyAppended(c: Config, s: State, s': State, r: Reply)
    requires Upstream(c, s) && ZeroSame(s, s') && s.phase.AwaitReady? && Acks(s) == [] && !s.feeding
    requires s'.up == s.up + [PlayReady] + [r] && r == Report(c, s') && s'.ended && s'.mode == s.mode == ArmedMode
    requires s'.underruns == s.underruns && InFlight(s') >= 0
    ensures Upstream(c, s')
  {
    assert AllCarry([r], false, 0);
    Appended(s.up, PlayReady);
    Appended(s.up + [PlayReady], r);
    hide Filter, AllCarry, InFlight;
    assert Acks(s') == [r];
  }

  lemma {:induction false} EndUp(c: Config, s: State)
    requires ValidConfig(c) && Streams(c, s) && s.down != [] && s.down[0].QueueEnd?
    ensures Upstream(c, PicoReceive(c, s))
  {
    OldestRequest(c, s);
    EndFields(c, s);
    var s' := PicoReceive(c, s);
    assert Control(c, s) == [QueueEnd] && InFlight(s') == InFlight(s) == 0;
    if s.mode == ArmedMode {
      assert s.phase.AwaitReady? && Acks(s) == [] && !s.feeding;
      hide PicoReceive, Upstream, Downstream, PicoAgrees, InFlight;
      ReadyAppended(c, s, s', Status(false, c.capacity - s.queued));
    } else {
      assert Serving(s) && s.mode == PlayingMode && !s.phase.AwaitReady?;
      assert s.up + [] == s.up;
      hide PicoReceive, Upstream, Downstream, PicoAgrees, InFlight;
      StatusAppended(c, s, s', Status(true, c.capacity - s.queued));
    }
  }

  lemma {:induction false} EndCredit(c: Config, s: State)
    requires s.down != [] && s.down[0].QueueEnd?
    ensures CreditFits(c, PicoReceive(c, s))
  {
  }

  lemma {:induction false} PlayDown(c: Config, s: State)
    requires ValidConfig(c) && Streams(c, s) && s.down != [] && s.down[0].PlayStart?
    ensures InFlight(s) == 0 && Control(c, s) == s.down == [PlayStart]
    ensures Downstream(c, PicoReceive(c, s)) && PicoAgrees(c, PicoReceive(c, s))
  {
    hide Upstream;
    OldestRequest(c, s);
  }

  lemma {:induction false} PlayUp(c: Config, s: State)
    requires ValidConfig(c) && Streams(c, s) && s.down != [] && s.down[0].PlayStart?
    ensures Upstream(c, PicoReceive(c, s))
  {
    PlayDown(c, s);
    assert PicoReceive(c, s).up == s.up + [Started];
    hide Filter, AllCarry, Downstream;
    Appended(s.up, Started);
  }

  lemma {:induction false} PlayCredit(c: Config, s: State)
    requires ValidConfig(c) && Inv(c, s) && s.down != [] && s.down[0].PlayStart?
    ensures CreditFits(c, PicoReceive(c, s))
  {
    PlayDown(c, s);
    var s' := PicoReceive(c, s);
    hide Filter, AllCarry, Downstream;
    if s'.underruns == 0 && !s'.ended {
      assert s'.up == s.up + [Started];
      FilterOne(s.up, Started, StatusKind);
      assert Acks(s') == Acks(s);
    }
  }

  /** The channel after the grant for a pop from full. */
  function Granted(c: Config, s: State): seq<Reply> {
    if s.queued == c.capacity && !s.ended then s.up + [Status(true, 1)] else s.up
  }

  predicate Empties(s: State) {
    s.queued == 1 && !s.ended
  }

  /** A pop sends the grant first and the underrun notice, if any, after it. */
  lemma {:induction false} DispatchPops(c: Config, s: State)
    requires s.mode == PlayingMode && s.queued > 0 && s.queued <= c.capacity
    ensures PicoDispatch(c, s) == s.(
                                  queued := s.queued - 1,
                                  dispatched := s.dispatched + 1,
                                  mode := if s.queued == 1 && s.ended then FinishedMode else PlayingMode,
                                  underruns := if Empties(s) then s.underruns + 1 else s.underruns,
                                  up := if Empties(s) then Granted(c, s) + [UnderrunNotice(c.capacity)]
                                      else Granted(c, s))
  {
  }

  lemma {:induction false} DispatchDown(c: Config, s: State)
    requires ValidConfig(c) && Streams(c, s) && s.mode == PlayingMode && s.queued > 0
    ensures Downstream(c, PicoDispatch(c, s)) && PicoAgrees(c, PicoDispatch(c, s))
  {
    DispatchPops(c, s);
    hide Filter, Flight, Upstream, PicoDispatch, Granted;
    assert Control(c, PicoDispatch(c, s)) == Control(c, s);
  }

  lemma {:induction false} GrantUp(c: Config, s: State, s': State)
    requires Upstream(c, s) && ZeroSame(s, s') && s'.mode == s.mode == PlayingMode && Serving(s) && !s.phase.AwaitReady?
    requires s'.underruns == s.underruns && s'.ended == s.ended && s'.received == s.received
    requires 0 < s.queued <= c.capacity && s'.queued == s.queued - 1 && s'.up == Granted(c, s)
    ensures Upstream(c, s')
  {
    assert InFlight(s') == InFlight(s);
    assert !s.ended && LastFree(s) == 0 ==> s.queued == c.capacity;
    assert AllCarry(Filter(s.up, UnderrunKind), true, c.capacity);
    assert s.underruns == 0 ==> Filter(s.up, UnderrunKind) == [];
    hide Upstream, InFlight, Filter, LastFree, AllCarry;
    if Granted(c, s) == s.up {
      StatusUnchanged(c, s, s');
    } else {
      StatusAppended(c, s, s', Status(true, 1));
    }
  }

  /** An underrun notice is appended behind everything else. */
  lemma {:induction false} NoticeUp(c: Config, s: State, s': State)
    requires Upstream(c, s) && ZeroSame(s, s') && s'.mode == s.mode && !s.phase.AwaitReady?
    requires s'.ended == s.ended && s'.received == s.received && s'.queued == s.queued && s'.underruns > 0
    requires s'.up == s.up + [UnderrunNotice(c.capacity)]
    ensures Upstream(c, s')
  {
    var notice := UnderrunNotice(c.capacity);
    assert AllCarry([notice], true, c.capacity);
    AllCarryNewest(Filter(s.up, UnderrunKind), notice, true, c.capacity);
    Appended(s.up, notice);
    assert InFlight(s') == InFlight(s);
    assert !s.ended && LastFree(s) == 0 ==> s.queued == c.capacity;
    hide Upstream, InFlight, Filter, LastFree, AllCarry;
    StatusUnchanged(c, s, s');
  }

  /** The mode alone does not matter to the channel once PLAYING was entered. */
  lemma {:induction false} FinishedUp(c: Config, s: State)
    requires Upstream(c, s) && s.mode == PlayingMode && !s.phase.AwaitReady?
    ensures Upstream(c, s.(mode := FinishedMode))
  {
    hide Filter, AllCarry;
  }

  lemma {:induction false} DispatchUp(c: Config, s: State)
    requires ValidConfig(c) && Streams(c, s) && s.mode == PlayingMode && s.queued > 0
    ensures Upstream(c, PicoDispatch(c, s))
  {
    DispatchPops(c, s);
    assert Serving(s) && !s.phase.AwaitReady? && s.queued <= c.capacity;
    hide Filter, AllCarry, Downstream, PicoAgrees, Upstream, PicoDispatch, Granted;
    var s1 := s.(queued := s.queued - 1, dispatched := s.dispatched + 1, up := Granted(c, s));
    GrantUp(c, s, s1);
    if Empties(s) {
      NoticeUp(c, s1, PicoDispatch(c, s));
    } else if s.queued == 1 && s.ended {
      FinishedUp(c, s1);
    }
  }

  /** A sequence that has ended and drained finishes at the next task call. */
  lemma {:induction false} FinishKeeps(c: Config, s: State)
    requires ValidConfig(c) && Inv(c, s) && !(s.mode == PlayingMode && s.queued > 0)
    ensures Inv(c, PicoDispatch(c, s))
  {
    hide Filter, Flight, AllCarry;
  }

  lemma {:induction false} PopSound(c: Config, s: State, s': State)
    requires CreditSound(c, s) && CountsSame(s, s') && ToSend(s) >= 0 && InFlight(s') == InFlight(s) >= 0
    requires s'.up == Granted(c, s) && s'.queued == s.queued - 1 && s.queued > 0 && s.mode == PlayingMode && !s.ended
    ensures CreditSound(c, s')
  {
    hide Filter, Sound, ToSend, InFlight, Unconfirmed;
    FilterOne(s.up, Status(true, 1), StatusKind);
    SoundPop(c.capacity, s.queued, Acks(s), ToSend(s), InFlight(s), Unconfirmed(s), s.free, Status(true, 1));
    assert Acks(s) + [] == Acks(s);
  }

  lemma {:induction false} DispatchCredit(c: Config, s: State)
    requires ValidConfig(c) && Inv(c, s) && s.mode == PlayingMode && s.queued > 0
    ensures CreditFits(c, PicoDispatch(c, s))
  {
    DispatchPops(c, s);
    var s' := PicoDispatch(c, s);
    assert ToSend(s) >= 0 && InFlight(s) >= 0;
    hide Filter, Upstream, Downstream, PicoAgrees, PicoDispatch, CreditSound, Granted;
    if s'.underruns == 0 && !Closing(s') {
      assert !Closing(s) && CountsSame(s, s') && InFlight(s') == InFlight(s);
      PopSound(c, s, s');
    }
  }

  lemma {:induction false} ReceiveKeeps(c: Config, s: State)
    requires ValidConfig(c) && Inv(c, s) && s.down != [] && (s.down[0].QueueEvent? ==> s.queued < c.capacity)
    ensures Inv(c, PicoReceive(c, s))
  {
    hide Sound, Filter, Flight, AllCarry, Upstream, Downstream, PicoAgrees, CreditFits;
    match s.down[0]
    case QueueEvent(_) =>
      EventDown(c, s);
      EventUp(c, s);
      EventCredit(c, s);
    case QueueEnd =>
      EndDown(c, s);
      EndUp(c, s);
      EndCredit(c, s);
    case PlayStart =>
      PlayDown(c, s);
      PlayUp(c, s);
      PlayCredit(c, s);
  }

  // ---- runs ----

  /** Every action of either side keeps the invariant, and nothing is ever rejected. */
  lemma {:induction false} StepKeeps(c: Config, s: State, a: Action)
    requires ValidConfig(c) && Inv(c, s)
    ensures Inv(c, Step(c, s, a)) || ((Step(c, s, a).overflow || Abandoned(c, Step(c, s, a)))
              && PhaseFits(c, Step(c, s, a)))
    ensures Step(c, s, a).overflow ==> s.underruns > 0 && c.total > c.prebuffer + c.capacity
    ensures !Step(c, s, a).rejected
  {
    assert !s.rejected && !s.overflow && s.mode != ExpiredMode;
    hide Sound, Take, Filter, Flight, AllCarry, Downstream, ZeroStep;
    match a
    case Zero => ZeroKeeps(c, s);
    case Receive =>
      if PicoReceive(c, s).overflow {
        OverflowNeeds(c, s);
      } else if s.down != [] {
        ReceiveKeeps(c, s);
      }
    case Dispatch =>
      if s.mode == PlayingMode && s.queued > 0 {
        DispatchDown(c, s);
        DispatchUp(c, s);
        DispatchCredit(c, s);
      } else {
        FinishKeeps(c, s);
      }
    case Watch => WatchKeeps(c, s);
  }

  lemma {:induction false} WatchKeeps(c: Config, s: State)
    requires PhaseFits(c, s) && !s.overflow && (s.underruns > 0 ==> c.prebuffer < c.total)
    ensures PicoWatch(s) == s || (Abandoned(c, PicoWatch(s)) && PhaseFits(c, PicoWatch(s)))
    ensures PicoWatch(s).overflow == s.overflow && PicoWatch(s).rejected == s.rejected
  {
  }

  /** The queue was overrun, after an underrun, by a recording longer than prebuffer and capacity together. */
  ghost predicate Overrun(c: Config, s: State) {
    s.overflow && s.underruns > 0 && c.total > c.prebuffer + c.capacity
  }

  /** The watchdog ended the run, after an underrun. */
  ghost predicate Abandoned(c: Config, s: State) {
    s.mode == ExpiredMode && s.underruns > 0 && !s.overflow && c.prebuffer < c.total
  }

  lemma {:induction false} InvFits(c: Config, s: State)
    requires ValidConfig(c) && (Inv(c, s) || PhaseFits(c, s))
    ensures Sent(s) <= c.total
  {
  }

  lemma {:induction false} RunKeeps(c: Config, actions: seq<Action>)
    requires ValidConfig(c)
    ensures var s := Run(c, Init(c), actions);
            (Inv(c, s) || Overrun(c, s) || Abandoned(c, s)) && !s.rejected && Sent(s) <= c.total
  {
    hide Inv, Step, ValidConfig, PhaseFits, Sent;
    if actions == [] {
      InitInv(c);
      InvFits(c, Init(c));
    } else {
      RunKeeps(c, actions[..|actions| - 1]);
      var s := Run(c, Init(c), actions[..|actions| - 1]);
      if Inv(c, s) {
        StepKeeps(c, s, actions[|actions| - 1]);
        StepCounts(c, s, actions[|actions| - 1]);
        InvFits(c, Step(c, s, actions[|actions| - 1]));
      } else {
        StepHalts(c, s, actions[|actions| - 1]);
      }
    }
  }

  lemma {:induction false} StepHalts(c: Config, s: State, a: Action)
    requires s.overflow || s.mode == ExpiredMode
    ensures Step(c, s, a) == s
  {
  }

  /** The count of underruns never goes down. */
  lemma {:induction false} StepCounts(c: Config, s: State, a: Action)
    ensures Step(c, s, a).underruns >= s.underruns
  {
    ZeroLeavesPico(c, s);
    hide ZeroStep;
  }

  /** Credit safety: in a run without an underrun no event ever meets a full queue, not even counting every event in
      flight, and every status names the mode Zero expects; and Zero, about to spend credit, never holds more than the
      free slots that nothing in flight will take. */
  lemma {:induction false} CreditSafety(c: Config, actions: seq<Action>)
    requires ValidConfig(c) && Run(c, Init(c), actions).underruns == 0
    ensures var s := Run(c, Init(c), actions);
            !s.overflow && !s.rejected && s.mode != ExpiredMode && s.queued + InFlight(s) <= c.capacity
    ensures var s := Run(c, Init(c), actions);
            s.phase.Top? && !s.ended ==> s.free + s.queued + InFlight(s) <= c.capacity
    ensures var s := Run(c, Init(c), actions);
            s.phase.Sending? ==> s.queued + ToSend(s) + InFlight(s) <= c.capacity
  {
    RunKeeps(c, actions);
    hide Run;
  }

  // ---- no deadlock ----

  /** Blocked waiting for credit, Zero is never in the prebuffering stage, and either a frame with positive credit
      is already on its way or the queue is full and open, so the next pop sends one. */
  lemma {:induction false} CreditComes(c: Config, actions: seq<Action>)
    requires ValidConfig(c)
    requires !Run(c, Init(c), actions).overflow && Run(c, Init(c), actions).mode != ExpiredMode
    requires Run(c, Init(c), actions).phase.AwaitCredit?
    ensures var s := Run(c, Init(c), actions);
            s.mode == PlayingMode && !s.ended
    ensures var s := Run(c, Init(c), actions);
            || (exists r :: r in s.up && Credit(r) > 0)
            || (s.queued == c.capacity && exists r :: r in Step(c, s, Dispatch).up && Credit(r) == 1)
  {
    RunKeeps(c, actions);
    var s := Run(c, Init(c), actions);
    hide Run;
    if Acks(s) != [] && LastFree(s) > 0 {
      FilterSource(s.up, StatusKind, |Acks(s)| - 1);
    } else if s.queued == c.capacity {
      DispatchPops(c, s);
      var r := Status(true, 1);
      assert Granted(c, s)[|s.up|] == r;
      assert Step(c, s, Dispatch).up[|s.up|] == r;
      assert r in Step(c, s, Dispatch).up && Credit(r) == 1;
    }
  }

  lemma {:induction false} FilterSource(up: seq<Reply>, kind: Kind, i: nat)
    requires i < |Filter(up, kind)|
    ensures Filter(up, kind)[i] in up
  {
    if up[0].Kind() != kind {
      FilterSource(up[1..], kind, i);
    } else if i > 0 {
      FilterSource(up[1..], kind, i - 1);
    }
  }

  /** At rest: neither Zero nor the Pico's command dispatch nor its scheduler can move. The watchdog is left out, so it
      is never what a run has to wait for. */
  ghost predicate Stuck(c: Config, s: State) {
    forall a :: a != Watch ==> Step(c, s, a) == s
  }

  /** The whole recording was accepted in order, dispatched, and the run finished. */
  ghost predicate Complete(c: Config, s: State) {
    && s.phase.Done? && s.mode == FinishedMode && s.dispatched == |s.received| == c.total
    && forall i :: 0 <= i < c.total ==> s.received[i] == i
  }

  lemma {:induction false} ReadyBlocked(c: Config, s: State)
    requires ValidConfig(c) && Inv(c, s) && s.phase.AwaitReady? && ZeroReady(s) == s
    ensures s.down != []
  {
    hide Take, Filter, AllCarry, ZeroReady, PicoAgrees, Flight;
    if s.ended {
      TakeRemovesOne(s.up, {ReadyKind});
      TakeRemovesOne(Take(s.up, {ReadyKind}).rest, {StatusKind});
      ReadyMoves(s);
    }
  }

  lemma {:induction false} ReadyMoves(s: State)
    requires s.phase.AwaitReady? && Take(s.up, {ReadyKind}).Some?
               && Take(Take(s.up, {ReadyKind}).rest, {StatusKind}).Some?
    ensures |ZeroReady(s).up| < |s.up|
  {
    hide Take;
    TakeShortens(s.up, {ReadyKind});
    TakeShortens(Take(s.up, {ReadyKind}).rest, {StatusKind});
  }

  lemma {:induction false} AcksBlocked(c: Config, s: State)
    requires ValidConfig(c) && Inv(c, s) && s.phase.AwaitAcks? && ZeroAck(s) == s
    ensures s.down != []
  {
    OldestAck(c, s);
    hide Take, Filter, AllCarry, Removed, PicoAgrees;
  }

  /** Zero is blocked only while the Pico has something to receive or, waiting for credit, to dispatch. */
  lemma {:induction false} ZeroBlocked(c: Config, s: State)
    requires ValidConfig(c) && Inv(c, s) && ZeroStep(c, s) == s
    ensures s.phase.Done? || s.down != [] || (s.mode == PlayingMode && s.queued > 0)
  {
    hide Flight;
    match s.phase
    case AwaitAcks(_, _) =>
      AcksBlocked(c, s);
    case AwaitCredit =>
      TakeRemovesOne(s.up, {StatusKind, UnderrunKind});
      hide Take, Filter, AllCarry, Removed;
    case AwaitReady =>
      ReadyBlocked(c, s);
    case AwaitStarted =>
      TakeRemovesOne(s.up, {StartedKind});
      hide Take, Filter, AllCarry, Removed;
    case _ =>
  }

  lemma {:induction false} PicoBlocked(c: Config, s: State)
    requires !s.overflow && !s.rejected && s.mode != ExpiredMode && Stuck(c, s)
    ensures ZeroStep(c, s) == s && s.down == []
    ensures s.mode == PlayingMode ==> s.queued == 0 && !s.ended
  {
    hide ZeroStep;
    assert Step(c, s, Zero) == s && Step(c, s, Receive) == s && Step(c, s, Dispatch) == s;
  }

  /** No deadlock: a state in which neither side can move is a completed playback, whether or not there was an underrun
      and without any help from the watchdog. */
  lemma {:induction false} StuckIsComplete(c: Config, s: State)
    requires ValidConfig(c) && Inv(c, s) && Stuck(c, s)
    ensures Complete(c, s)
  {
    hide Stuck, CreditFits, AllCarry, Filter;
    PicoBlocked(c, s);
    ZeroBlocked(c, s);
    hide Upstream, ZeroStep;
    assert InFlight(s) == 0 && Control(c, s) == [];
  }

  // ---- termination ----

  function PhaseWork(p: Phase): nat {
    match p
    case Top => 34
    case AwaitCredit => 33
    case Sending(sent, _) => if sent == 0 then 32 else 36
    case AwaitAcks(_, _) => 35
    case AwaitReady => 20
    case AwaitStarted => 10
    case Done => 0
  }

  /** What is left to do, weighted so that every effective action lowers it. */
  function Work(c: Config, s: State): int {
    20 * (c.total - Sent(s)) + 10 * |s.down| + 5 * s.queued + 2 * |s.up| + PhaseWork(s.phase)
    + (if s.feeding then 0 else 40) + (if s.mode == FinishedMode || s.mode == ExpiredMode then 0 else 1)
  }

  lemma {:induction false} TakeShortens(up: seq<Reply>, wanted: set<Kind>)
    ensures Take(up, wanted).Some? ==> |Take(up, wanted).rest| == |up| - 1
  {
    TakeRemovesOne(up, wanted);
  }

  lemma {:induction false} ReadyWorks(c: Config, s: State)
    requires s.phase.AwaitReady? && ZeroReady(s) != s && !ZeroReady(s).rejected
    ensures Work(c, ZeroReady(s)) < Work(c, s)
  {
    hide Take;
    TakeShortens(s.up, {ReadyKind});
    if Take(s.up, {ReadyKind}).Some? {
      TakeShortens(Take(s.up, {ReadyKind}).rest, {StatusKind});
    }
  }

  lemma {:induction false} TopWorks(c: Config, s: State)
    requires s.phase.Top?
    ensures Work(c, ZeroTop(c, s)) < Work(c, s)
  {
    hide Min, Stop;
    var s' := ZeroTop(c, s);
    assert Sent(s') == Sent(s) && |s'.down| <= |s.down| + 1;
    assert PhaseWork(s'.phase) <= if s'.down == s.down then 33 else 20;
    assert s'.queued == s.queued && s'.up == s.up && s'.feeding == s.feeding && s'.mode == s.mode;
    hide ZeroTop, Sent;
  }

  lemma {:induction false} SendWorks(c: Config, s: State)
    requires PhaseFits(c, s) && s.phase.Sending?
    ensures Work(c, ZeroSend(s)) < Work(c, s)
  {
    hide Stop;
  }

  /** A wait that is satisfied consumes one reply; nothing else of the state but Zero's phase and credit moves. */
  lemma {:induction false} WaitWorks(c: Config, s: State)
    requires PhaseFits(c, s) && (s.phase.AwaitAcks? || s.phase.AwaitCredit? || s.phase.AwaitStarted?)
    requires ZeroStep(c, s) != s && !ZeroStep(c, s).rejected
    ensures Work(c, ZeroStep(c, s)) < Work(c, s)
  {
    TakeShortens(s.up, {StatusKind});
    TakeShortens(s.up, {StatusKind, UnderrunKind});
    TakeShortens(s.up, {StartedKind});
    var s' := ZeroStep(c, s);
    hide Take, Stop;
    assert Sent(s') == Sent(s) && s'.down == s.down && s'.queued == s.queued && s'.mode == s.mode;
    assert |s'.up| == |s.up| - 1 || (|s'.up| == |s.up| && s.phase.AwaitAcks? && s'.phase.Top?);
    hide ZeroStep, Sent;
  }

  lemma {:induction false} ZeroWorks(c: Config, s: State)
    requires ValidConfig(c) && PhaseFits(c, s) && ZeroStep(c, s) != s && !ZeroStep(c, s).rejected
    ensures Work(c, ZeroStep(c, s)) < Work(c, s)
  {
    hide Take, ZeroReady, ZeroTop, ZeroSend, ZeroAck, ZeroCredit, ZeroStarted, Work;
    match s.phase
    case Top => TopWorks(c, s);
    case Sending(_, _) => SendWorks(c, s);
    case AwaitReady => ReadyWorks(c, s);
    case Done =>
    case _ => WaitWorks(c, s);
  }

  lemma {:induction false} PicoWorks(c: Config, s: State, a: Action)
    requires a != Zero && Step(c, s, a) != s && s.queued <= c.capacity
    ensures Work(c, Step(c, s, a)) < Work(c, s)
  {
    if a == Dispatch && s.mode == PlayingMode && s.queued > 0 { DispatchPops(c, s); }
  }

  /** A run in which every action moves its side; blocked polling is left out. */
  ghost predicate Effective(c: Config, actions: seq<Action>) {
    actions == [] ||
    var before := actions[..|actions| - 1];
    Effective(c, before) && Run(c, Init(c), actions) != Run(c, Init(c), before)
  }

  lemma {:induction false} WorkBounds(c: Config, actions: seq<Action>)
    requires ValidConfig(c) && Effective(c, actions)
    ensures |actions| <= 20 * c.total + 75 - Work(c, Run(c, Init(c), actions))
  {
    if actions != [] {
      var before := actions[..|actions| - 1];
      var s := Run(c, Init(c), before);
      var a := actions[|actions| - 1];
      WorkBounds(c, before);
      RunKeeps(c, before);
      hide Run, Filter, Flight, CreditFits;
      if Inv(c, s) {
        if a == Zero { StepKeeps(c, s, a); ZeroWorks(c, s); } else { PicoWorks(c, s, a); }
      } else { StepHalts(c, s, a); }
    }
  }

  /** Every run makes at most 20 * total + 75 moves, so every run comes to rest, and Zero and the Pico never block each
      other: once both are at rest either the queue was overrun or the watchdog has already given up, each after an
      underrun, or the whole recording has been dispatched in order and the run has finished. */
  lemma {:induction false} EveryRunCompletes(c: Config, actions: seq<Action>)
    requires ValidConfig(c) && Effective(c, actions)
    ensures |actions| <= 20 * c.total + 75
    ensures Stuck(c, Run(c, Init(c), actions)) ==>
              var s := Run(c, Init(c), actions);
              ((s.overflow || s.mode == ExpiredMode) && s.underruns > 0) || Complete(c, s)
  {
    WorkBounds(c, actions);
    RunKeeps(c, actions);
    var s := Run(c, Init(c), actions);
    hide Run;
    if Inv(c, s) {
      if Stuck(c, s) { StuckIsComplete(c, s); }
    }
  }

  // ---- the run that overruns the queue ----

  lemma {:induction false} RunConcat(c: Config, s: State, a: seq<Action>, b: seq<Action>)
    ensures Run(c, s, a + b) == Run(c, Run(c, s, a), b)
    decreases |b|
  {
    if b == [] {
      assert a + b == a;
    } else {
      assert (a + b)[..|a + b| - 1] == a + b[..|b| - 1];
      RunConcat(c, s, a, b[..|b| - 1]);
    }
  }

  lemma {:induction false} RunOne(c: Config, s: State, a: seq<Action>, next: Action)
    ensures Run(c, s, a + [next]) == Step(c, Run(c, s, a), next)
  {
    assert (a + [next])[..|a|] == a;
  }

  function Ints(from: nat, n: nat): seq<nat>
    decreases n, from
  {
    if n == 0 then [] else Ints(from, n - 1) + [from + n - 1]
  }

  lemma {:induction false} IntsConcat(from: nat, m: nat, n: nat)
    ensures Ints(from, m) + Ints(from + m, n) == Ints(from, m + n)
    decreases n
  {
    if n != 0 { IntsConcat(from, m, n - 1); }
  }

  /** The acknowledgements of `n` events pushed onto a queue of `queued`. */
  function Statuses(c: Config, playing: bool, queued: nat, n: nat): seq<Reply>
    requires queued + n <= c.capacity
    decreases n, queued
  {
    if n == 0 then [] else [Status(playing, c.capacity - queued - 1)] + Statuses(c, playing, queued + 1, n - 1)
  }

  lemma {:induction false} StatusesGrow(c: Config, playing: bool, queued: nat, n: nat)
    requires queued + n < c.capacity
    ensures Statuses(c, playing, queued, n) + [Status(playing, c.capacity - queued - n - 1)]
              == Statuses(c, playing, queued, n + 1)
    decreases n
  {
    if n != 0 { StatusesGrow(c, playing, queued + 1, n - 1); }
  }

  lemma {:induction false} TakeFirst(r: Reply, rest: seq<Reply>)
    requires r.Status?
    ensures Take([r] + rest, {StatusKind}) == Some(r, rest)
  {
    assert ([r] + rest)[1..] == rest;
  }

  lemma {:induction false} TakeSkips(first: Reply, others: seq<Reply>, r: Reply, rest: seq<Reply>)
    requires first.Kind() != StatusKind && Take(others, {StatusKind}) == Some(r, rest)
    ensures Take([first] + others, {StatusKind}) == Some(r, [first] + rest)
  {
    assert ([first] + others)[1..] == others;
  }

  lemma {:induction false} HeadFirst(base: seq<Reply>, rest: seq<Reply>)
    requires base != []
    ensures [base[0]] + (base[1..] + rest) == base + rest
  {
    assert [base[0]] + base[1..] == base;
  }

  lemma {:induction false} TakePast(base: seq<Reply>, r: Reply, rest: seq<Reply>)
    requires r.Status? && Filter(base, StatusKind) == []
    ensures Take(base + ([r] + rest), {StatusKind}) == Some(r, base + rest)
  {
    if base == [] {
      hide Take;
      TakeFirst(r, rest);
      assert base + ([r] + rest) == [r] + rest && base + rest == rest;
    } else {
      var first, others := base[0], base[1..];
      assert first.Kind() != StatusKind && Filter(others, StatusKind) == [];
      hide Filter, Take;
      TakePast(others, r, rest);
      TakeSkips(first, others + ([r] + rest), r, others + rest);
      HeadFirst(base, [r] + rest);
      HeadFirst(base, rest);
    }
  }

  /** Zero at the head of its loop with credit the queue really has, and nothing of interest in the channels. */
  predicate Ready(c: Config, s: State) {
    && s.phase.Top? && s.down == [] && Filter(s.up, StatusKind) == []
    && !s.overflow && !s.rejected && s.mode != ExpiredMode && !s.ended && s.feeding == (s.mode == PlayingMode)
    && s.next <= Stop(c, s) && s.queued + s.free <= c.capacity
  }

  function Batch(c: Config, s: State): nat
    requires s.next <= Stop(c, s)
  {
    Min(Min(c.window, s.free), Stop(c, s) - s.next)
  }

  /** The state after `n` events of the batch were sent and received. */
  function MidBatch(c: Config, s: State, n: nat): State
    requires Ready(c, s) && n <= Batch(c, s)
  {
    s.(phase := Sending(n, Batch(c, s)), up := s.up + Statuses(c, s.feeding, s.queued, n),
    queued := s.queued + n, received := s.received + Ints(s.next, n))
  }

  lemma {:induction false} MidStart(c: Config, s: State)
    requires Ready(c, s) && s.next < Stop(c, s) && s.free > 0
    ensures Step(c, s, Zero) == MidBatch(c, s, 0)
  {
    assert s.up + [] == s.up && s.received + [] == s.received;
  }

  lemma {:induction false} MidStep(c: Config, s: State, n: nat)
    requires Ready(c, s) && n < Batch(c, s)
    ensures Step(c, Step(c, MidBatch(c, s, n), Zero), Receive) == MidBatch(c, s, n + 1)
  {
    var mid := MidBatch(c, s, n);
    var sent := mid.(phase := Sending(n + 1, Batch(c, s)), down := [QueueEvent(s.next + n)]);
    assert Step(c, mid, Zero) == sent by {
      assert [] + [QueueEvent(s.next + n)] == [QueueEvent(s.next + n)];
    }
    StatusesGrow(c, s.feeding, s.queued, n);
    hide Statuses, Filter, Batch, Min, ZeroStep;
    assert s.up + Statuses(c, s.feeding, s.queued, n) + [Status(s.feeding, c.capacity - s.queued - n - 1)]
        == s.up + Statuses(c, s.feeding, s.queued, n + 1);
    assert sent.down[1..] == [];
    assert s.received + Ints(s.next, n) + [s.next + n] == s.received + Ints(s.next, n + 1);
  }

  lemma {:induction false} SendAndReceive(c: Config, s: State, n: nat) returns (actions: seq<Action>)
    requires Ready(c, s) && s.next < Stop(c, s) && s.free > 0 && n <= Batch(c, s)
    ensures Run(c, s, actions) == MidBatch(c, s, n)
    decreases n
  {
    hide Step, Ready, Batch;
    if n == 0 {
      actions := [Zero];
      MidStart(c, s);
      RunOne(c, s, [], Zero);
    } else {
      actions := SendAndReceive(c, s, n - 1);
      MidStep(c, s, n - 1);
      RunOne(c, s, actions, Zero);
      RunOne(c, s, actions + [Zero], Receive);
      actions := actions + [Zero] + [Receive];
    }
  }

  /** The state with the last `left` acknowledgements of the batch outstanding. */
  function AckBatch(c: Config, s: State, left: nat): State
    requires Ready(c, s) && left <= Batch(c, s)
  {
    var b := Batch(c, s);
    s.(phase := AwaitAcks(left, b), up := s.up + Statuses(c, s.feeding, s.queued + b - left, left),
    queued := s.queued + b, received := s.received + Ints(s.next, b),
    free := if left == b then s.free else c.capacity - s.queued - (b - left))
  }

  lemma {:induction false} AckStart(c: Config, s: State)
    requires Ready(c, s)
    ensures Step(c, MidBatch(c, s, Batch(c, s)), Zero) == AckBatch(c, s, Batch(c, s))
  {
  }

  lemma {:induction false} AckStep(c: Config, s: State, left: nat)
    requires Ready(c, s) && 0 < left <= Batch(c, s)
    ensures Step(c, AckBatch(c, s, left), Zero) == AckBatch(c, s, left - 1)
  {
    var queued := s.queued + Batch(c, s) - left;
    var r := Status(s.feeding, c.capacity - queued - 1);
    var later := Statuses(c, s.feeding, queued + 1, left - 1);
    var before := AckBatch(c, s, left);
    assert before.up == s.up + ([r] + later);
    TakePast(s.up, r, later);
    hide Take, Filter, Statuses;
    assert ZeroAck(before) == ZeroAccept(before, r, s.up + later, AwaitAcks(left - 1, Batch(c, s)));
    assert Step(c, before, Zero) == ZeroAck(before);
    hide Batch, ZeroAck, Step;
  }

  lemma {:induction false} AckAll(c: Config, s: State, left: nat) returns (actions: seq<Action>)
    requires Ready(c, s) && left <= Batch(c, s)
    ensures Run(c, AckBatch(c, s, left), actions) == AckBatch(c, s, 0)
    decreases left
  {
    hide Step, Ready, Batch;
    if left == 0 {
      actions := [];
    } else {
      var rest := AckAll(c, s, left - 1);
      AckStep(c, s, left);
      RunOne(c, AckBatch(c, s, left), [], Zero);
      RunConcat(c, AckBatch(c, s, left), [Zero], rest);
      actions := [Zero] + rest;
    }
  }

  /** The state after one whole batch. */
  function Fed(c: Config, s: State): State
    requires Ready(c, s)
  {
    var b := Batch(c, s);
    s.(next := s.next + b, free := c.capacity - s.queued - b, queued := s.queued + b, received :=
        s.received + Ints(s.next, b))
  }

  lemma {:induction false} AckEnd(c: Config, s: State)
    requires Ready(c, s) && Batch(c, s) > 0
    ensures Step(c, AckBatch(c, s, 0), Zero) == Fed(c, s)
  {
    assert s.up + [] == s.up;
  }

  lemma {:induction false} FeedBatch(c: Config, s: State) returns (actions: seq<Action>)
    requires Ready(c, s) && s.next < Stop(c, s) && s.free > 0 && c.window > 0
    ensures Run(c, s, actions) == Fed(c, s)
  {
    var b := Batch(c, s);
    assert b > 0;
    hide Step, Ready, Batch;
    var sends := SendAndReceive(c, s, b);
    AckStart(c, s);
    RunOne(c, s, sends, Zero);
    var acks := AckAll(c, s, b);
    RunConcat(c, s, sends + [Zero], acks);
    AckEnd(c, s);
    RunOne(c, s, sends + [Zero] + acks, Zero);
    actions := sends + [Zero] + acks + [Zero];
  }

  /** Batches until the target is reached or the queue is full. */
  lemma {:induction false} Fill(c: Config, s: State) returns (actions: seq<Action>, n: nat)
    requires Ready(c, s) && c.window > 0 && (s.next == Stop(c, s) || s.free > 0)
    ensures s.next + n <= Stop(c, s) && s.queued + n <= c.capacity
    ensures Run(c, s, actions) == s.(next := s.next + n, free := if n == 0 then s.free else c.capacity - s.queued - n,
                                     queued := s.queued + n, received := s.received + Ints(s.next, n))
    ensures s.next + n == Stop(c, s) || s.queued + n == c.capacity
    decreases Stop(c, s) - s.next
  {
    hide Step;
    if s.next == Stop(c, s) {
      actions, n := [], 0;
      assert s.received + [] == s.received;
    } else {
      var first := FeedBatch(c, s);
      var b := Batch(c, s);
      var fed := Fed(c, s);
      if fed.free == 0 {
        actions, n := first, b;
      } else {
        assert Ready(c, fed) && Stop(c, fed) == Stop(c, s);
        hide Ready, Batch;
        var rest, m := Fill(c, fed);
        RunConcat(c, s, first, rest);
        IntsConcat(s.next, b, m);
        assert s.received + Ints(s.next, b) + Ints(s.next + b, m) == s.received + Ints(s.next, b + m);
        actions, n := first + rest, b + m;
      }
    }
  }

  /** An open queue that is not full drains without a grant, and the last pop leaves an underrun notice. */
  lemma {:induction false} DispatchAll(c: Config, s: State) returns (actions: seq<Action>)
    requires s.mode == PlayingMode && !s.ended && !s.overflow && !s.rejected && 0 < s.queued < c.capacity
    ensures Run(c, s, actions) == s.(queued := 0, dispatched := s.dispatched + s.queued, underruns := s.underruns + 1,
                                     up := s.up + [UnderrunNotice(c.capacity)])
    decreases s.queued
  {
    DispatchPops(c, s);
    RunOne(c, s, [], Dispatch);
    var popped := Step(c, s, Dispatch);
    if s.queued == 1 {
      actions := [Dispatch];
    } else {
      hide PicoDispatch;
      var rest := DispatchAll(c, popped);
      RunConcat(c, s, [Dispatch], rest);
      actions := [Dispatch] + rest;
    }
  }

  /** Playing, the prebuffer sent, nothing in the channels but what `up` names. */
  function Streaming(c: Config, free: nat, queued: nat, underruns: nat, up: seq<Reply>): State
    requires queued <= c.prebuffer
  {
    State(Top, true, c.prebuffer, free, false, [], up,
          PlayingMode, false, queued, Ints(0, c.prebuffer), c.prebuffer - queued, underruns, false)
  }

  /** start(): the prebuffer is queued and PLAY_START acknowledged. */
  lemma {:induction false} StartPlaying(c: Config) returns (actions: seq<Action>)
    requires ValidConfig(c) && c.prebuffer < c.total
    ensures Run(c, Init(c), actions) == Streaming(c, c.capacity - c.prebuffer, c.prebuffer, 0, [])
  {
    var s0 := Init(c);
    var fill, n := Fill(c, s0);
    var s1 := Run(c, s0, fill);
    assert n == c.prebuffer && [] + Ints(0, n) == Ints(0, n);
    hide Run;
    assert s1.phase.Top? && s1.down == [] && s1.up == [] && s1.queued == c.prebuffer;
    var s2 := s1.(phase := AwaitStarted, down := [PlayStart]);
    var s3 := s1.(phase := AwaitStarted, mode := PlayingMode, up := [Started]);
    Announced(c, s1, s2, s3);
    hide Step;
    RunOne(c, s0, fill, Zero);
    RunOne(c, s0, fill + [Zero], Receive);
    RunOne(c, s0, fill + [Zero] + [Receive], Zero);
    actions := fill + [Zero] + [Receive] + [Zero];
  }

  /** PLAY_START, PLAY_STARTED, and Zero begins to stream. */
  lemma {:induction false} Announced(c: Config, s1: State, s2: State, s3: State)
    requires ValidConfig(c) && c.prebuffer < c.total
    requires s1 == Streaming(c, c.capacity - c.prebuffer, c.prebuffer, 0, []).(feeding := false, mode := ArmedMode)
    requires s2 == s1.(phase := AwaitStarted, down := [PlayStart])
    requires s3 == s1.(phase := AwaitStarted, mode := PlayingMode, up := [Started])
    ensures Step(c, s1, Zero) == s2 && Step(c, s2, Receive) == s3
    ensures Step(c, s3, Zero) == Streaming(c, c.capacity - c.prebuffer, c.prebuffer, 0, [])
  {
    assert Take([Started], {StartedKind}) == Some(Started, []);
  }

  /** A full prebuffer: Zero blocks, the first pop grants one slot, and Zero takes the grant. */
  lemma {:induction false} GrantFirst(c: Config) returns (actions: seq<Action>)
    requires ValidConfig(c) && c.prebuffer < c.total && c.prebuffer == c.capacity
    ensures Run(c, Streaming(c, 0, c.capacity, 0, []), actions)
         == Streaming(c, 1, c.capacity - 1, if c.capacity == 1 then 1 else 0, if c.capacity == 1
             then [UnderrunNotice(1)] else [])
  {
    var s0 := Streaming(c, 0, c.capacity, 0, []);
    var s1 := s0.(phase := AwaitCredit);
    assert Step(c, s0, Zero) == s1;
    DispatchPops(c, s1);
    var rest := if c.capacity == 1 then [UnderrunNotice(1)] else [];
    var s2 := Step(c, s1, Dispatch);
    assert s2.up == [Status(true, 1)] + rest;
    assert s2.up[1..] == rest;
    assert Step(c, s2, Zero) == Streaming(c, 1, c.capacity - 1, if c.capacity == 1 then 1 else 0, rest);
    RunOne(c, s0, [], Zero);
    RunOne(c, s0, [Zero], Dispatch);
    RunOne(c, s0, [Zero] + [Dispatch], Zero);
    actions := [Zero] + [Dispatch] + [Zero];
  }

  /** The queue runs dry while Zero still holds credit: the notice of the underrun stays in the channel. */
  lemma {:induction false} LeaveNotice(c: Config) returns (actions: seq<Action>, free: nat)
    requires ValidConfig(c) && c.prebuffer < c.total
    ensures 0 < free <= c.capacity
    ensures Run(c, Streaming(c, c.capacity - c.prebuffer, c.prebuffer, 0, []), actions)
         == Streaming(c, free, 0, 1, [UnderrunNotice(c.capacity)])
  {
    var s := Streaming(c, c.capacity - c.prebuffer, c.prebuffer, 0, []);
    var notice := [UnderrunNotice(c.capacity)];
    assert [] + notice == notice;
    hide Run;
    if c.prebuffer < c.capacity {
      actions := DispatchAll(c, s);
      free := c.capacity - c.prebuffer;
    } else {
      free := 1;
      actions := GrantFirst(c);
      if c.capacity > 1 {
        var rest := DispatchAll(c, Streaming(c, 1, c.capacity - 1, 0, []));
        RunConcat(c, s, actions, rest);
        actions := actions + rest;
      }
    }
  }

  /** With the queue full again, Zero spends the stale notice, and the next event meets a full queue. */
  lemma {:induction false} SpendNotice(c: Config, s: State)
    requires ValidConfig(c) && s.phase.Top? && s.feeding && s.free == 0 && s.next < c.total && s.queued == c.capacity
    requires s.down == [] && s.up == [UnderrunNotice(c.capacity)] && !s.overflow && !s.rejected && s.mode != ExpiredMode
    ensures Run(c, s, [Zero] + [Zero] + [Zero] + [Zero] + [Receive]).overflow
  {
    var s1 := s.(phase := AwaitCredit);
    assert Step(c, s, Zero) == s1;
    assert s1.up[1..] == [];
    var s2 := s.(free := c.capacity, up := []);
    assert Step(c, s1, Zero) == s2;
    var s3 := Step(c, s2, Zero);
    assert s3 == s2.(phase := Sending(0, s3.phase.batch)) && s3.phase.batch > 0;
    var s4 := Step(c, s3, Zero);
    assert s4.down == [QueueEvent(s.next)] && s4.queued == c.capacity;
    RunOne(c, s, [], Zero);
    RunOne(c, s, [Zero], Zero);
    RunOne(c, s, [Zero] + [Zero], Zero);
    RunOne(c, s, [Zero] + [Zero] + [Zero], Zero);
    RunOne(c, s, [Zero] + [Zero] + [Zero] + [Zero], Receive);
  }

  /** The run in which a deferred PLAY_UNDERRUN is spent as if its capacity were current. */
  lemma {:induction false} StaleCreditOverruns(c: Config) returns (actions: seq<Action>)
    requires ValidConfig(c) && c.total > c.prebuffer + c.capacity
    ensures Run(c, Init(c), actions).overflow
  {
    var start := StartPlaying(c);
    var dry, free := LeaveNotice(c);
    var s := Streaming(c, free, 0, 1, [UnderrunNotice(c.capacity)]);
    assert Filter(s.up[1..], StatusKind) == [];
    assert Ready(c, s);
    hide Ready, Run, Filter;
    var fill, n := Fill(c, s);
    var full := Run(c, s, fill);
    assert n == c.capacity;
    SpendNotice(c, full);
    var spend := [Zero] + [Zero] + [Zero] + [Zero] + [Receive];
    RunConcat(c, Init(c), start, dry);
    RunConcat(c, Init(c), start + dry, fill);
    RunConcat(c, Init(c), start + dry + fill, spend);
    actions := start + dry + fill + spend;
  }

  /** Credit safety with underruns allowed fails, and exactly this is when: some run overruns the queue if and only
      if the recording is longer than prebuffer and capacity together. */
  lemma {:induction false} OverrunIffLonger(c: Config)
    requires ValidConfig(c)
    ensures (exists actions :: Run(c, Init(c), actions).overflow) <==> c.total > c.prebuffer + c.capacity
  {
    if c.total > c.prebuffer + c.capacity {
      var actions := StaleCreditOverruns(c);
      assert Run(c, Init(c), actions).overflow;
    } else {
      forall actions ensures !Run(c, Init(c), actions).overflow { RunKeeps(c, actions); }
    }
  }

  /** The watchdog can end a run exactly when the recording does not fit the prebuffer, because only then is the
      sequence still open when playback starts; and then it can do so while the queue is empty and open. */
  lemma {:induction false} ExpiresIffStreamed(c: Config)
    requires ValidConfig(c)
    ensures (exists actions :: Run(c, Init(c), actions).mode == ExpiredMode) <==> c.prebuffer < c.total
    ensures c.prebuffer < c.total ==>
              exists actions ::
                var s := Run(c, Init(c), actions);
                s.mode == ExpiredMode && s.queued == 0 && !s.ended
  {
    if c.prebuffer < c.total {
      var start := StartPlaying(c);
      var dry, free := LeaveNotice(c);
      RunConcat(c, Init(c), start, dry);
      RunOne(c, Init(c), start + dry, Watch);
      assert Run(c, Init(c), start + dry + [Watch]).mode == ExpiredMode;
    } else {
      forall actions ensures Run(c, Init(c), actions).mode != ExpiredMode {
        RunKeeps(c, actions);
        hide Run;
      }
    }
  }
}
