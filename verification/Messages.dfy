/** Pico-to-Zero messages as the firmware offers them to the UART, and the shape of a well-formed trace. */
module Messages {
  import opened Bits
  import opened PlaybackQueues
  import opened KeyboardCaptures
  import opened Lateness

  datatype Mode = Pass | Record | Armed | Playing | Error

  datatype Reason = Okay | InvalidTransition | InvalidTarget | ProtocolError | UartFault | Aborted | Underrun | Finished

  datatype Message =
    | RecordEvent(event: Captured)
    | PicoStatus(mode: Mode, faults: seq<bool>)
    | BufferStatus(mode: Mode, queued: nat, free: nat)
    | PlayReady
    | PlayStarted(epoch: nat)
    | PlayFinished
    | PlayAborted
    | PlayUnderrun(elapsed: nat, free: nat)
    | Pong
    | ModeChanged(mode: Mode, reason: Reason)
    | PlayMetrics(metrics: Metrics)

  /** Commands that passed the transport checks; a queue event always carries an 8-byte report. */
  datatype Command =
    | SetMode(target: byte)
    | StartPlay
    | AbortPlay
    | Ping
    | StatusRequest
    | ClearQueue
    | AddEvent(offset: nat, report: Report)
    | EndQueue

  /** Where a reader of the wire stands: outside any run, between MODE_CHANGED(PLAYING, OK) and PLAY_STARTED,
      inside a run, after the outcome of a run, after its metrics. */
  datatype Phase = Idle | Starting | Live | Ended | Measured | Bad

  function Advance(phase: Phase, m: Message): Phase {
    match phase
    case Idle =>
      if m == ModeChanged(Playing, Okay) then Starting
      else if m.ModeChanged? && m.mode == Playing then Bad
      else if m.PlayStarted? || m.PlayFinished? || m.PlayAborted? || m.PlayMetrics? || m.PlayUnderrun? then Bad
      else Idle
    case Starting => if m.PlayStarted? then Live else Bad
    case Live =>
      if m.PlayFinished? || m.PlayAborted? then Ended
      else if m.PlayStarted? || m.PlayMetrics? || m.PlayReady? || m.RecordEvent? then Bad
      else if m.ModeChanged? && (m.mode != Playing || m.reason == Okay) then Bad
      else Live
    case Ended => if m.PlayMetrics? then Measured else Bad
    case Measured => if m.ModeChanged? && m.mode != Playing then Idle else Bad
    case Bad => Bad
  }

  /** Everything the theorems read off a trace: its phase, the PLAY_UNDERRUNs of the current run, all
      RECORD_EVENTs, the outcome and metrics of every run, and the mode named last. A RECORD_EVENT is out of place
      unless that mode is RECORD. */
  datatype Digest = Digest(phase: Phase, underruns: nat, records: seq<Captured>, outcomes: seq<Outcome>, mode: Mode)

  /** How a run ended, how many PLAY_UNDERRUNs were offered since its PLAY_STARTED, and its metrics. */
  datatype Outcome = Outcome(finished: bool, notices: nat, metrics: Metrics)

  function Extend(d: Digest, m: Message): Digest {
    Digest(
      if m.RecordEvent? && d.mode != Record then Bad else Advance(d.phase, m),
      if m.PlayStarted? then 0 else if m.PlayUnderrun? then d.underruns + 1 else d.underruns,
      if m.RecordEvent? then d.records + [m.event] else d.records,
      if m.PlayFinished? || m.PlayAborted? then d.outcomes + [Outcome(m.PlayFinished?, d.underruns, NO_METRICS)]
      else if m.PlayMetrics? && d.outcomes != [] then
        d.outcomes[..|d.outcomes| - 1] + [d.outcomes[|d.outcomes| - 1].(metrics := m.metrics)]
      else d.outcomes,
      if m.ModeChanged? then m.mode else d.mode)
  }

  const NO_METRICS: Metrics := Metrics(0, 0, 0, 0, 0, 0, 0, false)

  function DigestOf(trace: seq<Message>): Digest {
    if trace == [] then Digest(Idle, 0, [], [], Pass)
    else Extend(DigestOf(trace[..|trace| - 1]), trace[|trace| - 1])
  }

  lemma {:induction false} DigestStep(trace: seq<Message>, m: Message)
    ensures DigestOf(trace + [m]) == Extend(DigestOf(trace), m)
  {
    assert (trace + [m])[..|trace|] == trace;
  }

  /** The outcome and the metrics of a run, back to back. */
  lemma {:induction false} DigestOutcome(d: Digest, finished: bool, metrics: Metrics)
    requires d.phase == Live
    ensures Extend(Extend(d, if finished then PlayFinished else PlayAborted), PlayMetrics(metrics))
            == Digest(Measured, d.underruns, d.records, d.outcomes + [Outcome(finished, d.underruns, metrics)], d.mode)
  {
  }

  /** `part` is what is left of `whole` when some elements are dropped. */
  predicate Subsequence<T(==)>(part: seq<T>, whole: seq<T>) {
    if whole == [] then part == []
    else
      || Subsequence(part, whole[..|whole| - 1])
      || (part != [] && part[|part| - 1] == whole[|whole| - 1] && Subsequence(part[..|part| - 1], whole[..|whole| - 1]))
  }

  lemma {:induction false} SubsequenceStep<T>(part: seq<T>, whole: seq<T>, x: T, kept: bool)
    requires Subsequence(part, whole)
    ensures Subsequence(if kept then part + [x] else part, whole + [x])
  {
    assert (whole + [x])[..|whole|] == whole;
    assert (part + [x])[..|part|] == part;
  }

  lemma {:induction false} SubsequenceSame<T>(whole: seq<T>)
    ensures Subsequence(whole, whole)
  {
    if whole != [] { SubsequenceSame(whole[..|whole| - 1]); }
  }

  lemma {:induction false} SubsequenceExtend<T>(part: seq<T>, whole: seq<T>, more: seq<T>)
    requires Subsequence(part, whole)
    ensures Subsequence(part + more, whole + more)
  {
    if more == [] {
      assert part + more == part && whole + more == whole;
    } else {
      var n := |more| - 1;
      SubsequenceExtend(part, whole, more[..n]);
      SubsequenceStep(part + more[..n], whole + more[..n], more[n], true);
      assert part + more == part + more[..n] + [more[n]] && whole + more == whole + more[..n] + [more[n]];
    }
  }

  lemma {:induction false} SubsequenceDrop<T>(a: seq<T>, x: T, b: seq<T>, whole: seq<T>)
    requires Subsequence(a + [x] + b, whole)
    ensures Subsequence(a + b, whole)
    decreases |whole|
  {
    var part, n := a + [x] + b, |whole| - 1;
    if Subsequence(part, whole[..n]) {
      SubsequenceDrop(a, x, b, whole[..n]);
    } else if b == [] {
      assert part[..|part| - 1] == a && a + b == a;
    } else {
      var c := b[..|b| - 1];
      assert part[..|part| - 1] == a + [x] + c && (a + b)[..|a + b| - 1] == a + c;
      SubsequenceDrop(a, x, c, whole[..n]);
    }
  }

  lemma {:induction false} SubsequenceTrans<T>(a: seq<T>, b: seq<T>, c: seq<T>)
    requires Subsequence(a, b) && Subsequence(b, c)
    ensures Subsequence(a, c)
    decreases |c|, |b|
  {
    if c != [] {
      var c' := c[..|c| - 1];
      if Subsequence(b, c') {
        SubsequenceTrans(a, b, c');
      } else {
        var b' := b[..|b| - 1];
        if Subsequence(a, b') {
          SubsequenceTrans(a, b', c');
        } else {
          SubsequenceTrans(a[..|a| - 1], b', c');
        }
      }
    }
  }

  lemma {:induction false} SubsequencePrefix<T>(whole: seq<T>, n: nat)
    requires n <= |whole|
    ensures Subsequence(whole[..n], whole)
  {
    if n == |whole| {
      assert whole[..n] == whole;
      SubsequenceSame(whole);
    } else {
      var front := whole[..|whole| - 1];
      SubsequencePrefix(front, n);
      assert front[..n] == whole[..n];
    }
  }

  lemma {:induction false} SubsequenceNone<T>(whole: seq<T>)
    ensures Subsequence([], whole)
  {
    if whole != [] { SubsequenceNone(whole[..|whole| - 1]); }
  }

  lemma {:induction false} SubsequenceAfter<T>(head: seq<T>, part: seq<T>, whole: seq<T>)
    requires Subsequence(part, whole)
    ensures Subsequence(head + part, head + whole)
  {
    if whole == [] {
      assert head + part == head && head + whole == head;
      SubsequenceSame(head);
    } else {
      var n := |whole| - 1;
      assert (head + whole)[..|head| + n] == head + whole[..n];
      if Subsequence(part, whole[..n]) {
        SubsequenceAfter(head, part, whole[..n]);
      } else {
        assert (head + part)[..|head + part| - 1] == head + part[..|part| - 1];
        SubsequenceAfter(head, part[..|part| - 1], whole[..n]);
      }
    }
  }

  lemma {:induction false} SubsequenceElements<T>(part: seq<T>, whole: seq<T>, x: T)
    requires Subsequence(part, whole) && x in part
    ensures x in whole
  {
    var n := |whole| - 1;
    if Subsequence(part, whole[..n]) {
      SubsequenceElements(part, whole[..n], x);
    } else if x in part[..|part| - 1] {
      SubsequenceElements(part[..|part| - 1], whole[..n], x);
    }
  }

  /** The values fit the fields of their payload, all but the sum of PLAY_METRICS, which fits as long as the run had
      at most 2^32 dispatches. */
  predicate FieldsFit(m: Message) {
    match m
    case PicoStatus(_, faults) => |faults| == 4
    case BufferStatus(_, queued, free) => queued < 0x1_0000 && free < 0x1_0000
    case PlayStarted(epoch) => epoch < 0x1_0000_0000_0000_0000
    case PlayUnderrun(elapsed, free) => elapsed < 0x1_0000_0000_0000_0000 && free < 0x1_0000
    case _ => true
  }

  predicate AllFieldsFit(trace: seq<Message>) {
    trace == [] || (AllFieldsFit(trace[..|trace| - 1]) && FieldsFit(trace[|trace| - 1]))
  }

  lemma {:induction false} FieldsFitStep(trace: seq<Message>, m: Message)
    requires AllFieldsFit(trace) && FieldsFit(m)
    ensures AllFieldsFit(trace + [m])
  {
    assert (trace + [m])[..|trace|] == trace;
  }

  lemma {:induction false} FieldsFitAt(trace: seq<Message>, m: Message)
    requires AllFieldsFit(trace) && m in trace
    ensures FieldsFit(m)
  {
    if m != trace[|trace| - 1] { FieldsFitAt(trace[..|trace| - 1], m); }
  }

  /** The frames that carry the free capacity of the queue. */
  predicate CarriesCredit(m: Message) {
    m.BufferStatus? || m.PlayUnderrun?
  }

  /** One of the frames offered from position `from` on carries credit and found no room. */
  ghost predicate LosesCredit(room: nat -> bool, offered: seq<Message>, from: nat) {
    exists i :: from <= i < |offered| && CarriesCredit(offered[i]) && !room(i)
  }

  lemma {:induction false} LosesMore(room: nat -> bool, before: seq<Message>, more: seq<Message>, from: nat)
    requires from <= |before|
    ensures LosesCredit(room, before + more, from)
            <==> LosesCredit(room, before, from) || LosesCredit(room, before + more, |before|)
  {
    var all := before + more;
    if LosesCredit(room, before, from) {
      var i :| from <= i < |before| && CarriesCredit(before[i]) && !room(i);
      assert CarriesCredit(all[i]);
    }
    if LosesCredit(room, all, from) && !LosesCredit(room, all, |before|) {
      var i :| from <= i < |all| && CarriesCredit(all[i]) && !room(i);
      assert CarriesCredit(before[i]);
    }
  }

  lemma {:induction false} LosesNewest(room: nat -> bool, before: seq<Message>, m: Message)
    ensures LosesCredit(room, before + [m], |before|) <==> CarriesCredit(m) && !room(|before|)
  {
    assert (before + [m])[|before|] == m;
  }

  lemma {:induction false} LosesNone(room: nat -> bool, before: seq<Message>, more: seq<Message>)
    requires forall m :: m in more ==> !CarriesCredit(m)
    ensures !LosesCredit(room, before + more, |before|) && !LosesCredit(room, before, |before|)
  {
    forall i | |before| <= i < |before + more|
      ensures !CarriesCredit((before + more)[i])
    {
      assert (before + more)[i] == more[i - |before|];
    }
  }

  /** The frames that found room, in order. */
  ghost function Kept(room: nat -> bool, offered: seq<Message>): (kept: seq<Message>)
    ensures |kept| <= |offered|
  {
    if offered == [] then []
    else
      var n := |offered| - 1;
      Kept(room, offered[..n]) + if room(n) then [offered[n]] else []
  }

  lemma {:induction false} KeptStep(room: nat -> bool, offered: seq<Message>, m: Message)
    ensures Kept(room, offered + [m]) == Kept(room, offered) + if room(|offered|) then [m] else []
  {
    assert (offered + [m])[..|offered|] == offered;
  }

  lemma {:induction false} KeptIsSubsequence(room: nat -> bool, offered: seq<Message>)
    ensures Subsequence(Kept(room, offered), offered)
  {
    if offered != [] {
      var n := |offered| - 1;
      KeptIsSubsequence(room, offered[..n]);
      assert offered == offered[..n] + [offered[n]] && Kept(room, offered[..n]) + [] == Kept(room, offered[..n]);
      SubsequenceStep(Kept(room, offered[..n]), offered[..n], offered[n], room(n));
    }
  }

  /** What was kept of a beginning is a beginning of what was kept, and the rest comes from the rest. */
  lemma {:induction false} KeptSplit(room: nat -> bool, offered: seq<Message>, n: nat)
    requires n <= |offered|
    ensures Kept(room, offered[..n]) <= Kept(room, offered)
    ensures forall m :: m in Kept(room, offered)[|Kept(room, offered[..n])|..] ==> m in offered[n..]
  {
    if n == |offered| {
      assert offered[..n] == offered;
    } else {
      var k := |offered| - 1;
      var front := offered[..k];
      assert front[..n] == offered[..n];
      KeptSplit(room, front, n);
      var part, whole := Kept(room, front[..n]), Kept(room, front);
      assert offered[n..] == front[n..] + [offered[k]];
      assert Kept(room, offered)[|part|..] == whole[|part|..] + if room(k) then [offered[k]] else [];
    }
  }

  /** Where the newest run of a trace starts. */
  function LastStart(trace: seq<Message>): (k: nat)
    ensures k <= |trace|
  {
    if trace == [] then 0
    else if trace[|trace| - 1].PlayStarted? then |trace| - 1
    else LastStart(trace[..|trace| - 1])
  }

  lemma {:induction false} LastStartSame(before: seq<Message>, more: seq<Message>)
    requires forall m :: m in more ==> !m.PlayStarted?
    ensures LastStart(before + more) == LastStart(before)
  {
    if more == [] {
      assert before + more == before;
    } else {
      var n := |more| - 1;
      assert (before + more)[..|before| + n] == before + more[..n];
      LastStartSame(before, more[..n]);
    }
  }

  lemma {:induction false} LastStartNew(before: seq<Message>, m: Message, more: seq<Message>)
    requires m.PlayStarted? && forall x :: x in more ==> !x.PlayStarted?
    ensures LastStart(before + [m] + more) == |before|
  {
    LastStartSame(before + [m], more);
  }

  /** The transport seen from main.c: frames are offered in order, and any frame may be dropped whole. */
  class Wire {
    /** Whether the ring has room for the n-th frame it is offered: any pattern. */
    const room: nat -> bool
    var offered: seq<Message>
    /** The offered frames that were not dropped. */
    ghost var accepted: seq<Message>
    ghost var digest: Digest

    ghost predicate Valid()
      reads this
    {
      digest == DigestOf(offered) && accepted == Kept(room, offered) && AllFieldsFit(offered)
    }

    /** A frame that carries credit was dropped at position `from` or later. */
    ghost predicate LostCredit(from: nat)
      reads `offered
    {
      LosesCredit(room, offered, from)
    }

    constructor (room: nat -> bool)
      ensures Valid() && this.room == room && offered == [] && accepted == [] && digest == Digest(Idle, 0, [], [], Pass)
    {
      this.room := room;
      offered := [];
      accepted := [];
      digest := Digest(Idle, 0, [], [], Pass);
    }

    /** pico_uart_transport_queue_frame: false when the ring has no room for the whole frame. */
    method QueueFrame(m: Message) returns (ok: bool)
      requires Valid() && FieldsFit(m)
      modifies this
      ensures Valid() && offered == old(offered) + [m] && ok == room(|old(offered)|)
      ensures accepted == if ok then old(accepted) + [m] else old(accepted)
      ensures digest == Extend(old(digest), m)
    {
      ok := room(|offered|);
      DigestStep(offered, m);
      KeptStep(room, offered, m);
      FieldsFitStep(offered, m);
      digest := Extend(digest, m);
      offered := offered + [m];
      accepted := if ok then accepted + [m] else accepted;
    }
  }
}
