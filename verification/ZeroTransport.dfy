/** Zero's side of the link (zero/app/transport.py): a deque of decoded frames, waits that defer everything but the
    frame they want, and the retried MODE_SET. What each read finds until a deadline is an input. */
module ZeroTransport {
  import opened Bits
  import opened Framing
  import opened KeyboardCaptures
  import opened Messages
  import opened Payloads
  import opened ZeroDecoder

  /** A value, TransportTimeout, or any other RecorderError. */
  datatype Result<T> = Ok(value: T) | Timeout | Failed

  /** require_not_error raises for these. */
  predicate Refused(f: Frame)
    requires ValidNotice(f)
  {
    || f.messageType == ERROR
    || (f.messageType == PICO_STATUS &&
        match Unpack(f)
        case Valid(PicoStatus(mode, faults)) => mode == Mode.Error || true in faults
        case _ => true)
    || (f.messageType == MODE_CHANGED &&
        match Unpack(f)
        case Valid(ModeChanged(mode, _)) => mode == Mode.Error
        case _ => true)
  }

  /** What the firmware can send is refused exactly when it reports ERROR, as its mode or as the mode it went to, or a
      fault flag. */
  lemma {:induction false} RefusedWhen(m: Message)
    requires Fits(m)
    ensures ValidNotice(FrameOf(m))
    ensures Refused(FrameOf(m)) <==>
            || (m.PicoStatus? && (m.mode == Mode.Error || exists i :: 0 <= i < 4 && m.faults[i]))
            || (m.ModeChanged? && m.mode == Mode.Error)
  {
    MessagesUnpack(m);
    hide Unpack, Write, MetricsBytes;
  }

  /** The capture a RECORD_EVENT carries. */
  function CaptureOf(f: Frame): Captured
    requires ValidNotice(f) && f.messageType == RECORD_EVENT
  {
    Captured(ReadUint64(f.payload[..8]), f.payload[9..])
  }

  /** The RECORD_EVENTs of a sequence of frames, in order. */
  function Records(frames: seq<Frame>): seq<Captured>
    requires AllNotices(frames)
  {
    if frames == [] then []
    else (if frames[0].messageType == RECORD_EVENT then [CaptureOf(frames[0])] else []) + Records(frames[1..])
  }

  lemma {:induction false} RecordsConcat(a: seq<Frame>, b: seq<Frame>)
    requires AllNotices(a) && AllNotices(b)
    ensures AllNotices(a + b) && Records(a + b) == Records(a) + Records(b)
  {
    hide CaptureOf, ValidNotice;
    if a == [] {
      assert a + b == b && [] + Records(b) == Records(b);
    } else {
      var first := if a[0].messageType == RECORD_EVENT then [CaptureOf(a[0])] else [];
      RecordsConcat(a[1..], b);
      assert (a + b)[1..] == a[1..] + b && Records(a) == first + Records(a[1..]);
      assert first + (Records(a[1..]) + Records(b)) == first + Records(a[1..]) + Records(b);
    }
  }

  ghost predicate NoneOfType(frames: seq<Frame>, t: byte) {
    forall f :: f in frames ==> f.messageType != t
  }

  /** `f` is the oldest frame of type `t`; `rest` is everything else, in order. */
  ghost predicate OldestTaken(frames: seq<Frame>, t: byte, f: Frame, rest: seq<Frame>) {
    exists n :: 0 <= n < |frames| && TakenAt(frames, t, f, rest, n)
  }

  ghost predicate TakenAt(frames: seq<Frame>, t: byte, f: Frame, rest: seq<Frame>, n: nat)
    requires n < |frames|
  {
    frames[n] == f && f.messageType == t && NoneOfType(frames[..n], t) && rest == frames[..n] + frames[n + 1..]
  }

  /** The frame at `n` is refused; it is gone and everything else is still there, in order. */
  ghost predicate RefusedAt(frames: seq<Frame>, rest: seq<Frame>, n: nat)
    requires n < |frames|
  {
    ValidNotice(frames[n]) && Refused(frames[n]) && rest == frames[..n] + frames[n + 1..]
  }

  lemma {:induction false} TakenHere(deferred: seq<Frame>, f: Frame, later: seq<Frame>, t: byte)
    requires NoneOfType(deferred, t) && f.messageType == t
    ensures OldestTaken(deferred + ([f] + later), t, f, deferred + later)
  {
    var all := deferred + ([f] + later);
    assert all[..|deferred|] == deferred && all[|deferred| + 1..] == later;
    assert TakenAt(all, t, f, deferred + later, |deferred|);
  }

  /** Taking a frame that is not a RECORD_EVENT leaves the RECORD_EVENTs alone. */
  lemma {:induction false} RecordsSurvive(frames: seq<Frame>, t: byte, f: Frame, rest: seq<Frame>)
    requires AllNotices(frames) && OldestTaken(frames, t, f, rest) && t != RECORD_EVENT
    ensures AllNotices(rest) && Records(rest) == Records(frames)
  {
    var n :| 0 <= n < |frames| && TakenAt(frames, t, f, rest, n);
    assert frames == frames[..n] + ([f] + frames[n + 1..]);
    RecordsConcat(frames[..n], [f] + frames[n + 1..]);
    RecordsConcat(frames[..n], frames[n + 1..]);
    assert ([f] + frames[n + 1..])[1..] == frames[n + 1..];
  }

  // ---- the world outside, until a deadline has passed ----

  /** What one turn of the loop in receive_frame finds: bytes, an OSError of the stream, or the cancellation event. */
  datatype Turn = Data(bytes: seq<byte>) | LineError | Cancelled

  function DataOf(turns: seq<Turn>): seq<byte> {
    if turns == [] then []
    else DataOf(turns[..|turns| - 1]) + if turns[|turns| - 1].Data? then turns[|turns| - 1].bytes else []
  }

  /** A read fails, or what has been read holds something that is not a frame. */
  ghost predicate Unreadable(turns: seq<Turn>, received: seq<byte>) {
    LineError in turns || Scan(DEFAULT, received).errors != []
  }

  ghost predicate SomeUnreadable(waits: seq<seq<Turn>>, received: seq<byte>) {
    exists turns :: turns in waits && Unreadable(turns, received)
  }

  /** A wait that kept `all` has given up only after as many receives as it had, or when the last one was cancelled, or
      had read everything there was to read. */
  ghost predicate GaveUp(waits: seq<seq<Turn>>, all: seq<Frame>, received: seq<byte>) {
    || |waits| <= |all|
    || Cancelled in waits[|all|]
    || var data := DataOf(waits[|all|]); |data| <= |received| && received[|received| - |data|..] == data
  }

  /** One attempt of set_mode: whether MODE_SET could be written, and what each call of receive_frame finds. */
  datatype Attempt = Attempt(written: bool, waits: seq<seq<Turn>>)

  function First<T>(s: seq<T>, n: nat): seq<T> {
    if n <= |s| then s[..n] else s
  }

  /** Nothing here ends a wait for type `t`. */
  ghost predicate Clear(frames: seq<Frame>, t: byte) {
    forall f :: f in frames ==> ValidNotice(f) && !Refused(f) && f.messageType != t
  }

  /** A refused frame came before any of type `t`; it is gone and everything else is still there, in order. */
  ghost predicate FaultFirst(frames: seq<Frame>, t: byte, rest: seq<Frame>) {
    exists n :: 0 <= n < |frames| && RefusedAt(frames, rest, n) && Clear(frames[..n], t)
  }

  lemma {:induction false} ClearNone(t: byte)
    ensures Clear([], t)
  {
  }

  lemma {:induction false} ClearGrows(frames: seq<Frame>, f: Frame, t: byte)
    requires Clear(frames, t) && ValidNotice(f) && !Refused(f) && f.messageType != t
    ensures Clear(frames + [f], t)
  {
    hide Refused, ValidNotice;
  }

  lemma {:induction false} ClearIsNone(frames: seq<Frame>, t: byte)
    requires Clear(frames, t)
    ensures NoneOfType(frames, t)
  {
  }

  lemma {:induction false} FirstIsDeferred<T>(deferred: seq<T>, pending: seq<T>, n: nat)
    ensures n == |deferred| ==> First(deferred + pending, n) == deferred
    ensures pending == [] && |deferred| <= n ==> First(deferred + pending, n) == deferred
  {
    assert pending == [] ==> deferred + pending == deferred;
  }

  lemma {:induction false} FaultHere(deferred: seq<Frame>, f: Frame, later: seq<Frame>, t: byte)
    requires Clear(deferred, t) && ValidNotice(f) && Refused(f)
    ensures FaultFirst(deferred + ([f] + later), t, deferred + later)
  {
    hide Clear, Refused, ValidNotice;
    var all := deferred + ([f] + later);
    assert all[..|deferred|] == deferred && all[|deferred| + 1..] == later;
    assert RefusedAt(all, deferred + later, |deferred|);
  }

  // ---- replies to MODE_SET ----

  function Reply(f: Frame): seq<Frame> {
    if f.messageType == MODE_CHANGED then [f] else []
  }

  /** The MODE_CHANGEDs of a sequence of frames, in order. */
  function Replies(frames: seq<Frame>): seq<Frame> {
    if frames == [] then [] else Reply(frames[0]) + Replies(frames[1..])
  }

  lemma {:induction false} RepliesConcat(a: seq<Frame>, b: seq<Frame>)
    ensures Replies(a + b) == Replies(a) + Replies(b)
  {
    hide Reply;
    if a == [] {
      assert a + b == b && [] + Replies(b) == Replies(b);
    } else {
      RepliesConcat(a[1..], b);
      assert (a + b)[1..] == a[1..] + b && (a + b)[0] == a[0];
      assert Reply(a[0]) + (Replies(a[1..]) + Replies(b)) == Reply(a[0]) + Replies(a[1..]) + Replies(b);
    }
  }

  lemma {:induction false} OtherReplies(frames: seq<Frame>)
    ensures NoneOfType(frames, MODE_CHANGED) <==> Replies(frames) == []
  {
    if frames != [] {
      OtherReplies(frames[1..]);
      assert frames == [frames[0]] + frames[1..];
    }
  }

  lemma {:induction false} OldestIsIn(frames: seq<Frame>, f: Frame, rest: seq<Frame>)
    requires OldestTaken(frames, MODE_CHANGED, f, rest)
    ensures f in frames
  {
  }

  /** Taking the oldest MODE_CHANGED takes the first reply and no other. */
  lemma {:induction false} OldestReply(frames: seq<Frame>, f: Frame, rest: seq<Frame>)
    requires OldestTaken(frames, MODE_CHANGED, f, rest)
    ensures Replies(frames) == [f] + Replies(rest)
  {
    var n :| 0 <= n < |frames| && TakenAt(frames, MODE_CHANGED, f, rest, n);
    assert frames == frames[..n] + ([f] + frames[n + 1..]);
    OtherReplies(frames[..n]);
    RepliesConcat(frames[..n], [f] + frames[n + 1..]);
    RepliesConcat(frames[..n], frames[n + 1..]);
    assert ([f] + frames[n + 1..])[1..] == frames[n + 1..];
  }

  /** MODE_CHANGED(target, OK). */
  ghost predicate Confirms(f: Frame, target: Mode) {
    ValidNotice(f) && Unpack(f) == Unpacked.Valid(ModeChanged(target, Okay))
  }

  /** The oldest MODE_CHANGED of `frames` confirms the target; `rest` is everything else, in order. */
  ghost predicate Decided(target: Mode, frames: seq<Frame>, rest: seq<Frame>) {
    exists f :: Confirms(f, target) && OldestTaken(frames, MODE_CHANGED, f, rest)
  }

  /** The first reply in `seen` confirms the target, and the others are those in `left`. */
  ghost predicate FirstConfirms(seen: seq<Frame>, target: Mode, left: seq<Frame>) {
    Replies(seen) != [] && Confirms(Replies(seen)[0], target) && Replies(seen)[1..] == Replies(left)
  }

  lemma {:induction false} DecidedReply(target: Mode, frames: seq<Frame>, rest: seq<Frame>)
    requires Decided(target, frames, rest)
    ensures FirstConfirms(frames, target, rest) && exists f :: f in frames && Confirms(f, target)
  {
    var f :| Confirms(f, target) && OldestTaken(frames, MODE_CHANGED, f, rest);
    OldestReply(frames, f, rest);
    OldestIsIn(frames, f, rest);
  }

  /** A reply left over from an earlier handshake decides the next one: set_mode for another mode cannot succeed. */
  lemma {:induction false} StaleReplyDecides(target: Mode, before: seq<Frame>, newer: seq<Frame>, rest: seq<Frame>)
    requires Replies(before) != [] && !Confirms(Replies(before)[0], target)
    ensures !Decided(target, before + newer, rest)
  {
    hide Confirms;
    RepliesConcat(before, newer);
    if Decided(target, before + newer, rest) {
      DecidedReply(target, before + newer, rest);
    }
  }

  /** When every MODE_SET is answered by one MODE_CHANGED sooner or later, and no other arrives, a successful handshake
      leaves no reply in the deque or on its way exactly if it began with none in either place and its MODE_SET was not
      repeated. `owed` counts the requests from before it whose reply had not arrived. */
  lemma {:induction false} NoReplyLeftIff(target: Mode, before: seq<Frame>, newer: seq<Frame>, rest: seq<Frame>,
      later: seq<Frame>, owed: nat, attempts: nat)
    requires Decided(target, before + newer, rest) && |Replies(newer + later)| == owed + attempts && attempts >= 1
    ensures Replies(rest + later) == [] <==> Replies(before) == [] && owed == 0 && attempts == 1
  {
    DecidedReply(target, before + newer, rest);
    hide Decided, Confirms;
    RepliesConcat(before, newer);
    RepliesConcat(newer, later);
    RepliesConcat(rest, later);
    assert |Replies(before)| + |Replies(newer)| == 1 + |Replies(rest)|;
  }

  /** How a handshake ended: the oldest reply confirms the target, or does not; a refused frame came before any reply; a
      read failed before any; no reply came in time; MODE_SET could not be written; the call was out of place. */
  datatype Cause = Confirmed | Denied | Faulted | Unread | Silent | Unwritten | BadRequest

  /** In the first attempts MODE_SET was written, and no reply was among the frames pending at the start that the calls
      of that attempt could reach. */
  ghost predicate AllSilent(script: seq<Attempt>, before: seq<Frame>, attempts: nat)
    requires attempts <= |script|
  {
    forall k :: 0 <= k < attempts ==> script[k].written && Clear(First(before, |script[k].waits|), MODE_CHANGED)
  }

  ghost function Answer(cause: Cause): Result<bool> {
    match cause
    case Confirmed => Ok(true)
    case Denied => Ok(false)
    case Silent => Timeout
    case _ => Failed
  }

  predicate Proper(target: Mode) {
    target == Pass || target == Record || target == Armed
  }

  /** What one attempt found bears the cause out: `all` was pending or arrived until its end, `after` is still there. */
  ghost predicate EndedBy(target: Mode, attempt: Attempt, all: seq<Frame>, after: seq<Frame>, received: seq<byte>,
      cause: Cause)
  {
    && attempt.written == (cause != Unwritten) && cause != BadRequest
    && (cause == Unwritten || cause == Silent || cause == Unread ==> after == all)
    && (cause == Silent ==> Clear(First(all, |attempt.waits|), MODE_CHANGED) && GaveUp(attempt.waits, all, received))
    && (cause == Confirmed ==> Decided(target, all, after))
    && (cause == Denied ==> exists f :: !Confirms(f, target) && OldestTaken(all, MODE_CHANGED, f, after))
    && (cause == Faulted ==> FaultFirst(all, MODE_CHANGED, after))
    && (cause == Unread ==> Clear(all, MODE_CHANGED) && SomeUnreadable(attempt.waits, received))
  }

  /** The cause is borne out by the last attempt, and every attempt before that was silent. */
  ghost predicate Justified(target: Mode, retries: int, script: seq<Attempt>, before: seq<Frame>, newer: seq<Frame>,
      after: seq<Frame>, received: seq<byte>, attempts: nat, cause: Cause)
    requires retries < |script|
  {
    if cause == BadRequest then attempts == 0 && !(Proper(target) && retries >= 0)
    else
      var last := if cause == Unwritten then attempts else attempts - 1;
      && Proper(target) && 0 <= last <= retries && (cause == Silent ==> last == retries)
      && AllSilent(script, before, last) && EndedBy(target, script[last], before + newer, after, received, cause)
  }

  lemma {:induction false} NoneSilent(script: seq<Attempt>, before: seq<Frame>)
    ensures AllSilent(script, before, 0)
  {
  }

  lemma {:induction false} ClearPart(before: seq<Frame>, newer: seq<Frame>, n: nat)
    requires Clear(First(before + newer, n), MODE_CHANGED)
    ensures Clear(First(before, n), MODE_CHANGED)
  {
    assert First(before, n) <= First(before + newer, n);
  }

  /** After any number of silent attempts one more is silent as well, or ends the handshake. */
  lemma {:induction false} OneMore(target: Mode, retries: int, script: seq<Attempt>, before: seq<Frame>,
      newer: seq<Frame>, after: seq<Frame>, received: seq<byte>, attempt: nat, cause: Cause)
    requires Proper(target) && attempt <= retries < |script| && AllSilent(script, before, attempt)
    requires EndedBy(target, script[attempt], before + newer, after, received, cause)
    ensures cause == Silent ==> after == before + newer && AllSilent(script, before, attempt + 1)
    ensures cause != Silent || attempt == retries ==>
              Justified(target, retries, script, before, newer, after, received,
                        if cause == Unwritten then attempt else attempt + 1, cause)
  {
    if cause == Silent { ClearPart(before, newer, |script[attempt].waits|); }
    hide Clear, Decided, Confirms, OldestTaken, FaultFirst, SomeUnreadable, GaveUp;
  }

  /** The oldest reply of `all` is at `n`; it confirms the target, and nothing that is refused comes before it. */
  ghost predicate ConfirmedAt(all: seq<Frame>, target: Mode, n: nat) {
    && n < |all| && all[n].messageType == MODE_CHANGED && Confirms(all[n], target)
    && Clear(all[..n], MODE_CHANGED)
  }

  /** A handshake must succeed when every MODE_SET could be written and the oldest MODE_CHANGED, pending or received,
      confirms the target, within reach of each wait and behind nothing that is refused; and at once if it was pending.
      */
  lemma {:induction false} MustSucceed(target: Mode, retries: int, script: seq<Attempt>, before: seq<Frame>,
      newer: seq<Frame>, after: seq<Frame>, received: seq<byte>, attempts: nat, cause: Cause, n: nat)
    requires Proper(target) && 0 <= retries < |script|
    requires forall k :: 0 <= k <= retries ==> script[k].written && n < |script[k].waits|
    requires ConfirmedAt(before + newer, target, n)
    requires Justified(target, retries, script, before, newer, after, received, attempts, cause)
    ensures cause == Confirmed && (n < |before| ==> attempts == 1)
  {
    var all := before + newer;
    OnlyReply(all, target, n);
    NoFault(all, target, n, after);
    EndsWait(all, all, target, n);
    EndsWait(First(all, |script[retries].waits|), all, target, n);
    if n < |before| { EndsWait(First(before, |script[0].waits|), all, target, n); }
    hide Clear, Confirms, FaultFirst, OldestTaken, GaveUp, SomeUnreadable;
  }

  lemma {:induction false} ClearEach(all: seq<Frame>, t: byte, n: nat)
    requires n <= |all| && Clear(all[..n], t)
    ensures forall k :: 0 <= k < n ==> !Refused(all[k]) && all[k].messageType != t
  {
    forall k | 0 <= k < n
      ensures all[k] in all[..n]
    {
      assert all[..n][k] == all[k];
    }
  }

  lemma {:induction false} OnlyReply(all: seq<Frame>, target: Mode, n: nat)
    requires ConfirmedAt(all, target, n)
    ensures forall f, rest :: OldestTaken(all, MODE_CHANGED, f, rest) ==> f == all[n]
  {
    ClearEach(all, MODE_CHANGED, n);
    forall f, rest, m | 0 <= m < |all| && TakenAt(all, MODE_CHANGED, f, rest, m)
      ensures f == all[n]
    {
      NoneBefore(all, MODE_CHANGED, m);
    }
  }

  lemma {:induction false} NoneBefore(all: seq<Frame>, t: byte, m: nat)
    requires m <= |all| && NoneOfType(all[..m], t)
    ensures forall k :: 0 <= k < m ==> all[k].messageType != t
  {
    forall k | 0 <= k < m
      ensures all[k] in all[..m]
    {
      assert all[..m][k] == all[k];
    }
  }

  lemma {:induction false} NoFault(all: seq<Frame>, target: Mode, n: nat, rest: seq<Frame>)
    requires ConfirmedAt(all, target, n) && target != Mode.Error
    ensures !FaultFirst(all, MODE_CHANGED, rest)
  {
    ClearEach(all, MODE_CHANGED, n);
    forall m | n < m < |all|
      ensures !Clear(all[..m], MODE_CHANGED)
    {
      assert all[..m][n] == all[n] && all[n] in all[..m];
    }
  }

  lemma {:induction false} EndsWait(reached: seq<Frame>, all: seq<Frame>, target: Mode, n: nat)
    requires ConfirmedAt(all, target, n) && n < |reached| && reached[n] == all[n]
    ensures !Clear(reached, MODE_CHANGED)
  {
    assert reached[n] in reached;
  }

  /** A deque that held `before` and received `newer` now holds `after`: no RECORD_EVENT was lost, added or moved. */
  ghost predicate RecordsKept(before: seq<Frame>, newer: seq<Frame>, after: seq<Frame>) {
    && AllNotices(before) && AllNotices(newer) && AllNotices(after)
    && Records(after) == Records(before) + Records(newer)
  }

  lemma {:induction false} RecordsKeptTwice(a: seq<Frame>, x: seq<Frame>, b: seq<Frame>, y: seq<Frame>, c: seq<Frame>)
    requires RecordsKept(a, x, b) && RecordsKept(b, y, c)
    ensures RecordsKept(a, x + y, c)
  {
    RecordsConcat(x, y);
    assert Records(a) + Records(x) + Records(y) == Records(a) + (Records(x) + Records(y));
  }

  lemma {:induction false} NothingKept(frames: seq<Frame>)
    requires AllNotices(frames)
    ensures RecordsKept(frames, [], frames) && AllNotices([])
  {
    assert Records(frames) + [] == Records(frames);
  }

  lemma {:induction false} NothingDeferred()
    ensures AllNotices([])
  {
  }

  lemma {:induction false} Associate<T>(a: seq<T>, b: seq<T>, c: seq<T>)
    ensures a + b + c == a + (b + c)
  {
  }

  lemma {:induction false} NoticesConcat(a: seq<Frame>, b: seq<Frame>)
    requires AllNotices(a) && AllNotices(b)
    ensures AllNotices(a + b)
  {
  }

  lemma {:induction false} DeferredGrows(frames: seq<Frame>, f: Frame)
    requires AllNotices(frames) && ValidNotice(f)
    ensures AllNotices(frames + [f])
  {
  }

  /** One more receive while `deferred` is held back: what was pending or is new is what was taken, then the rest. */
  lemma {:induction false} DeferMore(first: seq<Frame>, newer: seq<Frame>, deferred: seq<Frame>, before: seq<Frame>,
      more: seq<Frame>, taken: seq<Frame>, after: seq<Frame>)
    requires first + newer == deferred + before && before + more == taken + after
    ensures first + (newer + more) == deferred + (taken + after) == deferred + taken + after
  {
    assert first + (newer + more) == first + newer + more;
    assert deferred + before + more == deferred + (before + more);
  }

  /** Dropping frames can only drop RECORD_EVENTs. */
  lemma {:induction false} RecordsOfPart(part: seq<Frame>, whole: seq<Frame>)
    requires AllNotices(whole) && Subsequence(part, whole)
    ensures AllNotices(part) && Subsequence(Records(part), Records(whole))
  {
    if whole != [] {
      var n := |whole| - 1;
      assert whole == whole[..n] + [whole[n]];
      RecordsConcat(whole[..n], [whole[n]]);
      if Subsequence(part, whole[..n]) {
        RecordsOfPart(part, whole[..n]);
        SubsequenceNone(Records([whole[n]]));
        SubsequenceAfter(Records(whole[..n]), [], Records([whole[n]]));
        assert Records(whole[..n]) + [] == Records(whole[..n]);
        SubsequenceTrans(Records(part), Records(whole[..n]), Records(whole));
      } else {
        var k := |part| - 1;
        RecordsOfPart(part[..k], whole[..n]);
        assert part == part[..k] + [whole[n]];
        RecordsConcat(part[..k], [whole[n]]);
        SubsequenceExtend(Records(part[..k]), Records(whole[..n]), Records([whole[n]]));
      }
    }
  }

  lemma {:induction false} Behind(frames: seq<Frame>, whole: seq<Frame>)
    requires frames != [] && Subsequence(frames, whole)
    ensures Subsequence(frames[1..], whole)
  {
    assert frames == [] + [frames[0]] + frames[1..] && [] + frames[1..] == frames[1..];
    SubsequenceDrop([], frames[0], frames[1..], whole);
  }

  /** What is put back after `taken` has left the middle is still in order. */
  lemma {:induction false} StillInOrder(first: seq<Frame>, newer: seq<Frame>, arrived: seq<Frame>, deferred: seq<Frame>,
      taken: seq<Frame>, after: seq<Frame>)
    requires Subsequence(first, arrived) && first + newer == deferred + taken + after && |taken| <= 1
    ensures Subsequence(deferred + after, first + newer) && Subsequence(deferred + after, arrived + newer)
  {
    SubsequenceSame(first + newer);
    SubsequenceExtend(first, arrived, newer);
    if taken == [] {
      assert deferred + taken == deferred;
    } else {
      assert taken == [taken[0]];
      SubsequenceDrop(deferred, taken[0], after, first + newer);
    }
    SubsequenceTrans(deferred + after, first + newer, arrived + newer);
  }

  class PicoTransport {
    const decoder: IncrementalDecoder
    var pending: seq<Frame>
    /** Every byte read, every frame that was ever put in the deque, and whether a read was refused. */
    ghost var received: seq<byte>
    ghost var arrived: seq<Frame>
    ghost var refused: bool

    ghost predicate Valid()
      reads this, decoder
    {
      && decoder.rules == DEFAULT && decoder.errors == []
      && decoder.buffer == Scan(DEFAULT, received).residual
      && AllNotices(pending) && AllNotices(arrived) && Subsequence(pending, arrived)
      && (!refused ==> Scan(DEFAULT, received).errors == [] && arrived == Scan(DEFAULT, received).frames)
    }

    constructor ()
      ensures Valid() && pending == [] && arrived == [] && received == [] && !refused && fresh(decoder)
    {
      decoder := new IncrementalDecoder(DEFAULT);
      pending, received, arrived, refused := [], [], [], false;
    }

    /** Frames put in the deque since it held `count` of them in all. */
    ghost function Since(count: nat): (frames: seq<Frame>)
      reads `arrived
    {
      if count <= |arrived| then arrived[count..] else []
    }

    /** As long as no read was refused, every frame that was ever put in the deque stood in the bytes read as its
        encoding, in order and at disjoint positions. */
    lemma {:induction false} ArrivedWasEncoded()
      requires Valid() && !refused
      ensures Found(arrived, received)
    {
      FramesWereEncoded(received);
    }

    /** One read of the stream: whatever it returns is decoded, and any decoding error discards its frames. */
    method ReadStream(data: seq<byte>) returns (ok: bool)
      requires Valid() && pending == []
      modifies this, decoder
      ensures Valid() && received == old(received) + data
      ensures arrived == old(arrived) + pending && refused == (old(refused) || !ok)
      ensures !ok ==> pending == [] && Scan(DEFAULT, received).errors != []
    {
      ScanConcat(DEFAULT, received, data);
      FramesAreNotices(decoder.buffer + data);
      received := received + data;
      var frames := decoder.Feed(data);
      var errors := decoder.PopErrors();
      if errors != [] {
        refused := true;
        return false;
      }
      SubsequenceNone(arrived);
      SubsequenceExtend([], arrived, frames);
      assert [] + frames == frames;
      pending := frames;
      arrived := arrived + frames;
      ok := true;
    }

    /** receive_frame: the oldest pending frame, reading until there is one. `turns` is what the turns of its loop find
        until the deadline has passed. */
    method ReceiveFrame(turns: seq<Turn>) returns (result: Result<Frame>, ghost newer: seq<Frame>)
      requires Valid()
      modifies this, decoder
      ensures Valid() && old(received) <= received && arrived == old(arrived) + newer
      ensures refused == (old(refused) || result.Failed?)
      ensures result.Ok? ==> ValidNotice(result.value)
      ensures result.Ok? ==> old(pending) + newer == [result.value] + pending
      ensures old(pending) != [] ==> result == Ok(old(pending)[0])
      ensures !result.Ok? ==> pending == [] && newer == []
      ensures result.Timeout? ==> Cancelled in turns || received == old(received) + DataOf(turns)
      ensures result.Failed? ==> Unreadable(turns, received)
      ensures Subsequence(pending, old(pending) + newer)
    {
      hide Scan, Subsequence;
      newer := [];
      SubsequenceSame(pending);
      SubsequenceSame(old(pending) + newer);
      if pending != [] {
        Behind(pending, arrived);
        Behind(pending, pending);
        assert pending + newer == pending;
        result := Ok(pending[0]);
        pending := pending[1..];
        return;
      }
      assert turns[..0] == [] && received + [] == received;
      for i := 0 to |turns|
        invariant Valid() && pending == [] && arrived == old(arrived) && refused == old(refused)
        invariant received == old(received) + DataOf(turns[..i])
      {
        assert turns[..i + 1][..i] == turns[..i] && turns[i] in turns;
        if turns[i] == Cancelled { return Timeout, []; }
        if turns[i] == LineError {
          refused := true;
          return Failed, [];
        }
        assert received + turns[i].bytes == old(received) + (DataOf(turns[..i]) + turns[i].bytes);
        var ok := ReadStream(turns[i].bytes);
        if !ok { return Failed, []; }
        if pending != [] {
          newer := pending;
          assert old(pending) + newer == newer;
          SubsequenceSame(pending);
          Behind(pending, arrived);
          Behind(pending, pending);
          result := Ok(pending[0]);
          pending := pending[1..];
          return;
        }
      }
      assert turns[..|turns|] == turns;
      result := Timeout;
    }

    /** _await: the oldest frame of one type; every other frame stays, in arrival order, for later callers. `waits` is
        what each call of receive_frame finds until the deadline has passed. It fails only on a refused frame or a read
        that cannot be decoded, before a frame of the type; and times out only when no frame within the calls is one. */
    method Await(messageType: byte, waits: seq<seq<Turn>>) returns (result: Result<Frame>, ghost newer: seq<Frame>)
      requires Valid()
      modifies this, decoder
      ensures Valid() && old(received) <= received && arrived == old(arrived) + newer
      ensures !result.Failed? ==> refused == old(refused)
      ensures result.Ok? ==>
                ValidNotice(result.value) && OldestTaken(old(pending) + newer, messageType, result.value, pending)
      ensures result.Timeout? ==>
                pending == old(pending) + newer && Clear(First(old(pending) + newer, |waits|), messageType)
                && GaveUp(waits, old(pending) + newer, received)
      ensures result.Failed? ==>
                || FaultFirst(old(pending) + newer, messageType, pending)
                || (pending == old(pending) + newer && Clear(old(pending) + newer, messageType)
                    && SomeUnreadable(waits, received))
      ensures Subsequence(pending, old(pending) + newer)
    {
      hide ValidNotice, Scan, AllNotices, Subsequence, Refused, OldestTaken, RefusedAt, Clear, Unreadable;
      var deferred: seq<Frame> := [];
      newer := [];
      result := Timeout;
      ghost var gone: seq<Frame> := [];
      NothingDeferred();
      ClearNone(messageType);
      var calls := 0;
      while calls < |waits|
        invariant Valid() && AllNotices(deferred) && Clear(deferred, messageType) && gone == []
        invariant old(received) <= received && arrived == old(arrived) + newer && refused == old(refused)
        invariant old(pending) + newer == deferred + pending && result.Timeout? && |deferred| == calls <= |waits|
        decreases |waits| - calls
      {
        ghost var before := pending;
        ghost var more: seq<Frame>;
        var got: Result<Frame>;
        got, more := ReceiveFrame(waits[calls]);
        ghost var taken := if got.Ok? then [got.value] else [];
        DeferMore(old(pending), newer, deferred, before, more, taken, pending);
        newer := newer + more;
        assert arrived == old(arrived) + newer;
        if !got.Ok? {
          result := got;
          assert deferred + [] + [] == deferred == old(pending) + newer;
          break;
        }
        var f := got.value;
        if Refused(f) {
          FaultHere(deferred, f, pending, messageType);
          gone := [f];
          result := Failed;
          break;
        }
        if f.messageType == messageType {
          ClearIsNone(deferred, messageType);
          TakenHere(deferred, f, pending, messageType);
          gone := [f];
          result := got;
          break;
        }
        DeferredGrows(deferred, f);
        ClearGrows(deferred, f, messageType);
        deferred := deferred + [f];
        calls := calls + 1;
      }
      FirstIsDeferred(deferred, pending, |waits|);
      StillInOrder(old(pending), newer, old(arrived), deferred, gone, pending);
      PreserveFrames(deferred);
    }

    /** preserve_frames: frames already consumed go back to the front, in wire order. */
    method PreserveFrames(frames: seq<Frame>)
      requires Valid() && AllNotices(frames) && Subsequence(frames + pending, arrived)
      modifies `pending
      ensures Valid() && pending == frames + old(pending)
    {
      pending := frames + pending;
    }

    /** drain_pending_frames. */
    method DrainPendingFrames() returns (frames: seq<Frame>)
      requires Valid()
      modifies `pending
      ensures Valid() && frames == old(pending) && pending == []
    {
      SubsequenceNone(arrived);
      frames := pending;
      pending := [];
    }

    /** A wait for anything but a RECORD_EVENT, as a reader of RECORD_EVENTs sees it. */
    method AwaitReply(messageType: byte, waits: seq<seq<Turn>>)
        returns (result: Result<Frame>, ghost newer: seq<Frame>)
      requires Valid() && messageType != RECORD_EVENT
      modifies this, decoder
      ensures Valid() && old(received) <= received && arrived == old(arrived) + newer && AllNotices(newer)
      ensures result.Ok? ==>
                ValidNotice(result.value) && OldestTaken(old(pending) + newer, messageType, result.value, pending)
      ensures result.Timeout? ==>
                pending == old(pending) + newer && Clear(First(old(pending) + newer, |waits|), messageType)
                && GaveUp(waits, old(pending) + newer, received)
      ensures result.Failed? ==>
                || FaultFirst(old(pending) + newer, messageType, pending)
                || (pending == old(pending) + newer && Clear(old(pending) + newer, messageType)
                    && SomeUnreadable(waits, received))
      ensures !result.Failed? ==> refused == old(refused) && RecordsKept(old(pending), newer, pending)
      ensures Subsequence(pending, old(pending) + newer)
    {
      hide Subsequence, Clear, FaultFirst, SomeUnreadable, GaveUp;
      ghost var before := pending;
      result, newer := Await(messageType, waits);
      RecordsConcat(before, newer);
      if result.Ok? {
        RecordsSurvive(before + newer, messageType, result.value, pending);
      }
    }

    ghost predicate Acknowledged(target: Mode, frames: seq<Frame>) {
      exists f :: f in frames && Confirms(f, target)
    }

    lemma {:induction false} AcknowledgedEver(target: Mode, part: seq<Frame>, whole: seq<Frame>)
      requires Acknowledged(target, part) && Subsequence(part, whole)
      ensures Acknowledged(target, whole)
    {
      var f :| f in part && Confirms(f, target);
      SubsequenceElements(part, whole, f);
    }

    /** One attempt of set_mode: write, and wait for a MODE_CHANGED. */
    method Try(target: Mode, attempt: Attempt)
        returns (confirmed: Result<bool>, ghost newer: seq<Frame>, ghost cause: Cause)
      requires Valid() && Proper(target)
      modifies this, decoder
      ensures Valid() && old(received) <= received && arrived == old(arrived) + newer && AllNotices(newer)
      ensures !confirmed.Failed? || cause == Unwritten ==>
                refused == old(refused) && RecordsKept(old(pending), newer, pending)
      ensures Subsequence(pending, old(pending) + newer)
      ensures EndedBy(target, attempt, old(pending) + newer, pending, received, cause)
      ensures confirmed == Answer(cause)
    {
      hide Records, Replies, Unpack, Scan, Subsequence, OldestTaken, Clear, FaultFirst, SomeUnreadable, GaveUp;
      if !attempt.written {
        NothingKept(pending);
        SubsequenceSame(pending);
        assert pending + [] == pending && arrived + [] == arrived;
        return Failed, [], Unwritten;
      }
      var got: Result<Frame>;
      got, newer := AwaitReply(MODE_CHANGED, attempt.waits);
      match got
      case Timeout => confirmed, cause := Timeout, Silent;
      case Failed =>
        confirmed := Failed;
        cause := if FaultFirst(old(pending) + newer, MODE_CHANGED, pending) then Faulted else Unread;
      case Ok(f) =>
        var reply := Unpack(f);
        var accepted := reply.Valid? && reply.value == ModeChanged(target, Okay);
        confirmed, cause := Ok(accepted), if accepted then Confirmed else Denied;
    }

    /** The loop of set_mode: up to retries + 1 attempts, until one is not silent. */
    method TryUntilAnswered(target: Mode, retries: int, script: seq<Attempt>)
        returns (confirmed: Result<bool>, ghost newer: seq<Frame>, ghost attempts: nat, ghost cause: Cause)
      requires Valid() && Proper(target) && 0 <= retries < |script|
      modifies this, decoder
      ensures Valid() && old(received) <= received && arrived == old(arrived) + newer && AllNotices(newer)
      ensures !confirmed.Failed? ==> refused == old(refused) && RecordsKept(old(pending), newer, pending)
      ensures Justified(target, retries, script, old(pending), newer, pending, received, attempts, cause)
      ensures confirmed == Answer(cause)
      ensures Subsequence(pending, old(pending) + newer)
    {
      NothingKept(pending);
      SubsequenceSame(pending);
      assert pending + [] == pending && arrived + [] == arrived;
      hide ValidNotice, AllNotices, Records, Scan, Subsequence, Clear, PicoTransport.Valid, RecordsKept, FaultFirst;
      hide EndedBy, AllSilent, Justified;
      assert AllSilent(script, pending, 0) by { NoneSilent(script, pending); }
      ghost var first, start := pending, arrived;
      newer, attempts, cause, confirmed := [], 0, Silent, Timeout;
      var attempt := 0;
      while attempt <= retries && confirmed.Timeout?
        invariant Valid() && old(received) <= received && arrived == start + newer && AllNotices(newer)
        invariant !confirmed.Failed? ==> refused == old(refused) && RecordsKept(first, newer, pending)
        invariant 0 <= attempt <= retries + 1 && Subsequence(pending, first + newer) && confirmed == Answer(cause)
        invariant confirmed.Timeout? ==>
                    attempts == attempt && pending == first + newer && AllSilent(script, first, attempt)
        invariant attempt > 0 && (attempt > retries || !confirmed.Timeout?) ==>
                    Justified(target, retries, script, first, newer, pending, received, attempts, cause)
        invariant attempt == 0 ==> confirmed.Timeout?
      {
        ghost var before := pending;
        ghost var more: seq<Frame>;
        confirmed, more, cause := Try(target, script[attempt]);
        Associate(first, newer, more);
        Associate(start, newer, more);
        NoticesConcat(newer, more);
        if !confirmed.Failed? { RecordsKeptTwice(first, newer, before, more, pending); }
        newer := newer + more;
        attempts := if cause == Unwritten then attempts else attempts + 1;
        OneMore(target, retries, script, first, newer, pending, received, attempt, cause);
        attempt := attempt + 1;
      }
    }

    /** set_mode: whatever was written, the oldest MODE_CHANGED decides, even one that answers an earlier request: it
        succeeds if and only if that confirms the target, and fails only for the cause given. */
    method SetMode(target: Mode, retries: int, script: seq<Attempt>)
        returns (result: Result<()>, ghost newer: seq<Frame>, ghost attempts: nat, ghost cause: Cause)
      requires Valid() && retries < |script|
      modifies this, decoder
      ensures Valid() && old(received) <= received && arrived == old(arrived) + newer && AllNotices(newer)
      ensures !result.Failed? ==> refused == old(refused) && RecordsKept(old(pending), newer, pending)
      ensures Justified(target, retries, script, old(pending), newer, pending, received, attempts, cause)
      ensures (result.Ok? <==> cause == Confirmed) && (result.Timeout? <==> cause == Silent)
      ensures result.Ok? ==> target != Playing && target != Mode.Error && Acknowledged(target, old(pending) + newer)
      ensures result.Ok? ==> Decided(target, old(pending) + newer, pending) && 1 <= attempts <= retries + 1
      ensures old(Replies(pending)) != [] && !Confirms(old(Replies(pending))[0], target) ==> !result.Ok?
      ensures result.Timeout? ==> pending == old(pending) + newer && attempts == retries + 1
      ensures Subsequence(pending, old(pending) + newer)
    {
      if !Proper(target) || retries < 0 {
        SubsequenceSame(pending);
        assert pending + [] == pending;
        return Failed, [], 0, BadRequest;
      }
      hide ValidNotice, AllNotices, Records, Replies, Scan, Subsequence, OldestTaken, Clear, RecordsKept, Confirms;
      hide PicoTransport.Valid, GaveUp, AllSilent, Decided, FirstConfirms;
      ghost var first := pending;
      var confirmed;
      confirmed, newer, attempts, cause := TryUntilAnswered(target, retries, script);
      if confirmed == Ok(true) { DecidedReply(target, first + newer, pending); }
      if Replies(first) != [] && !Confirms(Replies(first)[0], target) {
        StaleReplyDecides(target, first, newer, pending);
      }
      match confirmed
      case Ok(accepted) => result := if accepted then Ok(()) else Failed;
      case Timeout => result := Timeout;
      case Failed => result := Failed;
    }
  }
}
