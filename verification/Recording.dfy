/** Recordings on Zero: the builder that turns capture timestamps into deltas (zero/app/recording.py), the session
    that feeds it (zero/app/service.py), and the expansion back to offsets for playback (zero/app/playback.py). */
module Recordings {
  import opened Framing
  import opened PlaybackQueues
  import opened KeyboardCaptures
  import opened Messages
  import opened Payloads
  import opened ZeroDecoder
  import opened ZeroTransport

  const MAX_U64: nat := 0xFFFF_FFFF_FFFF_FFFF

  datatype RecordingEvent = RecordingEvent(dt: nat, report: Report)

  datatype Recording = Recording(duration: nat, events: seq<RecordingEvent>)

  function TotalDt(events: seq<RecordingEvent>): nat {
    if events == [] then 0 else TotalDt(events[..|events| - 1]) + events[|events| - 1].dt
  }

  /** Recording.__post_init__ and RecordingEvent.__post_init__. */
  predicate WellFormed(r: Recording) {
    && r.duration <= MAX_U64
    && (r.events != [] ==> r.events[0].dt == 0)
    && TotalDt(r.events) == r.duration
    && forall i :: 0 <= i < |r.events| ==> r.events[i].dt <= MAX_U64
  }

  /** The recording that stands for `captures`: each event is the time since the one before it. */
  function Delta(captures: seq<Captured>, i: nat): nat
    requires i < |captures| && Monotone(captures)
  {
    if i == 0 then 0 else captures[i].timestamp - captures[i - 1].timestamp
  }

  /** Each event carries the report of its capture and the time since the one before. */
  ghost predicate Matches(events: seq<RecordingEvent>, captures: seq<Captured>) {
    && Monotone(captures) && |events| == |captures|
    && forall i :: 0 <= i < |captures| ==> events[i] == RecordingEvent(Delta(captures, i), captures[i].report)
  }

  lemma {:induction false} MatchesStep(events: seq<RecordingEvent>, captures: seq<Captured>, c: Captured, dt: nat)
    requires Matches(events, captures)
    requires if captures == [] then dt == 0 else captures[|captures| - 1].timestamp + dt == c.timestamp
    ensures Matches(events + [RecordingEvent(dt, c.report)], captures + [c])
  {
    MonotoneStep(captures, c);
    hide Monotone;
    var added, longer := captures + [c], events + [RecordingEvent(dt, c.report)];
    forall i | 0 <= i < |added|
      ensures longer[i] == RecordingEvent(Delta(added, i), added[i].report)
    {
      if i < |captures| { assert added[i] == captures[i]; }
    }
  }

  ghost predicate Represents(r: Recording, captures: seq<Captured>) {
    && Matches(r.events, captures)
    && r.duration == if captures == [] then 0 else captures[|captures| - 1].timestamp - captures[0].timestamp
  }

  /** The deltas telescope: up to any event they add up to the time since the first. */
  lemma {:induction false} DeltasTelescope(events: seq<RecordingEvent>, captures: seq<Captured>, n: nat)
    requires Monotone(captures) && |events| == |captures| && n < |captures|
    requires forall i :: 0 <= i < |captures| ==> events[i].dt == Delta(captures, i)
    ensures TotalDt(events[..n + 1]) == captures[n].timestamp - captures[0].timestamp
    decreases n
  {
    assert events[..n + 1][..n] == events[..n];
    if n != 0 { DeltasTelescope(events, captures, n - 1); }
  }

  /** Whatever represents captures satisfies the constructor checks, and says exactly what was captured and when,
      relative to the first. */
  lemma {:induction false} RepresentsIsWellFormed(r: Recording, captures: seq<Captured>)
    requires Represents(r, captures)
    ensures WellFormed(r)
    ensures forall i :: 0 <= i < |captures| ==>
              r.events[i].report == captures[i].report
              && TotalDt(r.events[..i + 1]) == captures[i].timestamp - captures[0].timestamp
  {
    forall i | 0 <= i < |captures|
      ensures TotalDt(r.events[..i + 1]) == captures[i].timestamp - captures[0].timestamp
    {
      DeltasTelescope(r.events, captures, i);
    }
    if captures != [] {
      assert r.events[..|captures| - 1 + 1] == r.events;
    }
  }

  datatype Moment = Never | At(us: nat)

  class RecordingBuilder {
    var epoch: Moment
    var lastTimestamp: Moment
    var events: seq<RecordingEvent>
    /** Everything added. */
    ghost var captures: seq<Captured>

    ghost predicate Valid()
      reads this
    {
      && Matches(events, captures)
      && (if captures == [] then epoch == Never && lastTimestamp == Never
          else epoch == At(captures[0].timestamp) && lastTimestamp == At(captures[|captures| - 1].timestamp))
    }

    constructor ()
      ensures Valid() && captures == []
    {
      epoch, lastTimestamp, events, captures := Never, Never, [], [];
    }

    /** add: refuses a timestamp that moved backwards and leaves the builder as it was. */
    method Add(timestamp: nat, report: Report) returns (ok: bool)
      requires Valid()
      modifies this
      ensures Valid()
      ensures ok <==> timestamp <= MAX_U64 && old(captures == [] || captures[|captures| - 1].timestamp <= timestamp)
      ensures captures == if ok then old(captures) + [Captured(timestamp, report)] else old(captures)
    {
      if timestamp > MAX_U64 {
        return false;
      }
      if lastTimestamp.At? && timestamp < lastTimestamp.us {
        return false;
      }
      hide Matches;
      var dt := 0;
      if epoch.Never? {
        epoch := At(timestamp);
      } else {
        dt := timestamp - lastTimestamp.us;
      }
      MatchesStep(events, captures, Captured(timestamp, report), dt);
      lastTimestamp := At(timestamp);
      events := events + [RecordingEvent(dt, report)];
      captures := captures + [Captured(timestamp, report)];
      ok := true;
    }

    method Build() returns (r: Recording)
      requires Valid()
      ensures Represents(r, captures) && WellFormed(r)
    {
      var duration := if epoch.Never? || lastTimestamp.Never? then 0 else lastTimestamp.us - epoch.us;
      r := Recording(duration, events);
      RepresentsIsWellFormed(r, captures);
    }
  }

  // ---- the session ----

  class RecordingSession {
    const transport: PicoTransport
    const builder: RecordingBuilder
    var started: bool
    var finished: bool
    /** When start was called: what had been consumed, what was in the deque, how many frames had arrived. */
    ghost var early: seq<Captured>
    ghost var initially: seq<Frame>
    ghost var mark: nat
    /** Whether a frame was lost to an error since. */
    ghost var broken: bool

    /** While a session is open, what was consumed and what is pending is what there was to record; after an error some
        of it may be missing, but nothing is invented, repeated or reordered. */
    ghost predicate Valid()
      reads this, transport, transport.decoder, builder
    {
      && transport.Valid() && builder.Valid() && AllNotices(initially) && Conserved()
      && (started && !finished ==>
            && mark <= |transport.arrived| && Account(builder.captures + Records(transport.pending))
            && Subsequence(transport.pending, initially + transport.Since(mark))
            && (!broken ==> FirstConfirms(initially + transport.Since(mark), Record, transport.pending)))
    }

    /** Whatever was consumed or is pending arrived, in that order, in every state of a session. */
    ghost predicate Conserved()
      requires transport.Valid()
      reads this, transport, transport.decoder, builder
    {
      Subsequence(builder.captures + Records(transport.pending), Records(transport.arrived))
    }

    ghost predicate Account(captures: seq<Captured>)
      requires transport.Valid() && AllNotices(initially)
      reads this, transport, transport.decoder
    {
      Subsequence(captures, Recordable()) && (!broken ==> captures == Recordable())
    }

    /** Consumed before the session began, pending when it began, or received since. */
    ghost function Recordable(): seq<Captured>
      requires transport.Valid() && AllNotices(initially)
      reads this, transport, transport.decoder
    {
      early + Records(initially + transport.Since(mark))
    }

    constructor (t: PicoTransport)
      requires t.Valid()
      ensures Valid() && transport == t && !started && !finished && !broken && builder.captures == [] && fresh(builder)
    {
      transport := t;
      builder := new RecordingBuilder();
      started, finished, broken := false, false, false;
      early, initially, mark := [], [], 0;
      RecordsOfPart(t.pending, t.arrived);
      assert [] + Records(t.pending) == Records(t.pending);
    }

    /** start: a confirmed RECORD mode starts the session, and nothing else; no frame of the wait for it is lost. */
    method Start(nameTaken: bool, script: seq<Attempt>)
        returns (result: Result<()>, ghost attempts: nat, ghost cause: Cause)
      requires Valid() && !started && !finished && 1 < |script|
      modifies this, transport, transport.decoder
      ensures Valid() && started == result.Ok? && !finished && !broken
      ensures early == builder.captures && initially == old(transport.pending) && mark == |old(transport.arrived)|
      ensures result.Ok? ==> transport.Acknowledged(Record, initially + transport.Since(mark))
      ensures nameTaken ==> result.Failed? && transport.arrived == old(transport.arrived)
      ensures !nameTaken ==> (result.Ok? <==> cause == Confirmed)
      ensures !nameTaken ==> Justified(Record, 1, script, initially, transport.Since(mark), transport.pending,
                                       transport.received, attempts, cause)
    {
      hide Records, RecordingBuilder.Valid, ValidNotice, Subsequence, Scan;
      ghost var arrived := transport.arrived;
      early, initially, mark, broken := builder.captures, transport.pending, |transport.arrived|, false;
      if nameTaken { return Failed, 0, BadRequest; }
      ghost var newer: seq<Frame>;
      result, newer, attempts, cause := transport.SetMode(Record, 1, script);
      assert transport.Since(mark) == newer;
      Waited(builder.captures, initially, arrived, newer, transport.pending);
      started := result.Ok?;
      if started {
        RecordsConcat(initially, newer);
        DecidedReply(Record, initially + newer, transport.pending);
        SubsequenceSame(Recordable());
      }
    }

    /** consume: a RECORD_EVENT goes to the builder, an unexpected MODE_CHANGED is an error, the rest is ignored. */
    method Consume(f: Frame) returns (ok: bool)
      requires builder.Valid() && ValidNotice(f)
      modifies builder
      ensures builder.Valid()
      ensures ok ==> builder.captures == old(builder.captures) + Records([f])
      ensures !ok ==> builder.captures == old(builder.captures)
      ensures ok <==> if f.messageType == RECORD_EVENT then Monotone(old(builder.captures) + Records([f]))
                      else f.messageType != MODE_CHANGED
    {
      assert [f][1..] == [];
      if f.messageType == RECORD_EVENT {
        MonotoneStep(builder.captures, CaptureOf(f));
        assert Records([f]) == [CaptureOf(f)];
        hide Monotone;
        ok := builder.Add(CaptureOf(f).timestamp, CaptureOf(f).report);
      } else {
        ok := f.messageType != MODE_CHANGED;
      }
    }

    /** Consumes a frame that is not refused, as both receive_and_consume and the drain of stop do. */
    method ConsumeChecked(f: Frame) returns (ok: bool)
      requires builder.Valid() && AllNotices([f])
      modifies builder
      ensures builder.Valid()
      ensures builder.captures == if ok then old(builder.captures) + Records([f]) else old(builder.captures)
      ensures ok <==> Consumable(old(builder.captures), [f])
      ensures ok ==> NoneOfType([f], MODE_CHANGED)
    {
      assert f in [f];
      NothingConsumed(builder.captures, f);
      hide Refused, Records, Monotone, Consumable;
      ok := false;
      if !Refused(f) { ok := Consume(f); }
    }

    /** `taken` has left the deque and is not consumed yet: with it the account is complete, and losing it loses nothing
        else. */
    ghost predicate Counted(taken: seq<Frame>)
      requires transport.Valid() && AllNotices(initially) && AllNotices(taken)
      reads this, transport, transport.decoder, builder
    {
      && Subsequence(builder.captures + Records(taken) + Records(transport.pending), Recordable())
      && Subsequence(builder.captures + Records(transport.pending), Recordable())
      && (!broken ==> builder.captures + Records(taken) + Records(transport.pending) == Recordable())
      && (!broken && taken == [] ==> builder.captures + Records(transport.pending) == Recordable())
    }

    ghost predicate Arriving(taken: seq<Frame>)
      requires transport.Valid() && AllNotices(taken)
      reads this, transport, transport.decoder, builder
    {
      && Subsequence(builder.captures + Records(taken) + Records(transport.pending), Records(transport.arrived))
      && Subsequence(builder.captures + Records(transport.pending), Records(transport.arrived))
    }

    ghost function InHand(got: Result<Frame>): seq<Frame> {
      if got.Ok? then [got.value] else []
    }

    /** The first half of receive_and_consume: the oldest frame, whatever else arrives with it. */
    method Fetch(turns: seq<Turn>) returns (got: Result<Frame>)
      requires Valid()
      modifies transport, transport.decoder
      ensures transport.Valid() && builder.Valid() && old(transport.arrived) <= transport.arrived
      ensures AllNotices(InHand(got)) && Arriving(InHand(got))
      ensures started && !finished ==> Subsequence(transport.pending, initially + transport.Since(mark))
      ensures started && !finished ==> mark <= |transport.arrived| && Counted(InHand(got))
      ensures started && !finished && !broken ==>
                FirstConfirms(initially + transport.Since(mark), Record, InHand(got) + transport.pending)
      ensures old(transport.pending) != [] ==> got == Ok(old(transport.pending)[0])
      ensures got.Timeout? ==> Cancelled in turns || transport.received == old(transport.received) + DataOf(turns)
      ensures got.Failed? ==> Unreadable(turns, transport.received)
      ensures builder.captures == old(builder.captures)
    {
      hide Records, Refused, RecordingBuilder.Valid, ValidNotice, Subsequence, Scan;
      ghost var before, captures, all, arrived := transport.pending, builder.captures, Recordable(), transport.arrived;
      ghost var newer: seq<Frame>;
      got, newer := transport.ReceiveFrame(turns);
      RecordsConcat(arrived, newer);
      Received(captures, before, Records(arrived), newer, InHand(got), transport.pending, true);
      if started && !finished {
        Arrived(early, initially, transport.arrived, mark, newer);
        Received(captures, before, all, newer, InHand(got), transport.pending, broken);
        StillRecent(before, initially, arrived, mark, newer, transport.pending);
        if !broken { RepliesArrive(initially, arrived, mark, newer, before, InHand(got) + transport.pending); }
      }
    }

    /** receive_and_consume: one frame, whatever else arrives with it. A MODE_CHANGED fails it, even the late answer to
        a repeated MODE_SET of start. */
    method ReceiveAndConsume(turns: seq<Turn>) returns (result: Result<()>)
      requires Valid()
      modifies this, transport, transport.decoder, builder
      ensures Valid() && started == old(started) && finished == old(finished)
      ensures early == old(early) && initially == old(initially) && mark == old(mark)
                && old(transport.arrived) <= transport.arrived
      ensures broken == (old(broken) || result.Failed?)
      ensures old(transport.pending) != [] && old(transport.pending)[0].messageType == MODE_CHANGED ==> result.Failed?
      ensures old(transport.pending) != [] ==>
                var first := [old(transport.pending)[0]];
                AllNotices(first) && (result.Ok? <==> Consumable(old(builder.captures), first))
      ensures result.Timeout? ==>
                && old(transport.pending) == []
                && (Cancelled in turns || transport.received == old(transport.received) + DataOf(turns))
    {
      hide Records, Refused, RecordingBuilder.Valid, ValidNotice, AllNotices, Subsequence, PicoTransport.Valid;
      hide Consumable, FirstConfirms, Unreadable, DataOf;
      var got := Fetch(turns);
      result := if got.Timeout? then Timeout else Failed;
      if got.Ok? {
        var ok := ConsumeChecked(got.value);
        result := if ok then Ok(()) else Failed;
      }
      SameReplies(initially + transport.Since(mark), Record, InHand(got), transport.pending);
      broken := broken || result.Failed?;
    }

    /** stop: PASS confirmed, then everything still pending, and only then the recording. It succeeds only if the one
        MODE_CHANGED that has arrived and was not yet consumed is the confirmation; so a session without a failed
        receive that is saved has seen exactly two, RECORD confirmed and PASS confirmed. */
    method Stop(script: seq<Attempt>, saved: bool)
        returns (result: Result<Recording>, ghost rest: seq<Frame>, ghost attempts: nat, ghost cause: Cause)
      requires Valid() && 1 < |script|
      modifies this, transport, transport.decoder, builder
      ensures Valid() && started == old(started)
      ensures old(finished) || !old(started) ==> result.Failed? && finished == old(finished)
      ensures !old(finished) && old(started) ==> finished
      ensures early == old(early) && initially == old(initially) && mark == old(mark)
                && old(transport.arrived) <= transport.arrived
      ensures broken == old(broken)
      ensures result.Ok? ==> WellFormed(result.value) && transport.pending == []
      ensures result.Ok? ==>
                transport.Acknowledged(Pass, old(transport.pending) + transport.Since(|old(transport.arrived)|))
      ensures result.Ok? ==>
                transport.Acknowledged(Pass, initially + transport.Since(mark)) && mark <= |transport.arrived|
      ensures result.Ok? ==> Represents(result.value, builder.captures) && Account(builder.captures)
      ensures result.Ok? ==> OneAnswer(old(transport.pending) + transport.Since(|old(transport.arrived)|))
      ensures result.Ok? && !broken ==> TwoAnswers(initially + transport.Since(mark))
      ensures AllNotices(rest)
      ensures !old(finished) && old(started) ==>
                Justified(Pass, 1, script, old(transport.pending), transport.Since(|old(transport.arrived)|), rest,
                          transport.received, attempts, cause)
      ensures !old(finished) && old(started) ==>
                (result.Ok? <==> cause == Confirmed && Consumable(old(builder.captures), rest) && saved)
    {
      hide Records, RecordingBuilder.Valid, Represents, WellFormed, ValidNotice, Subsequence, Scan;
      hide OneAnswer, TwoAnswers, FirstConfirms, Justified, Consumable, PicoTransport.Valid, PicoTransport.Acknowledged;
      if finished || !started {
        return Failed, [], 0, BadRequest;
      }
      hide AllNotices;
      var ended;
      ended, rest, attempts, cause := Conclude(script);
      finished := true;
      if !ended.Ok? {
        result := if ended.Timeout? then Timeout else Failed;
        return;
      }
      var recording := builder.Build();
      result := if saved then Ok(recording) else Failed;
    }

    /** The body of stop up to the saving: the mode change, then the frames it deferred. */
    method Conclude(script: seq<Attempt>)
        returns (result: Result<()>, ghost rest: seq<Frame>, ghost attempts: nat, ghost cause: Cause)
      requires Valid() && started && !finished && 1 < |script|
      modifies transport, transport.decoder, builder
      ensures transport.Valid() && builder.Valid() && old(transport.arrived) <= transport.arrived && Conserved()
      ensures result.Ok? ==> transport.pending == []
      ensures result.Ok? ==>
                transport.Acknowledged(Pass, old(transport.pending) + transport.Since(|old(transport.arrived)|))
      ensures result.Ok? ==>
                transport.Acknowledged(Pass, initially + transport.Since(mark)) && mark <= |transport.arrived|
      ensures result.Ok? ==> Account(builder.captures)
      ensures result.Ok? ==> OneAnswer(old(transport.pending) + transport.Since(|old(transport.arrived)|))
      ensures result.Ok? && !broken ==> TwoAnswers(initially + transport.Since(mark))
      ensures AllNotices(rest)
      ensures Justified(Pass, 1, script, old(transport.pending), transport.Since(|old(transport.arrived)|), rest,
                        transport.received, attempts, cause)
      ensures result.Ok? <==> cause == Confirmed && Consumable(old(builder.captures), rest)
    {
      hide Records, Refused, RecordingBuilder.Valid, ValidNotice, Subsequence, Scan;
      ghost var before, captures, all, arrived := transport.pending, builder.captures, Recordable(), transport.arrived;
      ghost var newer: seq<Frame>;
      result, newer, attempts, cause := transport.SetMode(Pass, 1, script);
      rest := transport.pending;
      assert transport.Since(|arrived|) == newer;
      Waited(captures, before, arrived, newer, transport.pending);
      if result.Ok? {
        Arrived(early, initially, transport.arrived, mark, newer);
        Recent(before, initially, arrived, mark, newer);
        transport.AcknowledgedEver(Pass, before + newer, initially + transport.Since(mark));
        var frames := transport.DrainPendingFrames();
        Drained(captures, before, all, newer, frames, broken);
        var ok := ConsumeAll(frames);
        ConsumedFirst(builder.captures, captures + Records(frames), Records(transport.arrived));
        if ok {
          DecidedReply(Pass, before + newer, frames);
          OtherReplies(frames);
          if !broken { RepliesArrive(initially, arrived, mark, newer, before, before + newer); }
        } else {
          result := Failed;
        }
      }
    }

    /** The drain loop of stop: every pending frame, oldest first, until one is refused. */
    method ConsumeAll(frames: seq<Frame>) returns (ok: bool)
      requires builder.Valid() && AllNotices(frames)
      modifies builder
      ensures builder.Valid()
      ensures builder.captures <= old(builder.captures) + Records(frames)
      ensures ok ==> builder.captures == old(builder.captures) + Records(frames)
      ensures ok <==> Consumable(old(builder.captures), frames)
    {
      assert Monotone(builder.captures) && builder.captures + [] == builder.captures;
      assert Consumable(builder.captures, []);
      hide RecordingBuilder.Valid, Refused, ValidNotice, AllNotices, Consumable, Monotone, Records;
      ok := true;
      for i := 0 to |frames|
        invariant builder.Valid() && ok
        invariant builder.captures == old(builder.captures) + Records(frames[..i])
        invariant Consumable(old(builder.captures), frames[..i])
      {
        var f := frames[i];
        ConsumeNext(old(builder.captures), frames, i);
        if Refused(f) { return false; }
        ok := Consume(f);
        if !ok { return; }
      }
      assert frames[..|frames|] == frames;
    }
  }

  // ---- replies to MODE_SET in a session ----

  /** What the drain loop of stop can consume: no refused frame, no MODE_CHANGED, no timestamp that moves backwards. */
  ghost predicate Consumable(captures: seq<Captured>, frames: seq<Frame>)
    requires AllNotices(frames)
  {
    && (forall f :: f in frames ==> !Refused(f)) && NoneOfType(frames, MODE_CHANGED)
    && Monotone(captures + Records(frames))
  }

  lemma {:induction false} MonotonePrefix(part: seq<Captured>, whole: seq<Captured>)
    requires part <= whole
    ensures Monotone(whole) ==> Monotone(part)
  {
  }

  lemma {:induction false} ConsumableStep(captures: seq<Captured>, frames: seq<Frame>, f: Frame)
    requires AllNotices(frames) && ValidNotice(f) && Consumable(captures, frames)
    ensures AllNotices(frames + [f])
    ensures Consumable(captures, frames + [f]) <==>
            && !Refused(f)
            && if f.messageType == RECORD_EVENT then Monotone(captures + Records(frames) + Records([f]))
               else f.messageType != MODE_CHANGED
  {
    hide Refused, ValidNotice, Monotone;
    RecordsConcat(frames, [f]);
    assert captures + Records(frames + [f]) == captures + Records(frames) + Records([f]);
    assert [f][1..] == [];
    assert f.messageType != RECORD_EVENT ==> Records([f]) == [];
    assert captures + Records(frames) + [] == captures + Records(frames);
    assert f in frames + [f];
  }

  lemma {:induction false} ConsumablePrefix(captures: seq<Captured>, frames: seq<Frame>, n: nat)
    requires AllNotices(frames) && n <= |frames|
    ensures AllNotices(frames[..n]) && (Consumable(captures, frames) ==> Consumable(captures, frames[..n]))
  {
    hide Refused, ValidNotice;
    assert frames == frames[..n] + frames[n..];
    RecordsConcat(frames[..n], frames[n..]);
    MonotonePrefix(captures + Records(frames[..n]), captures + Records(frames));
  }

  lemma {:induction false} NothingConsumed(captures: seq<Captured>, f: Frame)
    requires ValidNotice(f) && Monotone(captures)
    ensures AllNotices([f])
    ensures Consumable(captures, [f]) <==>
            && !Refused(f)
            && if f.messageType == RECORD_EVENT then Monotone(captures + Records([f]))
               else f.messageType != MODE_CHANGED
  {
    assert captures + [] == captures && [] + [f] == [f];
    ConsumableStep(captures, [], f);
  }

  /** What one turn of the drain loop needs to know. */
  lemma {:induction false} ConsumeNext(captures: seq<Captured>, frames: seq<Frame>, i: nat)
    requires AllNotices(frames) && i < |frames|
    ensures ValidNotice(frames[i]) && AllNotices(frames[..i]) && AllNotices(frames[..i + 1])
    ensures captures + Records(frames[..i]) <= captures + Records(frames)
    ensures captures + Records(frames[..i + 1]) == captures + Records(frames[..i]) + Records([frames[i]])
    ensures Consumable(captures, frames) ==> Consumable(captures, frames[..i + 1])
    ensures Consumable(captures, frames[..i]) ==>
              (Consumable(captures, frames[..i + 1]) <==>
               && !Refused(frames[i])
               && if frames[i].messageType == RECORD_EVENT
                  then Monotone(captures + Records(frames[..i]) + Records([frames[i]]))
                  else frames[i].messageType != MODE_CHANGED)
  {
    var f := frames[i];
    assert frames[..i + 1] == frames[..i] + [f] && frames == frames[..i] + frames[i..];
    RecordsConcat(frames[..i], [f]);
    RecordsConcat(frames[..i], frames[i..]);
    assert captures + (Records(frames[..i]) + Records([f])) == captures + Records(frames[..i]) + Records([f]);
    if Consumable(captures, frames[..i]) { ConsumableStep(captures, frames[..i], f); }
    ConsumablePrefix(captures, frames, i + 1);
    hide Consumable, Refused, Records, Monotone;
  }

  /** One reply, and it confirms PASS. */
  ghost predicate OneAnswer(frames: seq<Frame>) {
    |Replies(frames)| == 1 && Confirms(Replies(frames)[0], Pass)
  }

  /** Two replies: RECORD confirmed, then PASS. */
  ghost predicate TwoAnswers(frames: seq<Frame>) {
    |Replies(frames)| == 2 && Confirms(Replies(frames)[0], Record) && Confirms(Replies(frames)[1], Pass)
  }

  lemma {:induction false} SameReplies(seen: seq<Frame>, target: Mode, taken: seq<Frame>, left: seq<Frame>)
    ensures NoneOfType(taken, MODE_CHANGED) && FirstConfirms(seen, target, taken + left) ==>
              FirstConfirms(seen, target, left)
  {
    RepliesConcat(taken, left);
    OtherReplies(taken);
    assert Replies(taken) == [] ==> Replies(taken) + Replies(left) == Replies(left);
    hide Confirms, Replies;
  }

  lemma {:induction false} RepliesArrive(initially: seq<Frame>, arrived: seq<Frame>, mark: nat, newer: seq<Frame>,
      before: seq<Frame>, after: seq<Frame>)
    requires mark <= |arrived| && before + newer == after
    requires FirstConfirms(initially + arrived[mark..], Record, before)
    ensures FirstConfirms(initially + (arrived + newer)[mark..], Record, after)
  {
    hide Confirms;
    assert initially + (arrived + newer)[mark..] == initially + arrived[mark..] + newer;
    RepliesConcat(initially + arrived[mark..], newer);
    RepliesConcat(before, newer);
  }

  /** An input on which a repeated MODE_SET loses a recording that was stopped in order: both acknowledgements arrive in
      one read; the first confirms PASS, and the drain raises on the second. */
  lemma {:induction false} BothAnswersAtOnce(captures: seq<Captured>) returns (ack: Frame)
    ensures AllNotices([ack]) && Decided(Pass, [ack, ack], [ack]) && !Consumable(captures, [ack])
  {
    ack := FrameOf(ModeChanged(Pass, Okay));
    MessagesUnpack(ModeChanged(Pass, Okay));
    assert [ack, ack][..0] == [] && [ack, ack][1..] == [ack] == [] + [ack];
    assert Confirms(ack, Pass) && ack.messageType == MODE_CHANGED;
    assert TakenAt([ack, ack], MODE_CHANGED, ack, [ack], 0);
    assert OldestTaken([ack, ack], MODE_CHANGED, ack, [ack]);
    assert ack in [ack];
  }

  /** A wait that loses no more than it should keeps what was consumed or is pending in order. */
  lemma {:induction false} Waited(captures: seq<Captured>, before: seq<Frame>, arrived: seq<Frame>, newer: seq<Frame>,
      pending: seq<Frame>)
    requires AllNotices(before) && AllNotices(arrived) && AllNotices(newer)
    requires Subsequence(captures + Records(before), Records(arrived)) && Subsequence(pending, before + newer)
    ensures AllNotices(pending) && AllNotices(arrived + newer)
    ensures Subsequence(captures + Records(pending), Records(arrived + newer))
  {
    hide Subsequence, Records;
    RecordsConcat(before, newer);
    RecordsConcat(arrived, newer);
    RecordsOfPart(pending, before + newer);
    SubsequenceExtend(captures + Records(before), Records(arrived), Records(newer));
    assert captures + Records(before) + Records(newer) == captures + (Records(before) + Records(newer));
    SubsequenceAfter(captures, Records(pending), Records(before + newer));
    SubsequenceTrans(captures + Records(pending), captures + Records(before + newer), Records(arrived + newer));
  }

  lemma {:induction false} Recent(before: seq<Frame>, initially: seq<Frame>, arrived: seq<Frame>, mark: nat,
      newer: seq<Frame>)
    requires mark <= |arrived| && Subsequence(before, initially + arrived[mark..])
    ensures Subsequence(before + newer, initially + (arrived + newer)[mark..])
  {
    hide Subsequence;
    SubsequenceExtend(before, initially + arrived[mark..], newer);
    assert initially + (arrived + newer)[mark..] == initially + arrived[mark..] + newer;
  }

  lemma {:induction false} StillRecent(before: seq<Frame>, initially: seq<Frame>, arrived: seq<Frame>, mark: nat,
      newer: seq<Frame>, pending: seq<Frame>)
    requires mark <= |arrived| && Subsequence(before, initially + arrived[mark..])
               && Subsequence(pending, before + newer)
    ensures Subsequence(pending, initially + (arrived + newer)[mark..])
  {
    hide Subsequence;
    Recent(before, initially, arrived, mark, newer);
    SubsequenceTrans(pending, before + newer, initially + (arrived + newer)[mark..]);
  }

  /** What was consumed before a drain stopped is a beginning of what it had to consume. */
  lemma {:induction false} ConsumedFirst(captures: seq<Captured>, all: seq<Captured>, arrived: seq<Captured>)
    requires captures <= all && Subsequence(all, arrived)
    ensures Subsequence(captures + Records([]), arrived)
  {
    SubsequencePrefix(all, |captures|);
    assert all[..|captures|] == captures == captures + [];
    SubsequenceTrans(captures, all, arrived);
  }

  /** Frames that arrive extend what there is to record. */
  lemma {:induction false} Arrived(early: seq<Captured>, initially: seq<Frame>, arrived: seq<Frame>, mark: nat,
      newer: seq<Frame>)
    requires AllNotices(initially) && AllNotices(arrived) && mark + |newer| <= |arrived|
               && arrived[|arrived| - |newer|..] == newer
    ensures AllNotices(newer) && AllNotices(arrived[mark..]) && AllNotices(arrived[mark..|arrived| - |newer|])
    ensures AllNotices(initially + arrived[mark..]) && AllNotices(initially + arrived[mark..|arrived| - |newer|])
    ensures early + Records(initially + arrived[mark..]) == early
              + Records(initially + arrived[mark..|arrived| - |newer|]) + Records(newer)
  {
    var since := arrived[mark..|arrived| - |newer|];
    assert arrived[mark..] == since + newer;
    assert initially + (since + newer) == initially + since + newer;
    RecordsConcat(initially + since, newer);
    assert early + (Records(initially + since) + Records(newer)) == early + Records(initially + since) + Records(newer);
  }

  /** One receive: what was pending or is new is what was taken, then what is still pending; and losing what was taken
      loses nothing else. */
  lemma {:induction false} Received(captures: seq<Captured>, before: seq<Frame>, all: seq<Captured>,
      newer: seq<Frame>, taken: seq<Frame>, after: seq<Frame>, broken: bool)
    requires AllNotices(before) && AllNotices(newer) && AllNotices(taken) && AllNotices(after) && |taken| <= 1
    requires before + newer == taken + after
    requires Subsequence(captures + Records(before), all) && (!broken ==> captures + Records(before) == all)
    ensures Subsequence(captures + Records(taken) + Records(after), all + Records(newer))
    ensures !broken ==> captures + Records(taken) + Records(after) == all + Records(newer)
    ensures Subsequence(captures + Records(after), all + Records(newer))
    ensures taken == [] && !broken ==> captures + Records(after) == all + Records(newer)
  {
    RecordsConcat(before, newer);
    RecordsConcat(taken, after);
    OneRecord(taken);
    hide Subsequence, Records;
    SubsequenceExtend(captures + Records(before), all, Records(newer));
    Regroup(captures, Records(before), Records(newer), Records(taken), Records(after));
    if Records(taken) == [] {
      assert captures + [] == captures;
    } else {
      SubsequenceDrop(captures, Records(taken)[0], Records(after), all + Records(newer));
    }
  }

  lemma {:induction false} Regroup<T>(s: seq<T>, a: seq<T>, b: seq<T>, c: seq<T>, d: seq<T>)
    requires a + b == c + d
    ensures s + a + b == s + c + d
  {
    assert s + a + b == s + (a + b) && s + c + d == s + (c + d);
  }

  lemma {:induction false} OneRecord(taken: seq<Frame>)
    requires AllNotices(taken) && |taken| <= 1
    ensures Records(taken) == [] || Records(taken) == [Records(taken)[0]]
  {
  }

  /** A wait for MODE_CHANGED keeps the account: what the deque holds afterwards completes the session. */
  lemma {:induction false} Drained(captures: seq<Captured>, before: seq<Frame>, all: seq<Captured>,
      newer: seq<Frame>, pending: seq<Frame>, broken: bool)
    requires RecordsKept(before, newer, pending)
    requires Subsequence(captures + Records(before), all) && (!broken ==> captures + Records(before) == all)
    ensures Subsequence(captures + Records(pending), all + Records(newer))
    ensures !broken ==> captures + Records(pending) == all + Records(newer)
  {
    SubsequenceExtend(captures + Records(before), all, Records(newer));
    assert captures + (Records(before) + Records(newer)) == captures + Records(before) + Records(newer);
  }
}
