/** The record path from the Pico's transmit ring to the recording Zero saves. */
module RecordPath {
  import opened Framing
  import opened KeyboardCaptures
  import opened Messages
  import opened Payloads
  import opened UartTransports
  import opened ZeroTransport
  import opened Recordings
  import opened Expansions
  import Links

  lemma {:induction false} FramesSnoc(messages: seq<Message>, m: Message)
    requires (forall x :: x in messages ==> Fits(x)) && Fits(m)
    ensures Links.Frames(messages + [m]) == Links.Frames(messages) + [FrameOf(m)]
  {
    hide FrameOf, Fits;
    if messages == [] {
      assert [m][1..] == [];
    } else {
      assert (messages + [m])[1..] == messages[1..] + [m];
      FramesSnoc(messages[1..], m);
    }
  }

  /** The RECORD_EVENTs among the frames are the captures among the messages. */
  lemma {:induction false} RecordsOfFrames(messages: seq<Message>)
    requires forall m :: m in messages ==> Fits(m)
    ensures AllNotices(Links.Frames(messages)) && Records(Links.Frames(messages)) == DigestOf(messages).records
  {
    Links.FramesUnpack(messages);
    if messages != [] {
      var n := |messages| - 1;
      var before, m := messages[..n], messages[n];
      assert messages == before + [m];
      RecordsOfFrames(before);
      FramesSnoc(before, m);
      MessagesUnpack(m);
      RecordOfFrame(m);
      RecordsConcat(Links.Frames(before), [FrameOf(m)]);
      DigestStep(before, m);
    }
  }

  lemma {:induction false} RecordOfFrame(m: Message)
    requires Fits(m) && ValidNotice(FrameOf(m)) && Unpack(FrameOf(m)) == Unpacked.Valid(m)
    ensures Records([FrameOf(m)]) == if m.RecordEvent? then [m.event] else []
  {
    hide Write, Read, MetricsBytes, UnpackMetrics;
    assert [FrameOf(m)][1..] == [];
  }

  /** The RECORD_EVENTs in Zero's deque are the captures among the first messages the transmit ring accepted, as many
      as have arrived; all have once the ring is empty and every byte has been read. */
  lemma {:induction false} RecordsReachZero(pico: UartTransport, zero: PicoTransport, messages: seq<Message>)
    requires (forall m :: m in messages ==> Fits(m)) && pico.TxValid() && pico.accepted == Links.Frames(messages)
    requires zero.Valid() && !zero.refused && zero.received <= pico.transmitted
    ensures |zero.arrived| <= |messages| && zero.arrived == Links.Frames(messages)[..|zero.arrived|]
    ensures Records(zero.arrived) == DigestOf(messages[..|zero.arrived|]).records
    ensures pico.Tx() == [] && zero.received == pico.transmitted ==> messages[..|zero.arrived|] == messages
  {
    RecordsOfFrames(messages);
    pico.TransmittedInOrder();
    Links.NoticesScan(pico.accepted, zero.received);
    var n := |zero.arrived|;
    Links.FramesPrefix(messages, n);
    RecordsOfFrames(messages[..n]);
  }

  /** What a session had consumed or had pending when it started. */
  ghost function Before(session: RecordingSession): seq<Captured>
    requires AllNotices(session.initially)
    reads session
  {
    session.early + Records(session.initially)
  }

  /** What a session has to record when some of the messages have arrived: what it began with, then the captures among
      those that arrived since. */
  lemma {:induction false} RecordableIs(session: RecordingSession, messages: seq<Message>, n: nat)
    requires session.Valid() && session.mark <= n == |session.transport.arrived| <= |messages|
    requires (forall m :: m in messages ==> Fits(m)) && session.transport.arrived == Links.Frames(messages)[..n]
    ensures session.Recordable() == Before(session) + DigestOf(messages[session.mark..n]).records
  {
    var mark, since := session.mark, session.transport.Since(session.mark);
    assert since == Links.Frames(messages)[mark..n];
    Links.FramesSlice(messages, mark, n);
    RecordsOfFrames(messages[mark..n]);
    RecordsConcat(session.initially, since);
    hide Records, Links.Frames, Fits, DigestOf;
    assert session.early + (Records(session.initially) + Records(since)) == Before(session) + Records(since);
  }

  /** The recording a session saves, as stop returns it: when no receive failed since it started it holds what the
      session began with and exactly the captures among the messages that arrived since, and playing it back at speed 1
      returns each report at its capture time relative to the first; after a failed receive some may be missing. */
  lemma {:induction false} SavedAsCaptured(pico: UartTransport, session: RecordingSession, messages: seq<Message>,
      saved: Recording)
    requires session.Valid() && session.mark <= |session.transport.arrived|
    requires Represents(saved, session.builder.captures) && session.Account(session.builder.captures)
    requires (forall m :: m in messages ==> Fits(m)) && pico.TxValid() && pico.accepted == Links.Frames(messages)
    requires !session.transport.refused && session.transport.received <= pico.transmitted
    ensures |session.transport.arrived| <= |messages|
    ensures var captured := Before(session) + DigestOf(messages[session.mark..|session.transport.arrived|]).records;
            Subsequence(session.builder.captures, captured) && (!session.broken ==> PlaysBack(saved, captured))
  {
    RecordsReachZero(pico, session.transport, messages);
    RecordableIs(session, messages, |session.transport.arrived|);
    SpeedOneRestores(saved, session.builder.captures);
  }

  /** One event for each capture: its report, and at speed 1 an offset that is its time since the first. */
  ghost predicate PlaysBack(saved: Recording, captured: seq<Captured>) {
    && |saved.events| == |captured|
    && forall i :: 0 <= i < |captured| ==>
         && saved.events[i].report == captured[i].report
         && captured[0].timestamp <= captured[i].timestamp
         && OffsetOf(saved.events, i, 1, 1) == captured[i].timestamp - captured[0].timestamp
  }

  /** Nothing captured before the mode change is missed: when a PASS acknowledgement has arrived since the start, and no
      capture follows the first of them, the saved recording holds every capture the ring has accepted since the start,
      whatever is still in the ring or unread behind it. */
  lemma {:induction false} AcknowledgedIsComplete(pico: UartTransport, session: RecordingSession,
      messages: seq<Message>,
      saved: Recording, k: nat)
    requires session.Valid() && session.mark <= |session.transport.arrived| && !session.broken
    requires Represents(saved, session.builder.captures) && session.Account(session.builder.captures)
    requires (forall m :: m in messages ==> Fits(m)) && pico.TxValid() && pico.accepted == Links.Frames(messages)
    requires !session.transport.refused && session.transport.received <= pico.transmitted
    requires session.transport.Acknowledged(Pass, session.transport.Since(session.mark))
    requires session.mark <= k <= |messages| && ModeChanged(Pass, Okay) !in messages[session.mark..k]
    requires forall i :: k <= i < |messages| ==> !messages[i].RecordEvent?
    ensures PlaysBack(saved, Before(session) + DigestOf(messages[session.mark..]).records)
  {
    hide Fits, PlaysBack, Records, Represents, Links.Frames, DigestOf, Before, Subsequence;
    hide RecordingSession.Account, RecordingSession.Conserved, PicoTransport.Acknowledged;
    SavedAsCaptured(pico, session, messages, saved);
    RecordsReachZero(pico, session.transport, messages);
    var n, mark := |session.transport.arrived|, session.mark;
    var j := AckPosition(session.transport, messages, mark);
    InSlice(messages, mark, j, k, ModeChanged(Pass, Okay));
    NoneAfter(messages, mark, k, n);
  }

  lemma {:induction false} NoneAfter(messages: seq<Message>, mark: nat, k: nat, n: nat)
    requires mark <= n <= |messages| && k <= n && forall i :: k <= i < |messages| ==> !messages[i].RecordEvent?
    ensures DigestOf(messages[mark..n]).records == DigestOf(messages[mark..]).records
  {
    NoMoreRecords(messages[mark..], n - mark);
    assert messages[mark..][..n - mark] == messages[mark..n];
  }

  lemma {:induction false} AckPosition(zero: PicoTransport, messages: seq<Message>, mark: nat) returns (j: nat)
    requires (forall m :: m in messages ==> Fits(m)) && mark <= |zero.arrived| <= |messages|
    requires zero.arrived == Links.Frames(messages)[..|zero.arrived|]
    requires zero.Acknowledged(Pass, zero.Since(mark))
    ensures mark <= j < |zero.arrived| && messages[j] == ModeChanged(Pass, Okay)
  {
    hide Fits, Unpack, ValidNotice, Links.Frames;
    var since := zero.Since(mark);
    var f :| f in since && ValidNotice(f) && Unpack(f) == Unpacked.Valid(ModeChanged(Pass, Okay));
    var i :| 0 <= i < |since| && since[i] == f;
    j := mark + i;
    FrameAt(messages, j);
  }

  lemma {:induction false} FrameAt(messages: seq<Message>, j: nat)
    requires (forall m :: m in messages ==> Fits(m)) && j < |messages|
    ensures ValidNotice(Links.Frames(messages)[j]) && Unpack(Links.Frames(messages)[j]) == Unpacked.Valid(messages[j])
  {
    hide FrameOf, Unpack, Fits, ValidNotice;
    if j == 0 {
      MessagesUnpack(messages[0]);
    } else {
      FrameAt(messages[1..], j - 1);
    }
  }

  lemma {:induction false} InSlice(messages: seq<Message>, i: nat, j: nat, k: nat, m: Message)
    requires i <= j < |messages| && i <= k <= |messages| && messages[j] == m
    ensures j < k ==> m in messages[i..k]
  {
    if j < k { assert messages[i..k][j - i] == m; }
  }

  lemma {:induction false} NoMoreRecords(messages: seq<Message>, n: nat)
    requires n <= |messages| && forall i :: n <= i < |messages| ==> !messages[i].RecordEvent?
    ensures DigestOf(messages[..n]).records == DigestOf(messages).records
  {
    if n < |messages| {
      var front := messages[..|messages| - 1];
      NoMoreRecords(front, n);
      assert front[..n] == messages[..n];
    } else {
      assert messages[..n] == messages;
    }
  }
}
