/** From the messages of the firmware's main loop to what Zero unpacks and saves. */
module Delivery {
  import opened Bits
  import opened Framing
  import opened KeyboardCaptures
  import opened Lateness
  import opened Messages
  import opened PlaybackRuns
  import opened Firmwares
  import opened Payloads
  import opened UartTransports
  import opened ZeroDecoder
  import opened ZeroTransport
  import opened Recordings
  import opened RecordPath
  import Theorems

  /** No run has sent more reports than its 32-bit counter can count. */
  ghost predicate RunsCounted(runs: seq<Run>) {
    forall i :: 0 <= i < |runs| ==> |runs[i].history.sent| <= UINT32
  }

  /** The sum of a run that was counted fits its 64-bit field. */
  lemma {:induction false} CountedSumFits(r: Run)
    requires GoodRun(r) && |r.history.sent| <= UINT32
    ensures FitsSigned(r.metrics.sum, 8)
  {
    var log := Latenesses(r.epoch, r.history.sent);
    forall x | x in log
      ensures 0 <= x <= INT32_MAX
    {
      var i :| 0 <= i < |log| && log[i] == x;
      NeverEarly(r, i);
    }
    SumFits(log);
    Pow256Values();
  }

  /** Every message the firmware offers to its transport fits the fields of its payload. */
  lemma {:induction false} OfferedFits(f: Firmware)
    requires f.Inv() && RunsCounted(f.runs)
    ensures forall m :: m in f.wire.offered ==> Fits(m)
    ensures forall m :: m in f.wire.accepted ==> Fits(m)
  {
    f.WireFacts();
    Theorems.WellFormedTrace(f);
    hide Firmware.Inv, Fits, FieldsFit, AllFieldsFit, Subsequence, GoodRun, DigestOf;
    forall m | m in f.wire.offered
      ensures Fits(m)
    {
      FieldsFitAt(f.wire.offered, m);
      if m.PlayMetrics? {
        var i := Theorems.MetricsBelong(f.wire.offered, m.metrics);
        Theorems.EveryRunIsGood(f, i);
        CountedSumFits(f.runs[i]);
      }
      FitsWhen(m);
    }
    forall m | m in f.wire.accepted
      ensures m in f.wire.offered
    {
      KeptIsSubsequence(f.wire.room, f.wire.offered);
      SubsequenceElements(f.wire.accepted, f.wire.offered, m);
    }
  }

  lemma {:induction false} FitsWhen(m: Message)
    ensures FieldsFit(m) && (m.PlayMetrics? ==> FitsSigned(m.metrics.sum, 8)) ==> Fits(m)
  {
  }

  /** The frames in the transmit ring's history are those of the messages it accepted. */
  ghost predicate Carry(frames: seq<Frame>, messages: seq<Message>) {
    |frames| == |messages| && forall i :: 0 <= i < |messages| && Fits(messages[i]) ==> frames[i] == FrameOf(messages[i])
  }

  /** It stays so when both accept one more. */
  lemma {:induction false} CarryStep(frames: seq<Frame>, messages: seq<Message>, m: Message)
    requires Carry(frames, messages) && Fits(m)
    ensures Carry(frames + [FrameOf(m)], messages + [m])
  {
    hide Fits, FrameOf;
    forall i | 0 <= i < |messages| + 1 && Fits((messages + [m])[i])
      ensures (frames + [FrameOf(m)])[i] == FrameOf((messages + [m])[i])
    {
      if i < |messages| { assert (messages + [m])[i] == messages[i]; }
    }
  }

  /** pico_uart_transport_queue_frame seen from both models: the firmware's message and the ring's frame are accepted
      together or dropped together, because room in the ring is what decides. */
  method Offer(wire: Wire, pico: UartTransport, m: Message) returns (ok: bool)
    requires wire.Valid() && pico.TxValid() && Carry(pico.accepted, wire.accepted) && Fits(m)
    requires wire.room(|wire.offered|) == (|pico.Tx()| + 7 + |FrameOf(m).payload| <= TX_CAPACITY)
    modifies wire, pico`txHead, pico.txBytes, pico`accepted
    ensures wire.Valid() && pico.TxValid() && Carry(pico.accepted, wire.accepted)
    ensures wire.offered == old(wire.offered) + [m] && ok == wire.room(|old(wire.offered)|)
    ensures wire.accepted == old(wire.accepted) + (if ok then [m] else [])
    ensures pico.accepted == old(pico.accepted) + if ok then [FrameOf(m)] else []
    ensures |pico.Tx()| == |old(pico.Tx())| + if ok then 7 + |FrameOf(m).payload| else 0
  {
    MessagesUnpack(m);
    TablesAgree(FrameOf(m));
    CarryStep(pico.accepted, wire.accepted, m);
    hide Fits, FrameOf, Carry, Wire.Valid, UartTransport.TxValid, ValidNotice, Unpack;
    ok := pico.QueueFrame(FrameOf(m));
    var _ := wire.QueueFrame(m);
  }

  // ---- the ring behind a whole run ----

  /** The bytes a message occupies in the ring: 7 around its payload. The firmware offers none that does not fit. */
  function Size(m: Message): nat {
    if Fits(m) then 7 + |FrameOf(m).payload| else 0
  }

  /** The bytes in a ring that began empty after `n` messages were offered to it, if up to `drains(i)` bytes are
      transmitted just before the i-th. */
  function Filled(drains: nat -> nat, offered: seq<Message>, n: nat): nat
    requires n <= |offered|
    decreases n, 1
  {
    if n == 0 then 0
    else Level(drains, offered, n - 1) + if HasRoom(drains, offered, n - 1) then Size(offered[n - 1]) else 0
  }

  /** And when the next is offered. */
  function Level(drains: nat -> nat, offered: seq<Message>, n: nat): nat
    requires n <= |offered|
    decreases n, 2
  {
    if Filled(drains, offered, n) <= drains(n) then 0 else Filled(drains, offered, n) - drains(n)
  }

  predicate HasRoom(drains: nat -> nat, offered: seq<Message>, n: nat)
    requires n < |offered|
    decreases n, 3
  {
    Level(drains, offered, n) + Size(offered[n]) <= TX_CAPACITY
  }

  /** The frames that are dropped are those for which a ring that transmits like this has no room. */
  ghost predicate RingDecides(room: nat -> bool, drains: nat -> nat, offered: seq<Message>) {
    forall i :: 0 <= i < |offered| ==> room(i) == HasRoom(drains, offered, i)
  }

  lemma {:induction false} SizeFits(m: Message)
    ensures Size(m) <= TX_CAPACITY
  {
    if Fits(m) { MessagesUnpack(m); }
  }

  /** A ring never holds more than its capacity, and one that is emptied before every offer drops nothing, so a firmware
      that always finds room runs against such a ring. */
  lemma {:induction false} EmptiedRingHasRoom(drains: nat -> nat, offered: seq<Message>, n: nat)
    requires n <= |offered|
    ensures Filled(drains, offered, n) <= TX_CAPACITY
    ensures n < |offered| && drains(n) >= TX_CAPACITY ==> HasRoom(drains, offered, n)
  {
    hide Size;
    if n > 0 { EmptiedRingHasRoom(drains, offered, n - 1); }
    if n < |offered| { SizeFits(offered[n]); }
  }

  /** pico_uart_transport_tx_task: up to `most` bytes, as many as there are. */
  method Transmit(pico: UartTransport, most: nat)
    requires pico.TxValid()
    modifies pico`txTail, pico`transmitted
    ensures pico.TxValid() && old(pico.transmitted) <= pico.transmitted
    ensures |pico.Tx()| == if |old(pico.Tx())| <= most then 0 else |old(pico.Tx())| - most
  {
    ghost var held := |pico.Tx()|;
    assert pico.txBytes.Length == TX_CAPACITY;
    hide UartTransport.TxValid, UartTransport.Tx;
    for i := 0 to most
      invariant pico.TxValid() && old(pico.transmitted) <= pico.transmitted
      invariant |pico.Tx()| == if held <= i then 0 else held - i
    {
      var _, _ := pico.PopTxByte();
    }
  }

  /** One more offer: what is in the ring then, when the room is what the ring has. */
  lemma {:induction false} FilledStep(room: nat -> bool, drains: nat -> nat, offered: seq<Message>, i: nat)
    requires i < |offered| && Fits(offered[i]) && RingDecides(room, drains, offered)
    ensures Filled(drains, offered, 0) == 0
    ensures Level(drains, offered, i) == if Filled(drains, offered, i) <= drains(i) then 0
                                         else Filled(drains, offered, i) - drains(i)
    ensures var size := 7 + |FrameOf(offered[i]).payload|;
            && room(i) == (Level(drains, offered, i) + size <= TX_CAPACITY)
            && Filled(drains, offered, i + 1) == Level(drains, offered, i) + if room(i) then size else 0
  {
    hide FrameOf, Fits;
  }

  /** Some transmission, then the next message. */
  method OfferNext(wire: Wire, pico: UartTransport, drains: nat -> nat, offered: seq<Message>, i: nat)
    requires wire.Valid() && pico.TxValid() && Carry(pico.accepted, wire.accepted)
    requires i < |offered| && Fits(offered[i]) && RingDecides(wire.room, drains, offered)
    requires wire.offered == offered[..i] && |pico.Tx()| == Filled(drains, offered, i)
    modifies wire, pico`txHead, pico`txTail, pico`transmitted, pico`accepted, pico.txBytes
    ensures wire.Valid() && pico.TxValid() && Carry(pico.accepted, wire.accepted)
    ensures wire.offered == offered[..i + 1] && |pico.Tx()| == Filled(drains, offered, i + 1)
  {
    hide Fits, FrameOf, Carry, Wire.Valid, UartTransport.TxValid, UartTransport.Tx, RingDecides, Filled, Level, HasRoom;
    FilledStep(wire.room, drains, offered, i);
    Transmit(pico, drains(i));
    assert offered[..i + 1] == offered[..i] + [offered[i]];
    var _ := Offer(wire, pico, offered[i]);
  }

  /** Messages offered one after the other to a ring that began empty and to a wire with the same room. */
  method Replay(room: nat -> bool, drains: nat -> nat, offered: seq<Message>)
      returns (pico: UartTransport, wire: Wire)
    requires (forall m :: m in offered ==> Fits(m)) && RingDecides(room, drains, offered)
    ensures fresh(pico) && pico.TxValid() && fresh(wire) && wire.Valid()
    ensures wire.room == room && wire.offered == offered && Carry(pico.accepted, wire.accepted)
    ensures |pico.Tx()| == Level(drains, offered, |offered|)
  {
    pico := new UartTransport();
    wire := new Wire(room);
    assert pico.Tx() == [] && Filled(drains, offered, 0) == 0;
    hide Fits, FrameOf, Carry, Wire.Valid, UartTransport.Valid, UartTransport.TxValid, UartTransport.Tx, RingDecides;
    hide Filled;
    for i := 0 to |offered|
      invariant wire.Valid() && pico.TxValid() && Carry(pico.accepted, wire.accepted)
      invariant wire.offered == offered[..i] && |pico.Tx()| == Filled(drains, offered, i)
    {
      OfferNext(wire, pico, drains, offered, i);
    }
    assert offered[..|offered|] == offered;
    Transmit(pico, drains(|offered|));
  }

  /** Every message of a firmware run goes through a ring that began empty, with any transmission in between: as long as
      the firmware saw the room that this ring had, the ring has accepted the frames of exactly the messages that the
      firmware's transport accepted. */
  method Convey(f: Firmware, drains: nat -> nat) returns (pico: UartTransport)
    requires f.Inv() && RunsCounted(f.runs) && RingDecides(f.wire.room, drains, f.wire.offered)
    ensures fresh(pico) && pico.TxValid() && Carry(pico.accepted, f.wire.accepted)
    ensures |pico.Tx()| == Level(drains, f.wire.offered, |f.wire.offered|)
  {
    OfferedFits(f);
    f.WireFacts();
    assert f.wire.accepted == Kept(f.wire.room, f.wire.offered);
    hide Fits, Firmware.Inv, Carry, RingDecides, Kept, UartTransport.TxValid, UartTransport.Tx;
    var wire: Wire;
    pico, wire := Replay(f.wire.room, drains, f.wire.offered);
  }

  lemma {:induction false} CarryIsFrames(frames: seq<Frame>, messages: seq<Message>)
    requires Carry(frames, messages) && forall m :: m in messages ==> Fits(m)
    ensures frames == Links.Frames(messages)
  {
    hide Fits, FrameOf;
    if messages != [] {
      forall i | 0 <= i < |messages| - 1 && Fits(messages[1..][i])
        ensures frames[1..][i] == FrameOf(messages[1..][i])
      {
        assert messages[1..][i] == messages[i + 1];
      }
      CarryIsFrames(frames[1..], messages[1..]);
      assert frames == [frames[0]] + frames[1..];
    }
  }

  /** Main theorem of the upward link: what Zero unpacks, however its reads cut the stream, is a beginning of the
      messages the transport accepted, which are what is left of those the firmware offered; and it is all of them once
      everything has been transmitted and read. */
  lemma {:induction false} FirmwareToZero(f: Firmware, pico: UartTransport, chunks: seq<seq<byte>>)
    requires f.Inv() && RunsCounted(f.runs)
    requires pico.TxValid() && Carry(pico.accepted, f.wire.accepted) && Flatten(chunks) <= pico.transmitted
    ensures var got := ScanChunks(DEFAULT, chunks);
            && got.errors == [] && AllNotices(got.frames)
            && |got.frames| <= |f.wire.accepted|
            && Links.UnpackAll(got.frames) == Links.Values(f.wire.accepted[..|got.frames|])
            && (pico.Tx() == [] && Flatten(chunks) == pico.transmitted ==>
                  Links.UnpackAll(got.frames) == Links.Values(f.wire.accepted))
    ensures Subsequence(f.wire.accepted, f.wire.offered)
  {
    OfferedFits(f);
    f.WireFacts();
    KeptIsSubsequence(f.wire.room, f.wire.offered);
    CarryIsFrames(pico.accepted, f.wire.accepted);
    Links.MessagesArrive(pico, f.wire.accepted, chunks);
  }

  // ---- captures ----

  /** Dropping messages can only drop captures. */
  lemma {:induction false} RecordsDrop(part: seq<Message>, whole: seq<Message>)
    requires Subsequence(part, whole)
    ensures Subsequence(DigestOf(part).records, DigestOf(whole).records)
  {
    if whole != [] {
      var m, front := whole[|whole| - 1], whole[..|whole| - 1];
      var before := DigestOf(front).records;
      if Subsequence(part, front) {
        RecordsDrop(part, front);
        if m.RecordEvent? { SubsequenceStep(DigestOf(part).records, before, m.event, false); }
      } else {
        RecordsDrop(part[..|part| - 1], front);
        if m.RecordEvent? { SubsequenceStep(DigestOf(part[..|part| - 1]).records, before, m.event, true); }
      }
    }
  }

  /** What a session has consumed and what it has pending were recorded by the firmware, in order and none twice. */
  lemma {:induction false} ConsumedWasRecorded(f: Firmware, pico: UartTransport, session: RecordingSession)
    requires f.Inv() && RunsCounted(f.runs) && pico.TxValid() && Carry(pico.accepted, f.wire.accepted)
    requires session.Valid() && !session.transport.refused && session.transport.received <= pico.transmitted
    ensures Subsequence(session.builder.captures + Records(session.transport.pending), f.physical.earlier
              + f.physical.recorded)
  {
    OfferedFits(f);
    f.WireFacts();
    CarryIsFrames(pico.accepted, f.wire.accepted);
    hide Fits, FrameOf, Subsequence, Firmware.Inv, Records, Kept;
    RecordsReachZero(pico, session.transport, f.wire.accepted);
    var n := |session.transport.arrived|;
    KeptIsSubsequence(f.wire.room, f.wire.offered);
    SubsequencePrefix(f.wire.accepted, n);
    SubsequenceTrans(f.wire.accepted[..n], f.wire.accepted, f.wire.offered);
    RecordsDrop(f.wire.accepted[..n], f.wire.offered);
    SubsequenceTrans(session.builder.captures + Records(session.transport.pending),
                     DigestOf(f.wire.accepted[..n]).records, DigestOf(f.wire.offered).records);
  }

  lemma {:induction false} PartIsMonotone(part: seq<Captured>, whole: seq<Captured>)
    requires Subsequence(part, whole) && Monotone(whole)
    ensures Monotone(part) && (part != [] ==> LatestOf(part) <= LatestOf(whole))
  {
    if whole != [] {
      var n := |whole| - 1;
      assert whole == whole[..n] + [whole[n]];
      if n > 0 { MonotoneStep(whole[..n], whole[n]); }
      if Subsequence(part, whole[..n]) {
        PartIsMonotone(part, whole[..n]);
      } else {
        var k := |part| - 1;
        PartIsMonotone(part[..k], whole[..n]);
        assert part == part[..k] + [whole[n]];
        MonotoneStep(part[..k], whole[n]);
      }
    }
  }

  /** Timestamps from this firmware never move backwards for the recording builder: whatever a session has consumed and
      has pending is in the order of its timestamps, so no pending RECORD_EVENT is refused. */
  lemma {:induction false} NeverBackwards(f: Firmware, pico: UartTransport, session: RecordingSession)
    requires f.Inv() && RunsCounted(f.runs) && pico.TxValid() && Carry(pico.accepted, f.wire.accepted)
    requires session.Valid() && !session.transport.refused && session.transport.received <= pico.transmitted
    ensures Monotone(session.builder.captures + Records(session.transport.pending))
  {
    ConsumedWasRecorded(f, pico, session);
    Theorems.CapturesInOrder(f);
    f.WireFacts();
    PartIsMonotone(session.builder.captures + Records(session.transport.pending), f.physical.earlier
        + f.physical.recorded);
  }

  /** Main theorem of the record path: a recording that Zero saves holds captures the firmware recorded from the
      keyboard, in order and none twice; if no frame was dropped, no receive failed and everything was read, it holds
      what the session began with and exactly the captures since, each at its capture time relative to the first. */
  lemma {:induction false} KeyboardToRecording(f: Firmware, pico: UartTransport, session: RecordingSession,
      saved: Recording)
    requires f.Inv() && RunsCounted(f.runs) && pico.TxValid() && Carry(pico.accepted, f.wire.accepted)
    requires session.Valid() && session.mark <= |session.transport.arrived| && session.transport.pending == []
    requires Represents(saved, session.builder.captures) && session.Account(session.builder.captures)
    requires !session.transport.refused && session.transport.received <= pico.transmitted
    ensures Subsequence(session.builder.captures, f.physical.earlier + f.physical.recorded)
    ensures !session.broken && f.wire.accepted == f.wire.offered && pico.Tx() == []
              && session.transport.received == pico.transmitted ==>
              session.mark <= |f.wire.offered|
              && PlaysBack(saved, Before(session) + DigestOf(f.wire.offered[session.mark..]).records)
  {
    ConsumedWasRecorded(f, pico, session);
    assert session.builder.captures + [] == session.builder.captures;
    OfferedFits(f);
    CarryIsFrames(pico.accepted, f.wire.accepted);
    hide Fits, FrameOf, Subsequence, Firmware.Inv, Represents, PlaysBack;
    RecordsReachZero(pico, session.transport, f.wire.accepted);
    SavedAsCaptured(pico, session, f.wire.accepted, saved);
    var n := |session.transport.arrived|;
    if n == |f.wire.accepted| {
      assert f.wire.accepted[session.mark..n] == f.wire.accepted[session.mark..];
    }
  }

  /** Stopping misses nothing: if PASS was acknowledged at position `p` of what the firmware offered, RECORD was not
      named again after it, and no earlier PASS acknowledgement was accepted since the session started, then the
      recording holds every capture accepted since the start, as soon as an acknowledgement has arrived. */
  lemma {:induction false} StopMissesNothing(f: Firmware, pico: UartTransport, session: RecordingSession,
      saved: Recording, p: nat)
    requires f.Inv() && RunsCounted(f.runs) && pico.TxValid() && Carry(pico.accepted, f.wire.accepted)
    requires session.Valid() && session.mark <= |session.transport.arrived| && !session.broken
    requires Represents(saved, session.builder.captures) && session.Account(session.builder.captures)
    requires !session.transport.refused && session.transport.received <= pico.transmitted
    requires session.transport.Acknowledged(Pass, session.transport.Since(session.mark))
    requires p < |f.wire.offered| && f.wire.offered[p] == ModeChanged(Pass, Okay)
    requires forall j :: p < j < |f.wire.offered| ==> !Theorems.Names(f.wire.offered[j], Record)
    requires var k := |Kept(f.wire.room, f.wire.offered[..p])|;
             session.mark <= k <= |f.wire.accepted| && ModeChanged(Pass, Okay) !in f.wire.accepted[session.mark..k]
    ensures session.mark <= |f.wire.accepted|
    ensures PlaysBack(saved, Before(session) + DigestOf(f.wire.accepted[session.mark..]).records)
  {
    OfferedFits(f);
    f.WireFacts();
    Theorems.WellFormedTrace(f);
    CarryIsFrames(pico.accepted, f.wire.accepted);
    var k := |Kept(f.wire.room, f.wire.offered[..p])|;
    NoneKeptAfter(f.wire.room, f.wire.offered, p);
    hide Fits, FrameOf, Firmware.Inv, Kept, Represents, PlaysBack;
    AcknowledgedIsComplete(pico, session, f.wire.accepted, saved, k);
  }

  lemma {:induction false} NoneKeptAfter(room: nat -> bool, offered: seq<Message>, p: nat)
    requires DigestOf(offered).phase != Bad && p < |offered| && offered[p] == ModeChanged(Pass, Okay)
    requires forall j :: p < j < |offered| ==> !Theorems.Names(offered[j], Record)
    ensures var kept, k := Kept(room, offered), |Kept(room, offered[..p])|;
            k <= |kept| && forall i :: k <= i < |kept| ==> !kept[i].RecordEvent?
  {
    hide Kept, DigestOf;
    KeptSplit(room, offered, p);
    var kept, k := Kept(room, offered), |Kept(room, offered[..p])|;
    forall i | k <= i < |kept|
      ensures !kept[i].RecordEvent?
    {
      assert kept[k..][i - k] == kept[i];
      assert kept[i] in offered[p..];
      var j :| 0 <= j < |offered[p..]| && offered[p..][j] == kept[i];
      if j > 0 { Theorems.RecordsNeedRecord(offered, p, p + j); }
    }
  }
}
