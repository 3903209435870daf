/** The two directions of the serial link from end to end: a transmit ring on one side, a parser on the other. */
module Links {
  import opened Bits
  import opened Crc16
  import opened Framing
  import opened PicoParser
  import opened UartTransports
  import opened ZeroDecoder
  import opened Messages
  import opened Payloads

  /** A whole notice at the head of the buffer is taken, whatever follows it. */
  lemma {:induction false} NoticeExamined(f: Frame, rest: seq<byte>)
    requires ValidNotice(f) && Encodable(f)
    ensures Examine(DEFAULT, Encoded(f) + rest) == Candidate.Accepted(f)
  {
    var e, n := Encoded(f), |f.payload|;
    EncodedParts(f);
    NoticeTypes(f.messageType);
    hide Encoded, Covered, Crc, PicoPayloadValid;
    var b := e + rest;
    assert b[..|e|] == e;
    assert b[1..5 + n] == e[1..5 + n] && b[5..5 + n] == e[5..5 + n];
    assert DeclaredLength(b) == DeclaredLength(e);
  }

  /** PICO_TO_ZERO_TYPES is the range of notice types. */
  lemma {:induction false} NoticeTypes(t: byte)
    ensures t in PICO_TO_ZERO_TYPES <==> IsNotice(t)
  {
  }

  /** A notice cut short is waited for, never rejected. */
  lemma {:induction false} NoticeAwaited(f: Frame, n: nat)
    requires ValidNotice(f) && Encodable(f) && 0 < n < |Encoded(f)|
    ensures Encoded(f)[..n][0] == MAGIC && Examine(DEFAULT, Encoded(f)[..n]) == Incomplete
  {
    EncodedParts(f);
    NoticeTypes(f.messageType);
    hide Encoded, Covered, Crc, PicoPayloadValid;
  }

  lemma {:induction false} Behind(bytes: seq<byte>, head: seq<byte>, tail: seq<byte>)
    requires bytes <= head + tail && |head| <= |bytes|
    ensures bytes == head + bytes[|head|..] && bytes[|head|..] <= tail
    ensures bytes == head + tail ==> bytes[|head|..] == tail
  {
  }

  lemma {:induction false} NoticeScanned(f: Frame, rest: seq<byte>)
    requires ValidNotice(f) && Encodable(f)
    ensures var s := Scan(DEFAULT, rest);
            Scan(DEFAULT, Encoded(f) + rest) == Scanned([f] + s.frames, s.errors, s.residual)
  {
    hide Examine, Encoded, ValidNotice, Encodable;
    var bytes := Encoded(f) + rest;
    NoticeExamined(f, rest);
    EncodedParts(f);
    assert bytes[0] == Encoded(f)[0] && bytes[|Encoded(f)|..] == rest;
  }

  lemma {:induction false} Short(bytes: seq<byte>, head: seq<byte>, tail: seq<byte>)
    requires bytes <= head + tail && |bytes| < |head|
    ensures bytes == head[..|bytes|] && bytes != head + tail
  {
  }

  /** A stream that ends anywhere inside a concatenation of notices decodes without an error to the notices that are
      complete. */
  lemma {:induction false} NoticesScan(frames: seq<Frame>, bytes: seq<byte>)
    requires AllNotices(frames) && AllEncodable(frames) && bytes <= EncodeAll(frames)
    ensures Scan(DEFAULT, bytes).errors == [] && Scan(DEFAULT, bytes).frames <= frames
    ensures bytes == EncodeAll(frames) ==> Scan(DEFAULT, bytes) == Scanned(frames, [], [])
  {
    hide Examine, Encoded, ValidNotice, Encodable;
    if bytes != [] {
      var f, later := frames[0], frames[1..];
      var e := Encoded(f);
      if |bytes| < |e| {
        Short(bytes, e, EncodeAll(later));
        NoticeAwaited(f, |bytes|);
      } else {
        var rest := bytes[|e|..];
        assert EncodeAll(frames) == e + EncodeAll(later);
        Behind(bytes, e, EncodeAll(later));
        NoticeScanned(f, rest);
        NoticesScan(later, rest);
        hide Scan, EncodeAll;
      }
    }
  }

  /** Pico to Zero: the bytes popped from the transmit ring, read in any chunks, decode without an error to a beginning
      of the frames the ring accepted, and to all of them once the ring is empty and everything has been read. */
  lemma {:induction false} PicoToZero(pico: UartTransport, chunks: seq<seq<byte>>)
    requires pico.TxValid() && AllNotices(pico.accepted) && Flatten(chunks) <= pico.transmitted
    ensures ScanChunks(DEFAULT, chunks).errors == []
    ensures ScanChunks(DEFAULT, chunks).frames <= pico.accepted
    ensures pico.Tx() == [] && Flatten(chunks) == pico.transmitted ==>
              ScanChunks(DEFAULT, chunks) == Scanned(pico.accepted, [], [])
  {
    pico.TransmittedInOrder();
    ChunkInvariance(DEFAULT, chunks);
    NoticesScan(pico.accepted, Flatten(chunks));
  }

  // ---- the same in terms of messages ----

  function Frames(messages: seq<Message>): (f: seq<Frame>)
    requires forall m :: m in messages ==> Fits(m)
    ensures |f| == |messages|
  {
    if messages == [] then [] else [FrameOf(messages[0])] + Frames(messages[1..])
  }

  function UnpackAll(frames: seq<Frame>): seq<Unpacked<Message>>
    requires forall f :: f in frames ==> ValidNotice(f)
  {
    if frames == [] then [] else [Unpack(frames[0])] + UnpackAll(frames[1..])
  }

  function Values(messages: seq<Message>): seq<Unpacked<Message>> {
    if messages == [] then [] else [Unpacked.Valid(messages[0])] + Values(messages[1..])
  }

  lemma {:induction false} FramesUnpack(messages: seq<Message>)
    requires forall m :: m in messages ==> Fits(m)
    ensures AllNotices(Frames(messages)) && UnpackAll(Frames(messages)) == Values(messages)
  {
    if messages != [] {
      MessagesUnpack(messages[0]);
      FramesUnpack(messages[1..]);
      hide FrameOf, Unpack, Fits, ValidNotice;
      assert Frames(messages)[1..] == Frames(messages[1..]);
    }
  }

  lemma {:induction false} FramesPrefix(messages: seq<Message>, n: nat)
    requires (forall m :: m in messages ==> Fits(m)) && n <= |messages|
    ensures Frames(messages[..n]) == Frames(messages)[..n]
  {
    if n > 0 {
      assert messages[..n][1..] == messages[1..][..n - 1];
      FramesPrefix(messages[1..], n - 1);
    }
  }

  lemma {:induction false} SliceTail<T>(s: seq<T>, m: nat, n: nat)
    requires 0 < m <= n <= |s|
    ensures s[1..][m - 1..n - 1] == s[m..n]
  {
  }

  lemma {:induction false} FramesSlice(messages: seq<Message>, m: nat, n: nat)
    requires (forall x :: x in messages ==> Fits(x)) && m <= n <= |messages|
    ensures Frames(messages[m..n]) == Frames(messages)[m..n]
  {
    hide Fits, FrameOf;
    if m == 0 {
      FramesPrefix(messages, n);
      assert messages[0..n] == messages[..n] && Frames(messages)[0..n] == Frames(messages)[..n];
    } else {
      FramesSlice(messages[1..], m - 1, n - 1);
      SliceTail(messages, m, n);
      SliceTail(Frames(messages), m, n);
      assert Frames(messages)[1..] == Frames(messages[1..]);
    }
  }

  lemma {:induction false} PrefixUnpacks(messages: seq<Message>, frames: seq<Frame>)
    requires (forall m :: m in messages ==> Fits(m)) && frames <= Frames(messages)
    ensures AllNotices(frames) && UnpackAll(frames) == Values(messages[..|frames|])
  {
    FramesPrefix(messages, |frames|);
    FramesUnpack(messages[..|frames|]);
    assert frames == Frames(messages[..|frames|]);
  }

  /** Whatever part of the transmitted bytes Zero has read, it unpacks to a beginning of the messages the firmware got
      into the transmit ring, and to all of them once the ring is empty and everything has been read. */
  lemma {:induction false} MessagesArrive(pico: UartTransport, messages: seq<Message>, chunks: seq<seq<byte>>)
    requires pico.TxValid() && (forall m :: m in messages ==> Fits(m)) && pico.accepted == Frames(messages)
    requires Flatten(chunks) <= pico.transmitted
    ensures ScanChunks(DEFAULT, chunks).errors == [] && AllNotices(ScanChunks(DEFAULT, chunks).frames)
    ensures |ScanChunks(DEFAULT, chunks).frames| <= |messages|
    ensures UnpackAll(ScanChunks(DEFAULT, chunks).frames) == Values(messages[..|ScanChunks(DEFAULT, chunks).frames|])
    ensures pico.Tx() == [] && Flatten(chunks) == pico.transmitted ==>
              UnpackAll(ScanChunks(DEFAULT, chunks).frames) == Values(messages)
  {
    hide Fits, FrameOf, Unpack, Values, UnpackAll, Scan, ScanChunks, Frames;
    FramesUnpack(messages);
    PicoToZero(pico, chunks);
    PrefixUnpacks(messages, ScanChunks(DEFAULT, chunks).frames);
    assert messages[..|messages|] == messages;
  }

  // ---- Zero to Pico ----

  function Written(commands: seq<Command>): (f: seq<Frame>)
    requires forall c :: c in commands ==> EncodeCommand(c).Sendable?
    ensures |f| == |commands| && AllEncodable(f)
  {
    if commands == [] then [] else [EncodeCommand(commands[0]).frame] + Written(commands[1..])
  }

  function ReadCommands(frames: seq<Frame>): seq<Command>
    requires AllCommands(frames)
  {
    if frames == [] then [] else [CommandOf(frames[0])] + ReadCommands(frames[1..])
  }

  lemma {:induction false} WrittenReads(commands: seq<Command>)
    requires forall c :: c in commands ==> EncodeCommand(c).Sendable?
    ensures AllCommands(Written(commands)) && ReadCommands(Written(commands)) == commands
  {
    if commands != [] {
      CommandsUnpack(commands[0]);
      WrittenReads(commands[1..]);
      hide EncodeCommand, CommandOf, ValidCommand;
      assert Written(commands)[1..] == Written(commands[1..]);
    }
  }

  /** Zero to Pico: when everything Zero wrote has arrived and been polled without a fault, the commands handed to the
      main loop and those still queued are the commands Zero sent; and a fault can only come from a full ring or from
      the line. */
  lemma {:induction false} ZeroToPico(pico: UartTransport, commands: seq<Command>)
    requires pico.Valid() && forall c :: c in commands ==> EncodeCommand(c).Sendable?
    requires pico.arrived == EncodeAll(Written(commands)) && pico.Rx() == []
    ensures pico.faultPending || pico.taken ==> pico.rxOverflowed || pico.commandsOverflowed || pico.hardwareFailed
    ensures !pico.faultPending && !pico.taken ==>
              AllCommands(pico.delivered + pico.Commands()) && ReadCommands(pico.delivered + pico.Commands())
                  == commands
  {
    WrittenReads(commands);
    hide EncodeAll, Written, ReadCommands, EncodeCommand;
    if pico.faultPending || pico.taken {
      pico.FaultHasCause(Written(commands));
    } else {
      pico.AllDelivered(Written(commands));
    }
  }
}
