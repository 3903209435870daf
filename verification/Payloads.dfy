/** Frame payloads: the little-endian writers of pico/src/main.c against the struct formats Zero unpacks
    (zero/app/uart_protocol.py), and Zero's command encoders against the Pico's readers. */
module Payloads {
  import opened Bits
  import opened Framing
  import opened KeyboardCaptures
  import opened Lateness
  import opened Messages

  function Pow256(n: nat): (p: nat)
    ensures p > 0
  {
    if n == 0 then 1 else 256 * Pow256(n - 1)
  }

  lemma {:induction false} Pow256Values()
    ensures Pow256(1) == 0x100 && Pow256(2) == 0x1_0000 && Pow256(4) == 0x1_0000_0000
              && Pow256(8) == 0x1_0000_0000_0000_0000
  {
    assert Pow256(1) == 256 && Pow256(2) == 65536;
    assert Pow256(4) == 256 * Pow256(3) == 65536 * Pow256(2);
    assert Pow256(6) == 256 * Pow256(5) == 65536 * Pow256(4);
    assert Pow256(8) == 256 * Pow256(7) == 65536 * Pow256(6);
  }

  /** write_u32_le, write_u64_le: the low byte first, the rest shifted down; higher bytes are lost. */
  function Write(v: nat, n: nat): (s: seq<byte>)
    ensures |s| == n
    decreases n, v
  {
    if n == 0 then [] else [v % 256] + Write(v / 256, n - 1)
  }

  /** read_u64_le and struct.unpack of an unsigned field. */
  function Read(s: seq<byte>): nat {
    if s == [] then 0
    else
      var low: nat := s[0];
      low + 256 * Read(s[1..])
  }

  lemma {:induction false} ReadWrite(v: nat, n: nat)
    requires v < Pow256(n)
    ensures Read(Write(v, n)) == v
    decreases n
  {
    if n != 0 { ReadWrite(v / 256, n - 1); }
  }

  lemma {:induction false} ReadBound(s: seq<byte>)
    ensures Read(s) < Pow256(|s|)
  {
    if s != [] { ReadBound(s[1..]); }
  }

  lemma {:induction false} WriteRead(s: seq<byte>)
    ensures Write(Read(s), |s|) == s
  {
    if s != [] { WriteRead(s[1..]); }
  }

  /** The cast of a signed value to unsigned before it is written. */
  function WriteSigned(v: int, n: nat): (s: seq<byte>)
    requires v + Pow256(n) >= 0
    ensures |s| == n
  {
    Write(if v < 0 then v + Pow256(n) else v, n)
  }

  function ReadSigned(s: seq<byte>): int {
    if 2 * Read(s) < Pow256(|s|) then Read(s) else Read(s) - Pow256(|s|)
  }

  predicate FitsSigned(v: int, n: nat) {
    0 <= 2 * v + Pow256(n) < 2 * Pow256(n)
  }

  lemma {:induction false} ReadWriteSigned(v: int, n: nat)
    requires FitsSigned(v, n)
    ensures ReadSigned(WriteSigned(v, n)) == v
  {
    ReadWrite(if v < 0 then v + Pow256(n) else v, n);
  }

  // ---- modes and reasons ----

  function ModeByte(m: Mode): byte {
    match m
    case Pass => 0
    case Record => 1
    case Armed => 2
    case Playing => 3
    case Error => 4
  }

  function ModeOf(b: byte): (m: Mode)
    requires b <= 4
    ensures ModeByte(m) == b
  {
    if b == 0 then Pass else if b == 1 then Record else if b == 2 then Armed else if b == 3 then Playing else Mode.Error
  }

  function ReasonByte(r: Reason): byte {
    match r
    case Okay => 0
    case InvalidTransition => 1
    case InvalidTarget => 2
    case ProtocolError => 3
    case UartFault => 4
    case Aborted => 5
    case Underrun => 6
    case Finished => 7
  }

  function ReasonOf(b: byte): (r: Reason)
    requires b <= 7
    ensures ReasonByte(r) == b
  {
    if b == 0 then Okay else if b == 1 then InvalidTransition else if b == 2 then InvalidTarget
    else if b == 3 then ProtocolError else if b == 4 then UartFault else if b == 5 then Aborted
    else if b == 6 then Underrun else Finished
  }

  // ---- Pico to Zero ----

  /** The values fit the fields they are written to. */
  predicate Fits(m: Message) {
    FieldsFit(m) && (m.PlayMetrics? ==> FitsSigned(m.metrics.sum, 8))
  }

  /** The widths of the fields, in the arithmetic of Write and Read. */
  lemma {:induction false} FieldWidths(u16: uint16, u32: uint32, u64: uint64, i32: int32)
    ensures u16 < Pow256(2) && u32 < Pow256(4) && u64 < Pow256(8) && FitsSigned(i32, 4)
  {
    Pow256Values();
  }

  function ReadUint32(s: seq<byte>): (v: uint32)
    requires |s| == 4
    ensures v == Read(s)
  {
    Pow256Values();
    ReadBound(s);
    Read(s)
  }

  function ReadUint64(s: seq<byte>): (v: uint64)
    requires |s| == 8
    ensures v == Read(s)
  {
    Pow256Values();
    ReadBound(s);
    Read(s)
  }

  function ReadInt32(s: seq<byte>): (v: int32)
    requires |s| == 4
    ensures v == ReadSigned(s)
  {
    Pow256Values();
    ReadBound(s);
    ReadSigned(s)
  }

  function Flag(b: bool): byte {
    if b then 1 else 0
  }

  function MetricsBytes(x: Metrics): (s: seq<byte>)
    requires FitsSigned(x.sum, 8)
    ensures |s| == 33
  {
    FieldWidths(0, 0, 0, x.min);
    FieldWidths(0, 0, 0, x.max);
    FieldWidths(0, 0, 0, x.p95);
    FieldWidths(0, 0, 0, x.p99);
    Write(x.dispatched, 4) + Write(x.underruns, 4) + WriteSigned(x.min, 4) + WriteSigned(x.max, 4)
    + WriteSigned(x.sum, 8) + WriteSigned(x.p95, 4) + WriteSigned(x.p99, 4) + [Flag(x.truncated)]
  }

  /** The frame the firmware hands to the transport for each message. */
  function FrameOf(m: Message): Frame
    requires Fits(m)
  {
    match m
    case RecordEvent(e) => Frame(RECORD_EVENT, Write(e.timestamp, 8) + [8] + e.report)
    case PicoStatus(mode, faults) =>
      Frame(PICO_STATUS, [ModeByte(mode), Flag(faults[0]), Flag(faults[1]), Flag(faults[2]), Flag(faults[3])])
    case BufferStatus(mode, queued, free) => Frame(BUFFER_STATUS, [ModeByte(mode)] + Write(queued, 2) + Write(free, 2))
    case PlayReady => Frame(PLAY_READY, [])
    case PlayStarted(epoch) => Frame(PLAY_STARTED, Write(epoch, 8))
    case PlayFinished => Frame(PLAY_FINISHED, [])
    case PlayAborted => Frame(PLAY_ABORTED, [])
    case PlayUnderrun(elapsed, free) => Frame(PLAY_UNDERRUN, Write(elapsed, 8) + Write(free, 2))
    case Pong => Frame(PONG, [])
    case ModeChanged(mode, reason) => Frame(MODE_CHANGED, [ModeByte(mode), ReasonByte(reason)])
    case PlayMetrics(x) => Frame(PLAY_METRICS, MetricsBytes(x))
  }

  datatype Unpacked<T> = Valid(value: T) | Invalid

  function UnpackMetrics(p: seq<byte>): Unpacked<Message>
    requires |p| == 33
  {
    if p[32] > 1 then Invalid
    else Valid(PlayMetrics(Metrics(ReadUint32(p[..4]), ReadUint32(p[4..8]), ReadInt32(p[8..12]), ReadInt32(p[12..16]),
                                   ReadSigned(p[16..24]), ReadInt32(p[24..28]), ReadInt32(p[28..32]), p[32] == 1)))
  }

  /** Zero's validate_* functions, one for each message type it accepts; ERROR carries nothing and is refused by
      require_not_error before any of them. */
  function Unpack(f: Frame): Unpacked<Message>
    requires ValidNotice(f)
  {
    var t, p := f.messageType, f.payload;
    if t == RECORD_EVENT then Valid(RecordEvent(Captured(ReadUint64(p[..8]), p[9..])))
    else if t == PICO_STATUS then
      if p[0] > 4 || p[1] > 1 || p[2] > 1 || p[3] > 1 || p[4] > 1 then Invalid
      else Valid(PicoStatus(ModeOf(p[0]), [p[1] == 1, p[2] == 1, p[3] == 1, p[4] == 1]))
    else if t == BUFFER_STATUS then
      if p[0] > 4 then Invalid else Valid(BufferStatus(ModeOf(p[0]), Read(p[1..3]), Read(p[3..5])))
    else if t == PLAY_READY then Valid(PlayReady)
    else if t == PLAY_STARTED then Valid(PlayStarted(Read(p)))
    else if t == PLAY_FINISHED then Valid(PlayFinished)
    else if t == PLAY_ABORTED then Valid(PlayAborted)
    else if t == PLAY_UNDERRUN then Valid(PlayUnderrun(Read(p[..8]), Read(p[8..10])))
    else if t == PONG then Valid(Pong)
    else if t == MODE_CHANGED then
      if p[0] > 4 || p[1] > 7 then Invalid else Valid(ModeChanged(ModeOf(p[0]), ReasonOf(p[1])))
    else if t == PLAY_METRICS then UnpackMetrics(p)
    else Invalid
  }

  /** The field boundaries of PLAY_METRICS. */
  lemma {:induction false} Pieces(a: seq<byte>, b: seq<byte>, c: seq<byte>, d: seq<byte>, e: seq<byte>, g: seq<byte>,
      h: seq<byte>, last: byte)
    requires |a| == |b| == |c| == |d| == |g| == |h| == 4 && |e| == 8
    ensures var p := a + b + c + d + e + g + h + [last];
            && |p| == 33 && p[..4] == a && p[4..8] == b && p[8..12] == c && p[12..16] == d
            && p[16..24] == e && p[24..28] == g && p[28..32] == h && p[32] == last
  {
  }

  lemma {:induction false} MetricsUnpack(x: Metrics)
    requires FitsSigned(x.sum, 8)
    ensures UnpackMetrics(MetricsBytes(x)) == Valid(PlayMetrics(x))
  {
    var p := MetricsBytes(x);
    FieldWidths(0, x.dispatched, 0, x.min);
    FieldWidths(0, x.underruns, 0, x.max);
    FieldWidths(0, 0, 0, x.p95);
    FieldWidths(0, 0, 0, x.p99);
    ReadWrite(x.dispatched, 4);
    ReadWrite(x.underruns, 4);
    ReadWriteSigned(x.min, 4);
    ReadWriteSigned(x.max, 4);
    ReadWriteSigned(x.sum, 8);
    ReadWriteSigned(x.p95, 4);
    ReadWriteSigned(x.p99, 4);
    hide Write, WriteSigned, Read, ReadSigned, Pow256;
    Pieces(Write(x.dispatched, 4), Write(x.underruns, 4), WriteSigned(x.min, 4), WriteSigned(x.max, 4),
           WriteSigned(x.sum, 8), WriteSigned(x.p95, 4), WriteSigned(x.p99, 4), Flag(x.truncated));
  }

  lemma {:induction false} RecordUnpacks(m: Message)
    requires m.RecordEvent? && Fits(m)
    ensures ValidNotice(FrameOf(m)) && Unpack(FrameOf(m)) == Valid(m)
  {
    FieldWidths(0, 0, m.event.timestamp, 0);
    ReadWrite(m.event.timestamp, 8);
    hide Write, Read, Pow256;
    var p := FrameOf(m).payload;
    assert p[..8] == Write(m.event.timestamp, 8) && p[9..] == m.event.report && p[8] == 8;
  }

  lemma {:induction false} BufferUnpacks(m: Message)
    requires m.BufferStatus? && Fits(m)
    ensures ValidNotice(FrameOf(m)) && Unpack(FrameOf(m)) == Valid(m)
  {
    FieldWidths(m.queued, 0, 0, 0);
    FieldWidths(m.free, 0, 0, 0);
    ReadWrite(m.queued, 2);
    ReadWrite(m.free, 2);
    hide Write, Read, Pow256;
    var p := FrameOf(m).payload;
    assert p[1..3] == Write(m.queued, 2) && p[3..5] == Write(m.free, 2);
  }

  lemma {:induction false} UnderrunUnpacks(m: Message)
    requires m.PlayUnderrun? && Fits(m)
    ensures ValidNotice(FrameOf(m)) && Unpack(FrameOf(m)) == Valid(m)
  {
    FieldWidths(m.free, 0, m.elapsed, 0);
    ReadWrite(m.elapsed, 8);
    ReadWrite(m.free, 2);
    hide Write, Read, Pow256;
    var p := FrameOf(m).payload;
    assert p[..8] == Write(m.elapsed, 8) && p[8..10] == Write(m.free, 2);
  }

  lemma {:induction false} StatusUnpacks(m: Message)
    requires m.PicoStatus? && Fits(m)
    ensures ValidNotice(FrameOf(m)) && Unpack(FrameOf(m)) == Valid(m)
  {
    assert m.faults == [m.faults[0], m.faults[1], m.faults[2], m.faults[3]];
  }

  /** What the firmware packs, Zero accepts and unpacks to the same message. */
  lemma {:induction false} MessagesUnpack(m: Message)
    requires Fits(m)
    ensures ValidNotice(FrameOf(m)) && Unpack(FrameOf(m)) == Valid(m)
  {
    match m
    case RecordEvent(_) => RecordUnpacks(m);
    case PicoStatus(_, _) => StatusUnpacks(m);
    case BufferStatus(_, _, _) => BufferUnpacks(m);
    case PlayStarted(epoch) =>
      FieldWidths(0, 0, epoch, 0);
      ReadWrite(epoch, 8);
    case PlayUnderrun(_, _) => UnderrunUnpacks(m);
    case PlayMetrics(x) => MetricsUnpack(x);
    case _ =>
  }

  lemma {:induction false} WriteReadSigned(s: seq<byte>)
    ensures FitsSigned(ReadSigned(s), |s|) && WriteSigned(ReadSigned(s), |s|) == s
  {
    ReadBound(s);
    WriteRead(s);
  }

  lemma {:induction false} MetricsOnto(p: seq<byte>)
    requires |p| == 33 && UnpackMetrics(p).Valid?
    ensures Fits(UnpackMetrics(p).value) && FrameOf(UnpackMetrics(p).value) == Frame(PLAY_METRICS, p)
  {
    WriteRead(p[..4]);
    WriteRead(p[4..8]);
    WriteReadSigned(p[8..12]);
    WriteReadSigned(p[12..16]);
    WriteReadSigned(p[16..24]);
    WriteReadSigned(p[24..28]);
    WriteReadSigned(p[28..32]);
    hide Write, WriteSigned, Read, ReadSigned, FitsSigned;
    assert p == p[..4] + p[4..8] + p[8..12] + p[12..16] + p[16..24] + p[24..28] + p[28..32] + [p[32]];
  }

  /** Whatever Zero unpacks, the firmware can have packed. */
  lemma {:induction false} NoticesOnto(f: Frame)
    requires ValidNotice(f) && Unpack(f).Valid?
    ensures Fits(Unpack(f).value) && FrameOf(Unpack(f).value) == f
  {
    var t, p := f.messageType, f.payload;
    Pow256Values();
    hide Read, Write, Pow256, UnpackMetrics, MetricsBytes;
    if t == RECORD_EVENT {
      WriteRead(p[..8]);
      assert p == p[..8] + [8] + p[9..];
    } else if t == BUFFER_STATUS {
      ReadBound(p[1..3]);
      ReadBound(p[3..5]);
      WriteRead(p[1..3]);
      WriteRead(p[3..5]);
      assert p == [p[0]] + p[1..3] + p[3..5];
    } else if t == PLAY_STARTED {
      ReadBound(p);
      WriteRead(p);
    } else if t == PLAY_UNDERRUN {
      ReadBound(p[..8]);
      ReadBound(p[8..10]);
      WriteRead(p[..8]);
      WriteRead(p[8..10]);
      assert p == p[..8] + p[8..10];
    } else if t == PLAY_METRICS {
      MetricsOnto(p);
    } else if t == MODE_CHANGED {
      assert p == [p[0], p[1]];
    } else if t == PICO_STATUS {
      assert p == [p[0], p[1], p[2], p[3], p[4]];
    } else {
      assert p == [];
    }
  }

  /** A notice unpacks if and only if it is the frame of a message: unknown modes, reasons and flags, and ERROR, are all
      that is refused. */
  lemma {:induction false} UnpacksIffPacked(f: Frame)
    requires ValidNotice(f)
    ensures Unpack(f).Valid? <==> exists m :: Fits(m) && FrameOf(m) == f
  {
    if Unpack(f).Valid? { NoticesOnto(f); }
    hide Unpack, FrameOf, Fits, ValidNotice;
    if m :| Fits(m) && FrameOf(m) == f { MessagesUnpack(m); }
  }

  // ---- Zero to Pico ----

  datatype Encoding = Sendable(frame: Frame) | ProtocolFault

  /** encode_queue_event and the other encoders, set_mode's target check, and plain frames without payload. */
  function EncodeCommand(c: Command): Encoding {
    match c
    case SetMode(target) => if target <= 2 then Sendable(Frame(MODE_SET, [target])) else ProtocolFault
    case StartPlay => Sendable(Frame(PLAY_START, []))
    case AbortPlay => Sendable(Frame(PLAY_ABORT, []))
    case Ping => Sendable(Frame(PING, []))
    case StatusRequest => Sendable(Frame(STATUS_REQUEST, []))
    case ClearQueue => Sendable(Frame(QUEUE_CLEAR, []))
    case AddEvent(offset, report) =>
      if offset < Pow256(8) then Sendable(Frame(QUEUE_EVENT, Write(offset, 8) + [8] + report)) else ProtocolFault
    case EndQueue => Sendable(Frame(QUEUE_END, []))
  }

  /** dispatch_command: how main.c reads a command the transport has accepted. */
  function CommandOf(f: Frame): Command
    requires ValidCommand(f)
  {
    var t, p := f.messageType, f.payload;
    if t == MODE_SET then SetMode(p[0])
    else if t == PLAY_START then StartPlay
    else if t == PLAY_ABORT then AbortPlay
    else if t == PING then Ping
    else if t == STATUS_REQUEST then StatusRequest
    else if t == QUEUE_CLEAR then ClearQueue
    else if t == QUEUE_EVENT then AddEvent(Read(p[..8]), p[9..])
    else EndQueue
  }

  /** Whatever Zero encodes, the Pico's transport accepts and its main loop reads as the same command; and every
      offset a QUEUE_EVENT can carry is one Zero can encode. */
  lemma {:induction false} CommandsUnpack(c: Command)
    ensures EncodeCommand(c).Sendable? ==>
              ValidCommand(EncodeCommand(c).frame) && CommandOf(EncodeCommand(c).frame) == c
    ensures EncodeCommand(c).ProtocolFault? <==>
              (c.SetMode? && c.target > 2) || (c.AddEvent? && c.offset >= 0x1_0000_0000_0000_0000)
  {
    Pow256Values();
    if c.AddEvent? && c.offset < Pow256(8) {
      ReadWrite(c.offset, 8);
      hide Write, Read, Pow256;
      var p := EncodeCommand(c).frame.payload;
      assert p[..8] == Write(c.offset, 8) && p[9..] == c.report && p[8] == 8;
    }
  }

  /** Every command the Pico accepts, except a MODE_SET outside the public modes, is one Zero can send. */
  lemma {:induction false} CommandsOnto(f: Frame)
    requires ValidCommand(f) && (f.messageType == MODE_SET ==> f.payload[0] <= 2)
    ensures EncodeCommand(CommandOf(f)) == Sendable(f)
  {
    if f.messageType == QUEUE_EVENT {
      ReadBound(f.payload[..8]);
      WriteRead(f.payload[..8]);
      assert f.payload == f.payload[..8] + [8] + f.payload[9..];
    }
  }
}
