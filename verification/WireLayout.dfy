/** Every byte on the wire at its position, as docs/protocol.md lays it out, in numbers and without the codecs' own
    readers and writers. */
module WireLayout {
  import opened Bits
  import opened Crc16
  import opened Framing
  import opened Lateness
  import opened Messages
  import opened Payloads
  import opened Rings

  /** Byte `i` of a little-endian field is the i-th digit of its value in base 256. */
  ghost predicate Field(v: nat, bytes: seq<byte>) {
    forall i :: 0 <= i < |bytes| ==> bytes[i] == v / Pow256(i) % 256
  }

  lemma {:induction false} WriteIsField(v: nat, n: nat)
    ensures Field(v, Write(v, n))
    decreases n
  {
    if n > 0 {
      WriteIsField(v / 256, n - 1);
      forall i | 0 < i < n
        ensures Write(v, n)[i] == v / Pow256(i) % 256
      {
        var b := Write(v / 256, n - 1)[i - 1];
        assert b == v / 256 / Pow256(i - 1) % 256;
        DivTwice(v, Pow256(i - 1));
        assert Pow256(i) == 256 * Pow256(i - 1);
      }
    }
  }

  lemma {:induction false} DivTwice(v: nat, b: nat)
    requires b > 0
    ensures v / 256 / b == v / (256 * b)
  {
    var x, r, s := v / 256 / b, v / 256 % b, v % 256;
    ghost var p := b * x;
    assert v / 256 == p + r && v == 256 * p + (256 * r + s);
    assert (256 * b) * x == 256 * p;
    DivModUnique(256 * b, x, 256 * r + s, v);
  }

  /** The frame around a payload: magic, version, type, length, payload, CRC of all but the magic byte. */
  lemma {:induction false} FrameBytes(f: Frame, e: seq<byte>)
    requires Encodable(f) && e == Encoded(f)
    ensures var n := |f.payload|;
            && |e| == 7 + n && e[0] == 0xA5 && e[1] == 2 && e[2] == f.messageType
            && Field(n, e[3..5]) && e[5..5 + n] == f.payload && Field(Crc(e[1..5 + n]), e[5 + n..])
  {
    EncodedSlices(f);
    var n := |f.payload|;
    hide Crc, Encoded, Covered;
    assert e[..5][0] == e[0] && e[..5][1] == e[1] && e[..5][2] == e[2];
    assert e[3..5] == e[..5][3..] == [LowByte(n), HighByte(n)];
    TwoBytes(n);
    TwoBytes(Crc(e[1..5 + n]));
  }

  lemma {:induction false} TwoBytes(w: word)
    ensures Field(w, [LowByte(w), HighByte(w)])
  {
    assert Pow256(0) == 1 && Pow256(1) == 256;
  }

  // ---- Pico to Zero ----

  function ModeCode(m: Mode): byte {
    if m == Pass then 0 else if m == Record then 1 else if m == Armed then 2 else if m == Playing then 3 else 4
  }

  /** The payloads of the fixed messages. */
  lemma {:induction false} ModeChangedBytes(m: Message)
    requires m.ModeChanged?
    ensures FrameOf(m).messageType == 0x0B && |FrameOf(m).payload| == 2
    ensures FrameOf(m).payload[0] == ModeCode(m.mode)
    ensures var r := FrameOf(m).payload[1];
            && (m.reason == Okay ==> r == 0) && (m.reason == InvalidTransition ==> r == 1)
            && (m.reason == InvalidTarget ==> r == 2) && (m.reason == ProtocolError ==> r == 3)
            && (m.reason == UartFault ==> r == 4) && (m.reason == Aborted ==> r == 5)
            && (m.reason == Underrun ==> r == 6) && (m.reason == Finished ==> r == 7)
  {
  }

  lemma {:induction false} EmptyNotices()
    ensures FrameOf(PlayReady) == Frame(0x04, []) && FrameOf(PlayFinished) == Frame(0x06, [])
    ensures FrameOf(PlayAborted) == Frame(0x07, []) && FrameOf(Pong) == Frame(0x0A, [])
  {
  }

  lemma {:induction false} StatusBytes(m: Message)
    requires m.PicoStatus? && Fits(m)
    ensures FrameOf(m).messageType == 0x02 && |FrameOf(m).payload| == 5 && FrameOf(m).payload[0] == ModeCode(m.mode)
    ensures forall i :: 0 <= i < 4 ==> FrameOf(m).payload[1 + i] == if m.faults[i] then 1 else 0
  {
  }

  /** RECORD_EVENT: timestamp, the length 8, the report. */
  lemma {:induction false} RecordBytes(m: Message)
    requires m.RecordEvent? && Fits(m)
    ensures var p := FrameOf(m).payload;
            && FrameOf(m).messageType == 0x01 && |p| == 17
            && Field(m.event.timestamp, p[..8]) && p[8] == 8 && p[9..] == m.event.report
  {
    WriteIsField(m.event.timestamp, 8);
    hide Write, Field;
    assert FrameOf(m).payload[..8] == Write(m.event.timestamp, 8);
  }

  /** BUFFER_STATUS: state, queued, free. */
  lemma {:induction false} BufferBytes(m: Message)
    requires m.BufferStatus? && Fits(m)
    ensures var p := FrameOf(m).payload;
            && FrameOf(m).messageType == 0x03 && |p| == 5
            && p[0] == ModeCode(m.mode) && Field(m.queued, p[1..3]) && Field(m.free, p[3..])
  {
    WriteIsField(m.queued, 2);
    WriteIsField(m.free, 2);
    hide Write, Field;
    assert FrameOf(m).payload[1..3] == Write(m.queued, 2) && FrameOf(m).payload[3..] == Write(m.free, 2);
  }

  lemma {:induction false} StartedBytes(m: Message)
    requires m.PlayStarted? && Fits(m)
    ensures FrameOf(m).messageType == 0x05 && |FrameOf(m).payload| == 8 && Field(m.epoch, FrameOf(m).payload)
  {
    WriteIsField(m.epoch, 8);
  }

  /** PLAY_UNDERRUN: elapsed, free. */
  lemma {:induction false} UnderrunBytes(m: Message)
    requires m.PlayUnderrun? && Fits(m)
    ensures var p := FrameOf(m).payload;
            FrameOf(m).messageType == 0x08 && |p| == 10 && Field(m.elapsed, p[..8]) && Field(m.free, p[8..])
  {
    WriteIsField(m.elapsed, 8);
    WriteIsField(m.free, 2);
    hide Write, Field;
    assert FrameOf(m).payload[..8] == Write(m.elapsed, 8) && FrameOf(m).payload[8..] == Write(m.free, 2);
  }

  /** A signed field holds its value in two's complement. */
  ghost predicate SignedField(v: int, bytes: seq<byte>) {
    (v >= 0 ==> Field(v, bytes)) && (v < 0 ==> v + Pow256(|bytes|) >= 0 && Field(v + Pow256(|bytes|), bytes))
  }

  lemma {:induction false} WriteIsSigned(v: int, n: nat)
    requires FitsSigned(v, n)
    ensures SignedField(v, WriteSigned(v, n))
  {
    WriteIsField(if v < 0 then v + Pow256(n) else v, n);
    hide Field, Write, Pow256;
  }

  /** PLAY_METRICS: dispatched, underruns, min, max, sum, p95, p99, truncated. */
  lemma {:induction false} MetricsLayout(x: Metrics)
    requires FitsSigned(x.sum, 8)
    ensures var p := FrameOf(PlayMetrics(x)).payload;
            && FrameOf(PlayMetrics(x)).messageType == 0x0C && |p| == 33
            && Field(x.dispatched, p[..4]) && Field(x.underruns, p[4..8])
            && SignedField(x.min, p[8..12]) && SignedField(x.max, p[12..16]) && SignedField(x.sum, p[16..24])
            && SignedField(x.p95, p[24..28]) && SignedField(x.p99, p[28..32]) && p[32] == if x.truncated then 1 else 0
  {
    FieldWidths(0, 0, 0, x.min);
    FieldWidths(0, 0, 0, x.max);
    FieldWidths(0, 0, 0, x.p95);
    FieldWidths(0, 0, 0, x.p99);
    WriteIsField(x.dispatched, 4);
    WriteIsField(x.underruns, 4);
    WriteIsSigned(x.min, 4);
    WriteIsSigned(x.max, 4);
    WriteIsSigned(x.sum, 8);
    WriteIsSigned(x.p95, 4);
    WriteIsSigned(x.p99, 4);
    hide Write, WriteSigned, Field, SignedField, Pow256;
    Pieces(Write(x.dispatched, 4), Write(x.underruns, 4), WriteSigned(x.min, 4), WriteSigned(x.max, 4),
           WriteSigned(x.sum, 8), WriteSigned(x.p95, 4), WriteSigned(x.p99, 4), Flag(x.truncated));
  }

  // ---- Zero to Pico ----

  /** The commands; QUEUE_EVENT carries offset, the length 8, the report. */
  lemma {:induction false} CommandBytes(c: Command)
    requires EncodeCommand(c).Sendable?
    ensures var f := EncodeCommand(c).frame;
            && (c.SetMode? ==> f.messageType == 0x87 && |f.payload| == 1 && f.payload[0] == c.target <= 2)
            && (c.ClearQueue? ==> f == Frame(0x80, [])) && (c.EndQueue? ==> f == Frame(0x82, []))
            && (c.StartPlay? ==> f == Frame(0x83, [])) && (c.AbortPlay? ==> f == Frame(0x84, []))
            && (c.StatusRequest? ==> f == Frame(0x85, [])) && (c.Ping? ==> f == Frame(0x86, []))
            && (c.AddEvent? ==>
                  && f.messageType == 0x81 && |f.payload| == 17
                  && Field(c.offset, f.payload[..8]) && f.payload[8] == 8 && f.payload[9..] == c.report)
  {
    if c.AddEvent? {
      WriteIsField(c.offset, 8);
      hide Write, Field, Pow256;
      assert EncodeCommand(c).frame.payload[..8] == Write(c.offset, 8);
    }
  }
}
