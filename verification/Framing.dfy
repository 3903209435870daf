/** Version 2 UART frames: the codecs of pico/src/uart_protocol.c and zero/app/uart_protocol.py, which share one
    wire format. */
module Framing {
  import opened Bits
  import opened Crc16

  const MAGIC: byte := 0xA5
  const VERSION: byte := 2
  const MAX_PAYLOAD: nat := 64
  const HEADER_LEN: nat := 5

  const RECORD_EVENT: byte := 0x01
  const PICO_STATUS: byte := 0x02
  const BUFFER_STATUS: byte := 0x03
  const PLAY_READY: byte := 0x04
  const PLAY_STARTED: byte := 0x05
  const PLAY_FINISHED: byte := 0x06
  const PLAY_ABORTED: byte := 0x07
  const PLAY_UNDERRUN: byte := 0x08
  const ERROR: byte := 0x09
  const PONG: byte := 0x0A
  const MODE_CHANGED: byte := 0x0B
  const PLAY_METRICS: byte := 0x0C

  const QUEUE_CLEAR: byte := 0x80
  const QUEUE_EVENT: byte := 0x81
  const QUEUE_END: byte := 0x82
  const PLAY_START: byte := 0x83
  const PLAY_ABORT: byte := 0x84
  const STATUS_REQUEST: byte := 0x85
  const PING: byte := 0x86
  const MODE_SET: byte := 0x87

  datatype Frame = Frame(messageType: byte, payload: seq<byte>)

  predicate TypeKnown(t: byte) {
    || t == RECORD_EVENT || t == PICO_STATUS || t == BUFFER_STATUS || t == PLAY_READY || t == PLAY_STARTED
    || t == PLAY_FINISHED || t == PLAY_ABORTED || t == PLAY_UNDERRUN || t == ERROR || t == PONG
    || t == MODE_CHANGED || t == PLAY_METRICS || t == QUEUE_CLEAR || t == QUEUE_EVENT || t == QUEUE_END
    || t == PLAY_START || t == PLAY_ABORT || t == STATUS_REQUEST || t == PING || t == MODE_SET
  }

  predicate IsCommand(t: byte) {
    QUEUE_CLEAR <= t <= MODE_SET
  }

  /** PICO_TO_ZERO_TYPES. */
  predicate IsNotice(t: byte) {
    RECORD_EVENT <= t <= PLAY_METRICS
  }

  /** pico_uart_frame_payload_valid. */
  predicate FramePayloadValid(f: Frame) {
    TypeKnown(f.messageType) &&
    if f.messageType == MODE_SET then |f.payload| == 1
    else if f.messageType == QUEUE_EVENT then |f.payload| == 17 && f.payload[8] == 8
    else if f.messageType == PLAY_STARTED then |f.payload| == 8
    else if f.messageType == RECORD_EVENT then |f.payload| == 17 && f.payload[8] == 8
    else if f.messageType == MODE_CHANGED then |f.payload| == 2
    else if f.messageType == PICO_STATUS || f.messageType == BUFFER_STATUS then |f.payload| == 5
    else if f.messageType == PLAY_UNDERRUN then |f.payload| == 10
    else if f.messageType == PLAY_METRICS then |f.payload| == 33
    else |f.payload| == 0
  }

  /** pico_payload_is_valid, applied by Zero to the types it accepts. */
  predicate PicoPayloadValid(f: Frame) {
    if f.messageType == RECORD_EVENT then |f.payload| == 17 && f.payload[8] == 8
    else if f.messageType == PICO_STATUS || f.messageType == BUFFER_STATUS then |f.payload| == 5
    else if f.messageType == PLAY_STARTED then |f.payload| == 8
    else if f.messageType == PLAY_UNDERRUN then |f.payload| == 10
    else if f.messageType == MODE_CHANGED then |f.payload| == 2
    else if f.messageType == PLAY_METRICS then |f.payload| == 33
    else |f.payload| == 0
  }

  /** What the Pico accepts as a command, and what Zero accepts as a notice. */
  predicate ValidCommand(f: Frame) {
    IsCommand(f.messageType) && FramePayloadValid(f)
  }

  predicate ValidNotice(f: Frame) {
    IsNotice(f.messageType) && PicoPayloadValid(f)
  }

  /** The two ends agree on payloads: every known type travels in exactly one direction, and the frames Zero
      accepts are the well-formed known frames that are not commands. */
  lemma {:induction false} TablesAgree(f: Frame)
    ensures TypeKnown(f.messageType) <==> IsCommand(f.messageType) || IsNotice(f.messageType)
    ensures !(IsCommand(f.messageType) && IsNotice(f.messageType))
    ensures ValidNotice(f) <==> FramePayloadValid(f) && !IsCommand(f.messageType)
    ensures ValidNotice(f) || ValidCommand(f) ==> |f.payload| <= MAX_PAYLOAD
  {
  }

  // ---- encoding ----

  predicate Encodable(f: Frame) {
    |f.payload| <= MAX_PAYLOAD
  }

  function LowByte(w: nat): byte {
    w % 256
  }

  function HighByte(w: word): byte {
    w / 256
  }

  function LittleEndian(low: nat, high: nat): nat {
    low + 256 * high
  }

  lemma {:induction false} WordBytes(w: word, low: byte, high: byte)
    ensures LittleEndian(LowByte(w), HighByte(w)) == w
    ensures LittleEndian(low, high) == w <==> low == LowByte(w) && high == HighByte(w)
  {
  }

  /** The bytes the CRC covers. */
  function Covered(f: Frame): (c: seq<byte>)
    requires Encodable(f)
    ensures |c| == 4 + |f.payload|
  {
    [VERSION, f.messageType, LowByte(|f.payload|), HighByte(|f.payload|)] + f.payload
  }

  function Trailer(crc: word): (t: seq<byte>)
    ensures |t| == 2
  {
    [LowByte(crc), HighByte(crc)]
  }

  function Encoded(f: Frame): (e: seq<byte>)
    requires Encodable(f)
    ensures |e| == 7 + |f.payload|
  {
    [MAGIC] + Covered(f) + Trailer(Crc(Covered(f)))
  }

  /** pico_uart_encode_frame: nothing is written unless the whole frame fits. */
  method EncodeFrame(f: Frame, out: array<byte>) returns (length: nat)
    modifies out
    ensures length == if Encodable(f) && out.Length >= 7 + |f.payload|
              && TypeKnown(f.messageType) then 7 + |f.payload| else 0
    ensures length != 0 ==> out[..length] == Encoded(f)
    ensures forall i :: length <= i < out.Length ==> out[i] == old(out[i])
  {
    var n := |f.payload|;
    var total := HEADER_LEN + n + 2;
    if n > MAX_PAYLOAD || out.Length < total || !TypeKnown(f.messageType) {
      return 0;
    }
    hide LowByte, HighByte, Crc, TypeKnown;
    out[0], out[1], out[2] := MAGIC, VERSION, f.messageType;
    out[3], out[4] := LowByte(n), HighByte(n);
    CopyPayload(f.payload, out);
    HeaderCovers(f, out[..5 + n]);
    assert out[1..5 + n] == out[..5 + n][1..];
    var crc := ComputeCrc(out[1..5 + n]);
    out[5 + n], out[6 + n] := LowByte(crc), HighByte(crc);
    assert out[..total] == out[..5 + n] + Trailer(crc);
    length := total;
  }

  lemma {:induction false} HeaderCovers(f: Frame, s: seq<byte>)
    requires Encodable(f) && |s| == 5 + |f.payload| && s[5..] == f.payload
    requires s[0] == MAGIC && s[1] == VERSION && s[2] == f.messageType
    requires s[3] == LowByte(|f.payload|) && s[4] == HighByte(|f.payload|)
    ensures s[1..] == Covered(f) && s == [MAGIC] + Covered(f)
  {
    hide LowByte, HighByte;
    assert s == s[..5] + s[5..];
  }

  /** The memcpy of the payload behind the header. */
  method CopyPayload(payload: seq<byte>, out: array<byte>)
    requires out.Length >= HEADER_LEN + |payload|
    modifies out
    ensures out[HEADER_LEN..HEADER_LEN + |payload|] == payload
    ensures forall i :: 0 <= i < out.Length && !(HEADER_LEN <= i < HEADER_LEN + |payload|) ==> out[i] == old(out[i])
  {
    for i := 0 to |payload|
      invariant forall k :: 0 <= k < i ==> out[HEADER_LEN + k] == payload[k]
      invariant forall k :: 0 <= k < out.Length && !(HEADER_LEN <= k < HEADER_LEN + |payload|) ==> out[k] == old(out[k])
    {
      out[HEADER_LEN + i] := payload[i];
    }
  }

  // ---- decoding ----

  datatype DecodeResult = Decoded(frame: Frame) | TooShort | BadMagic | BadVersion | BadLength | BadCrc

  function DeclaredLength(data: seq<byte>): nat
    requires |data| >= HEADER_LEN
  {
    LittleEndian(data[3], data[4])
  }

  /** pico_uart_decode_frame. */
  function Decode(data: seq<byte>): DecodeResult {
    if |data| < 7 then TooShort
    else if data[0] != MAGIC then BadMagic
    else if data[1] != VERSION then BadVersion
    else
      var n := DeclaredLength(data);
      if n > MAX_PAYLOAD || |data| != 7 + n then BadLength
      else if Crc(data[1..5 + n]) != LittleEndian(data[5 + n], data[6 + n]) then BadCrc
      else Decoded(Frame(data[2], data[5..5 + n]))
  }

  /** Decoding and encoding are inverse to each other: a byte string decodes to a frame if and only if it is that
      frame's encoding. */
  lemma {:induction false} DecodesIffEncoded(data: seq<byte>, f: Frame)
    ensures Decode(data) == Decoded(f) <==> Encodable(f) && data == Encoded(f)
  {
    if Encodable(f) && data == Encoded(f) { EncodedDecodes(f); }
    if Decode(data) == Decoded(f) { DecodedEncodes(data); }
  }

  lemma {:induction false} EncodedSlices(f: Frame)
    requires Encodable(f)
    ensures var e, n := Encoded(f), |f.payload|;
            && e[..5] == [MAGIC, VERSION, f.messageType, LowByte(n), HighByte(n)]
            && e[1..5 + n] == Covered(f) && e[5..5 + n] == f.payload && e[5 + n..] == Trailer(Crc(Covered(f)))
  {
    hide Crc, LowByte, HighByte, Trailer;
  }

  lemma {:induction false} EncodedParts(f: Frame)
    requires Encodable(f)
    ensures var e, n := Encoded(f), |f.payload|;
            && e[0] == MAGIC && e[1] == VERSION && e[2] == f.messageType && DeclaredLength(e) == n
            && e[1..5 + n] == Covered(f) && e[5..5 + n] == f.payload
            && LittleEndian(e[5 + n], e[6 + n]) == Crc(Covered(f))
  {
    var e, n := Encoded(f), |f.payload|;
    EncodedSlices(f);
    WordBytes(n, 0, 0);
    WordBytes(Crc(Covered(f)), 0, 0);
    hide Crc, Encoded, Covered, LowByte, HighByte, LittleEndian;
    assert e[0] == e[..5][0] && e[1] == e[..5][1] && e[2] == e[..5][2] && e[3] == e[..5][3] && e[4] == e[..5][4];
    assert e[5 + n] == e[5 + n..][0] && e[6 + n] == e[5 + n..][1];
  }

  lemma {:induction false} EncodedDecodes(f: Frame)
    requires Encodable(f)
    ensures Decode(Encoded(f)) == Decoded(f)
  {
    EncodedParts(f);
    hide Crc, LowByte, HighByte, Covered;
  }

  lemma {:induction false} DecodedEncodes(data: seq<byte>)
    requires Decode(data).Decoded?
    ensures Encodable(Decode(data).frame) && data == Encoded(Decode(data).frame)
  {
    hide Crc, LowByte, HighByte, LittleEndian;
    var f, n := Decode(data).frame, DeclaredLength(data);
    WordBytes(n, data[3], data[4]);
    assert data[1..5 + n] == Covered(f);
    var crc := Crc(Covered(f));
    WordBytes(crc, data[5 + n], data[6 + n]);
    assert data == [data[0]] + data[1..5 + n] + [data[5 + n], data[6 + n]];
  }

  /** No encoding is a prefix of another stream of frames: where one frame starts, exactly one frame is read. */
  lemma {:induction false} EncodedPrefixFree(f: Frame, x: seq<byte>, g: Frame, y: seq<byte>)
    requires Encodable(f) && Encodable(g) && Encoded(f) + x == Encoded(g) + y
    ensures f == g && x == y
  {
    var s := Encoded(f) + x;
    EncodedParts(f);
    EncodedParts(g);
    hide Encoded, Covered;
    assert s[3] == Encoded(f)[3] == Encoded(g)[3];
    assert s[4] == Encoded(f)[4] == Encoded(g)[4];
    assert |f.payload| == |g.payload|;
    assert s[..|Encoded(f)|] == Encoded(f) == Encoded(g);
    assert s[|Encoded(f)|..] == x == y;
    EncodedDecodes(f);
    EncodedDecodes(g);
  }

  // ---- altered frames ----

  lemma {:induction false} AlteredLength(data: seq<byte>, i: nat, b: byte)
    requires |data| >= 7 && 3 <= i <= 4 && b != data[i]
    ensures DeclaredLength(data[i := b]) != DeclaredLength(data)
  {
  }

  lemma {:induction false} AlteredTrailer(data: seq<byte>, i: nat, b: byte, n: nat)
    requires |data| == 7 + n && 5 + n <= i < |data| && b != data[i]
    ensures var a := data[i := b];
            LittleEndian(a[5 + n], a[6 + n]) != LittleEndian(data[5 + n], data[6 + n]) && a[1..5 + n] == data[1..5 + n]
  {
  }

  /** A change within the covered bytes, seen by the CRC. */
  lemma {:induction false} AlteredCovered(data: seq<byte>, i: nat, b: byte, n: nat)
    requires |data| == 7 + n && 1 <= i < 5 + n && b != data[i]
    ensures Crc(data[i := b][1..5 + n]) != Crc(data[1..5 + n])
  {
    hide Crc;
    var c := data[1..5 + n];
    assert data[i := b][1..5 + n] == c[..i - 1] + [b] + c[i..];
    assert c == c[..i - 1] + [c[i - 1]] + c[i..];
    DetectsOneByte(c[..i - 1], c[i - 1], b, c[i..]);
  }

  /** A frame altered in any one byte is never decoded. */
  lemma {:induction false} AlteredByteRejected(f: Frame, e: seq<byte>, i: nat, b: byte)
    requires Encodable(f) && e == Encoded(f) && i < |e| && b != e[i]
    ensures !Decode(e[i := b]).Decoded?
  {
    var n := |f.payload|;
    EncodedParts(f);
    hide Crc, Encoded, Covered, LittleEndian;
    if i == 3 || i == 4 {
      AlteredLength(e, i, b);
    } else if 5 + n <= i {
      AlteredTrailer(e, i, b, n);
    } else if 1 < i {
      AlteredCovered(e, i, b, n);
    }
  }

  lemma {:induction false} AlteredPairCovered(data: seq<byte>, i: nat, a: byte, b: byte, n: nat)
    requires |data| == 7 + n && 1 <= i && i + 1 < 5 + n && (a != data[i] || b != data[i + 1])
    ensures Crc(data[i := a][i + 1 := b][1..5 + n]) != Crc(data[1..5 + n])
  {
    hide Crc;
    var c := data[1..5 + n];
    assert data[i := a][i + 1 := b][1..5 + n] == c[..i - 1] + [a, b] + c[i + 1..];
    assert c == c[..i - 1] + [c[i - 1], c[i]] + c[i + 1..];
    DetectsTwoAdjacentBytes(c[..i - 1], c[i - 1], c[i], a, b, c[i + 1..]);
  }

  /** A frame altered within two adjacent covered bytes is never decoded. */
  lemma {:induction false} AlteredPairRejected(f: Frame, e: seq<byte>, i: nat, a: byte, b: byte)
    requires Encodable(f) && e == Encoded(f) && 1 <= i && i + 1 < |e| - 2 && (a != e[i] || b != e[i + 1])
    ensures !Decode(e[i := a][i + 1 := b]).Decoded?
  {
    EncodedParts(f);
    hide Crc, Encoded, Covered, DeclaredLength;
    AlteredPairCovered(e, i, a, b, |f.payload|);
  }

  // ---- streams of frames ----

  predicate AllEncodable(frames: seq<Frame>) {
    forall f :: f in frames ==> Encodable(f)
  }

  function EncodeAll(frames: seq<Frame>): seq<byte>
    requires AllEncodable(frames)
  {
    if frames == [] then [] else Encoded(frames[0]) + EncodeAll(frames[1..])
  }

  lemma {:induction false} EncodeAllConcat(a: seq<Frame>, b: seq<Frame>)
    requires AllEncodable(a) && AllEncodable(b)
    ensures AllEncodable(a + b) && EncodeAll(a + b) == EncodeAll(a) + EncodeAll(b)
  {
    if a == [] {
      assert a + b == b;
    } else {
      assert (a + b)[1..] == a[1..] + b;
      EncodeAllConcat(a[1..], b);
    }
  }

  lemma {:induction false} EncodeAllOne(frames: seq<Frame>, f: Frame)
    requires AllEncodable(frames) && Encodable(f)
    ensures AllEncodable(frames + [f]) && EncodeAll(frames + [f]) == EncodeAll(frames) + Encoded(f)
  {
    EncodeAllConcat(frames, [f]);
    assert [f][1..] == [];
    assert EncodeAll([f]) == Encoded(f) + [];
  }

  // ---- frames found in a stream ----

  /** `f` stands in `bytes` as its encoding, from `m` on. */
  ghost predicate StandsAt(f: Frame, bytes: seq<byte>, m: nat) {
    Encodable(f) && m + |Encoded(f)| <= |bytes| && bytes[m..m + |Encoded(f)|] == Encoded(f)
  }

  /** The frames stand in `bytes` as their encodings, in order and at disjoint positions, whatever is between them. */
  ghost predicate Found(frames: seq<Frame>, bytes: seq<byte>)
    decreases |frames|
  {
    frames == [] ||
    exists m: nat :: StandsAt(frames[|frames| - 1], bytes, m) && Found(frames[..|frames| - 1], bytes[..m])
  }

  lemma {:induction false} FoundLast(frames: seq<Frame>, bytes: seq<byte>, m: nat)
    requires frames != [] && StandsAt(frames[|frames| - 1], bytes, m) && Found(frames[..|frames| - 1], bytes[..m])
    ensures Found(frames, bytes)
  {
  }

  lemma {:induction false} LastFound(frames: seq<Frame>, bytes: seq<byte>) returns (m: nat)
    requires frames != [] && Found(frames, bytes)
    ensures StandsAt(frames[|frames| - 1], bytes, m) && Found(frames[..|frames| - 1], bytes[..m])
  {
    m :| StandsAt(frames[|frames| - 1], bytes, m) && Found(frames[..|frames| - 1], bytes[..m]);
  }

  lemma {:induction false} StandsMore(f: Frame, bytes: seq<byte>, m: nat, more: seq<byte>)
    requires StandsAt(f, bytes, m)
    ensures StandsAt(f, bytes + more, m) && (bytes + more)[..m] == bytes[..m]
  {
    hide Encoded;
    assert (bytes + more)[m..m + |Encoded(f)|] == bytes[m..m + |Encoded(f)|];
  }

  lemma {:induction false} StandsBehind(f: Frame, front: seq<byte>, bytes: seq<byte>, m: nat)
    requires StandsAt(f, bytes, m)
    ensures StandsAt(f, front + bytes, |front| + m) && (front + bytes)[..|front| + m] == front + bytes[..m]
  {
    hide Encoded;
    assert (front + bytes)[|front| + m..|front| + m + |Encoded(f)|] == bytes[m..m + |Encoded(f)|];
  }

  /** Where they stand. */
  lemma {:induction false} FoundPositions(frames: seq<Frame>, bytes: seq<byte>) returns (starts: seq<nat>)
    requires Found(frames, bytes)
    ensures AllEncodable(frames) && |starts| == |frames|
    ensures forall i :: 0 <= i < |frames| ==>
              && starts[i] + |Encoded(frames[i])| <= |bytes|
              && bytes[starts[i]..starts[i] + |Encoded(frames[i])|] == Encoded(frames[i])
    ensures forall i :: 0 < i < |frames| ==> starts[i - 1] + |Encoded(frames[i - 1])| <= starts[i]
    decreases |frames|
  {
    hide Encoded, Found;
    if frames == [] {
      starts := [];
    } else {
      var k := |frames| - 1;
      var m := LastFound(frames, bytes);
      var before := FoundPositions(frames[..k], bytes[..m]);
      assert frames == frames[..k] + [frames[k]];
      starts := before + [m];
      forall i | 0 <= i < k
        ensures bytes[starts[i]..starts[i] + |Encoded(frames[i])|] == Encoded(frames[i])
      {
        assert bytes[starts[i]..starts[i] + |Encoded(frames[i])|]
            == bytes[..m][before[i]..before[i] + |Encoded(frames[i])|];
      }
    }
  }

  /** More bytes take nothing away. */
  lemma {:induction false} FoundMore(frames: seq<Frame>, bytes: seq<byte>, more: seq<byte>)
    requires Found(frames, bytes)
    ensures Found(frames, bytes + more)
  {
    if frames != [] {
      hide Found, StandsAt;
      var m := LastFound(frames, bytes);
      StandsMore(frames[|frames| - 1], bytes, m, more);
      FoundLast(frames, bytes + more, m);
    }
  }

  /** A frame whose encoding follows is found too. */
  lemma {:induction false} FoundNext(frames: seq<Frame>, bytes: seq<byte>, f: Frame)
    requires Found(frames, bytes) && Encodable(f)
    ensures Found(frames + [f], bytes + Encoded(f))
  {
    hide Found, Encoded;
    var all := bytes + Encoded(f);
    assert all[|bytes|..|bytes| + |Encoded(f)|] == Encoded(f);
    assert all[..|bytes|] == bytes && (frames + [f])[..|frames|] == frames;
    FoundLast(frames + [f], all, |bytes|);
  }

  lemma {:induction false} FoundConcat(a: seq<Frame>, x: seq<byte>, b: seq<Frame>, y: seq<byte>)
    requires Found(a, x) && Found(b, y)
    ensures Found(a + b, x + y)
    decreases |b|
  {
    hide Found, StandsAt;
    if b == [] {
      assert a + b == a;
      FoundMore(a, x, y);
    } else {
      var m := LastFound(b, y);
      FoundConcat(a, x, b[..|b| - 1], y[..m]);
      StandsBehind(b[|b| - 1], x, y, m);
      assert (a + b)[..|a + b| - 1] == a + b[..|b| - 1];
      FoundLast(a + b, x + y, |x| + m);
    }
  }

  ghost predicate AllNotices(frames: seq<Frame>) {
    forall f :: f in frames ==> ValidNotice(f)
  }
}
