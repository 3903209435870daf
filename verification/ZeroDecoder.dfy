/** Zero's resynchronising frame decoder (zero/app/uart_protocol.py): a scanner over whole byte strings, and the
    incremental class that must agree with it however the stream is cut into reads. */
module ZeroDecoder {
  import opened Bits
  import opened Crc16
  import opened Framing

  datatype Rejection = UnsupportedVersion | UnexpectedType | PayloadTooLong | CrcMismatch | InvalidPayload

  /** The constructor parameters of IncrementalDecoder. */
  datatype Rules = Rules(maxPayload: nat, acceptedTypes: set<byte>)

  const PICO_TO_ZERO_TYPES: set<byte> := {
    RECORD_EVENT, PICO_STATUS, BUFFER_STATUS, PLAY_READY, PLAY_STARTED, PLAY_FINISHED, PLAY_ABORTED, PLAY_UNDERRUN,
    ERROR, PONG, MODE_CHANGED, PLAY_METRICS
  }

  const DEFAULT: Rules := Rules(MAX_PAYLOAD, PICO_TO_ZERO_TYPES)

  datatype Candidate = Incomplete | Rejected(why: Rejection) | Accepted(frame: Frame)

  /** What stands at a magic byte. */
  function Examine(r: Rules, buffer: seq<byte>): (c: Candidate)
    requires buffer != []
    ensures c.Accepted? ==> 7 + |c.frame.payload| <= |buffer|
  {
    if |buffer| < HEADER_LEN then Incomplete
    else
      var n := DeclaredLength(buffer);
      if buffer[1] != VERSION then Rejected(UnsupportedVersion)
      else if buffer[2] !in r.acceptedTypes then Rejected(UnexpectedType)
      else if n > r.maxPayload then Rejected(PayloadTooLong)
      else if |buffer| < 7 + n then Incomplete
      else if LittleEndian(buffer[5 + n], buffer[6 + n]) != Crc(buffer[1..5 + n]) then Rejected(CrcMismatch)
      else if !PicoPayloadValid(Frame(buffer[2], buffer[5..5 + n])) then Rejected(InvalidPayload)
      else Accepted(Frame(buffer[2], buffer[5..5 + n]))
  }

  datatype Scanned = Scanned(frames: seq<Frame>, errors: seq<Rejection>, residual: seq<byte>)

  function Join(a: Scanned, b: Scanned): Scanned {
    Scanned(a.frames + b.frames, a.errors + b.errors, b.residual)
  }

  /** The whole stream, position by position: skip to a magic byte, then take a frame, drop the magic byte of a bad
      candidate, or keep an incomplete one. */
  function Scan(r: Rules, buffer: seq<byte>): Scanned
    decreases |buffer|
  {
    if buffer == [] then Scanned([], [], [])
    else if buffer[0] != MAGIC then Scan(r, buffer[1..])
    else match Examine(r, buffer)
      case Incomplete => Scanned([], [], buffer)
      case Rejected(why) => Join(Scanned([], [why], []), Scan(r, buffer[1..]))
      case Accepted(f) => Join(Scanned([f], [], []), Scan(r, buffer[7 + |f.payload|..]))
  }

  lemma {:induction false} JoinAssociates(a: Scanned, b: Scanned, c: Scanned)
    ensures Join(Join(a, b), c) == Join(a, Join(b, c))
  {
    assert a.frames + b.frames + c.frames == a.frames + (b.frames + c.frames);
    assert a.errors + b.errors + c.errors == a.errors + (b.errors + c.errors);
  }

  // ---- chunk invariance ----

  /** Bytes that arrive later never change a decision already taken. */
  lemma {:induction false} DecisionsStand(r: Rules, a: seq<byte>, b: seq<byte>)
    requires a != [] && !Examine(r, a).Incomplete?
    ensures Examine(r, a + b) == Examine(r, a)
  {
    hide Crc, PicoPayloadValid;
    var n := DeclaredLength(a);
    assert DeclaredLength(a + b) == n;
    if |a| >= 7 + n {
      assert (a + b)[1..5 + n] == a[1..5 + n] && (a + b)[5..5 + n] == a[5..5 + n];
    }
  }

  /** Cutting a stream anywhere and carrying the residual over gives the frames, errors and residual of the whole. */
  lemma {:induction false} ScanConcat(r: Rules, a: seq<byte>, b: seq<byte>)
    ensures Scan(r, a + b) == Join(Scan(r, a), Scan(r, Scan(r, a).residual + b))
    decreases |a|
  {
    hide Examine;
    if a == [] {
      assert a + b == b;
    } else if a[0] != MAGIC {
      assert (a + b)[1..] == a[1..] + b;
      ScanConcat(r, a[1..], b);
    } else {
      match Examine(r, a)
      case Incomplete =>
      case Rejected(why) =>
        DecisionsStand(r, a, b);
        assert (a + b)[1..] == a[1..] + b;
        ScanConcat(r, a[1..], b);
        JoinAssociates(Scanned([], [why], []), Scan(r, a[1..]), Scan(r, Scan(r, a).residual + b));
      case Accepted(f) =>
        DecisionsStand(r, a, b);
        var rest := a[7 + |f.payload|..];
        assert (a + b)[7 + |f.payload|..] == rest + b;
        ScanConcat(r, rest, b);
        JoinAssociates(Scanned([f], [], []), Scan(r, rest), Scan(r, Scan(r, a).residual + b));
    }
  }

  function Flatten(chunks: seq<seq<byte>>): seq<byte> {
    if chunks == [] then [] else Flatten(chunks[..|chunks| - 1]) + chunks[|chunks| - 1]
  }

  /** Feeding the decoder one chunk after another. */
  function ScanChunks(r: Rules, chunks: seq<seq<byte>>): Scanned {
    if chunks == [] then Scanned([], [], [])
    else
      var before := ScanChunks(r, chunks[..|chunks| - 1]);
      Join(before, Scan(r, before.residual + chunks[|chunks| - 1]))
  }

  /** Chunk invariance: any division of any byte stream gives the same frames, the same errors in the same order, and
      the same residual as feeding it whole. */
  lemma {:induction false} ChunkInvariance(r: Rules, chunks: seq<seq<byte>>)
    ensures ScanChunks(r, chunks) == Scan(r, Flatten(chunks))
  {
    if chunks != [] {
      var n := |chunks| - 1;
      ChunkInvariance(r, chunks[..n]);
      ScanConcat(r, Flatten(chunks[..n]), chunks[n]);
    }
  }

  /** What is kept between feeds is nothing, or an incomplete candidate shorter than the longest frame; scanning it
      again finds nothing new. */
  lemma {:induction false} ResidualIsCandidate(r: Rules, buffer: seq<byte>)
    ensures var rest := Scan(r, buffer).residual;
            && (rest == [] || rest[0] == MAGIC)
            && |rest| < 7 + r.maxPayload
            && Scan(r, rest) == Scanned([], [], rest)
    decreases |buffer|
  {
    if buffer != [] {
      if buffer[0] != MAGIC {
        ResidualIsCandidate(r, buffer[1..]);
      } else {
        match Examine(r, buffer)
        case Incomplete =>
        case Rejected(_) => ResidualIsCandidate(r, buffer[1..]);
        case Accepted(f) => ResidualIsCandidate(r, buffer[7 + |f.payload|..]);
      }
    }
  }

  lemma {:induction false} AcceptedIsNotice(buffer: seq<byte>)
    requires buffer != [] && Examine(DEFAULT, buffer).Accepted?
    ensures ValidNotice(Examine(DEFAULT, buffer).frame)
  {
    hide Crc, PicoPayloadValid;
  }

  /** Under the default rules only well-formed notices are ever delivered. */
  lemma {:induction false} FramesAreNotices(buffer: seq<byte>)
    ensures AllNotices(Scan(DEFAULT, buffer).frames)
    decreases |buffer|
  {
    hide Examine, ValidNotice;
    if buffer != [] {
      if buffer[0] != MAGIC {
        FramesAreNotices(buffer[1..]);
      } else {
        match Examine(DEFAULT, buffer)
        case Incomplete =>
        case Rejected(_) => FramesAreNotices(buffer[1..]);
        case Accepted(f) =>
          FramesAreNotices(buffer[7 + |f.payload|..]);
          AcceptedIsNotice(buffer);
      }
    }
  }

  // ---- what is delivered was encoded ----

  lemma {:induction false} DecodeChecksTrailer(data: seq<byte>, n: nat)
    requires |data| == 7 + n && n == DeclaredLength(data) <= MAX_PAYLOAD && data[0] == MAGIC && data[1] == VERSION
    ensures LittleEndian(data[5 + n], data[6 + n]) == Crc(data[1..5 + n])
            <==> Decode(data) == Decoded(Frame(data[2], data[5..5 + n]))
  {
    hide Crc, LittleEndian, DeclaredLength;
  }

  /** A candidate whose header, length and trailer check out is an encoding. */
  lemma {:induction false} CandidateEncodes(buffer: seq<byte>, n: nat)
    requires 7 + n <= |buffer| && n == DeclaredLength(buffer) <= MAX_PAYLOAD
    requires buffer[0] == MAGIC && buffer[1] == VERSION
    ensures LittleEndian(buffer[5 + n], buffer[6 + n]) == Crc(buffer[1..5 + n])
            <==> Encoded(Frame(buffer[2], buffer[5..5 + n])) <= buffer
  {
    var f, data := Frame(buffer[2], buffer[5..5 + n]), buffer[..7 + n];
    assert data[1..5 + n] == buffer[1..5 + n] && data[5..5 + n] == f.payload;
    DecodesIffEncoded(data, f);
    DecodeChecksTrailer(data, n);
    hide Crc, Encoded, LittleEndian, Decode;
    assert Encoded(f) <= buffer <==> data == Encoded(f);
  }

  /** A frame is accepted at a magic byte if and only if its encoding, correct CRC included, stands there and the rules
      admit its type, length and payload. */
  lemma {:induction false} AcceptedIffEncoded(r: Rules, buffer: seq<byte>, f: Frame)
    requires buffer != [] && buffer[0] == MAGIC && r.maxPayload <= MAX_PAYLOAD
    ensures Examine(r, buffer) == Accepted(f)
            <==> && Encodable(f) && Encoded(f) <= buffer
                 && f.messageType in r.acceptedTypes && |f.payload| <= r.maxPayload && PicoPayloadValid(f)
  {
    hide Crc, Encoded, LittleEndian, PicoPayloadValid;
    if Encodable(f) && Encoded(f) <= buffer { EncodedStands(buffer, f); }
    if |buffer| >= HEADER_LEN && buffer[1] == VERSION {
      var n := DeclaredLength(buffer);
      if n <= MAX_PAYLOAD && 7 + n <= |buffer| { CandidateEncodes(buffer, n); }
    }
  }

  lemma {:induction false} EncodedStands(buffer: seq<byte>, f: Frame)
    requires Encodable(f) && Encoded(f) <= buffer
    ensures var n := |f.payload|;
            && 7 + n <= |buffer| && buffer[1] == VERSION && buffer[2] == f.messageType && DeclaredLength(buffer) == n
            && buffer[5..5 + n] == f.payload
  {
    EncodedParts(f);
    hide Encoded, Crc, Covered;
    var n := |f.payload|;
    assert buffer[..7 + n] == Encoded(f);
    assert buffer[3] == buffer[..7 + n][3] && buffer[4] == buffer[..7 + n][4];
    assert buffer[5..5 + n] == buffer[..7 + n][5..5 + n];
  }

  /** Every frame delivered stood in the stream as its encoding, correct CRC included, in order and at disjoint
      positions, whatever else the stream holds. */
  lemma {:induction false} FramesWereEncoded(buffer: seq<byte>)
    ensures Found(Scan(DEFAULT, buffer).frames, buffer)
    decreases |buffer|
  {
    hide Examine, Found, Encoded;
    if buffer == [] {
      NothingFound(buffer);
    } else {
      NothingFound(buffer[..1]);
      assert buffer == buffer[..1] + buffer[1..];
      if buffer[0] != MAGIC {
        FramesWereEncoded(buffer[1..]);
        FoundAfter(Scan(DEFAULT, buffer[1..]).frames, buffer[..1], buffer[1..]);
      } else {
        match Examine(DEFAULT, buffer)
        case Incomplete => NothingFound(buffer);
        case Rejected(_) =>
          FramesWereEncoded(buffer[1..]);
          FoundAfter(Scan(DEFAULT, buffer[1..]).frames, buffer[..1], buffer[1..]);
          assert [] + Scan(DEFAULT, buffer[1..]).frames == Scan(DEFAULT, buffer[1..]).frames;
        case Accepted(f) =>
          AcceptedIffEncoded(DEFAULT, buffer, f);
          var n := 7 + |f.payload|;
          FramesWereEncoded(buffer[n..]);
          FirstFound(f);
          assert buffer == Encoded(f) + buffer[n..];
          FoundConcat([f], Encoded(f), Scan(DEFAULT, buffer[n..]).frames, buffer[n..]);
      }
    }
  }

  lemma {:induction false} NothingFound(bytes: seq<byte>)
    ensures Found([], bytes)
  {
  }

  lemma {:induction false} FoundAfter(frames: seq<Frame>, skipped: seq<byte>, bytes: seq<byte>)
    requires Found(frames, bytes)
    ensures Found(frames, skipped + bytes)
  {
    hide Found;
    NothingFound(skipped);
    FoundConcat([], skipped, frames, bytes);
    assert [] + frames == frames;
  }

  lemma {:induction false} FirstFound(f: Frame)
    requires Encodable(f)
    ensures Found([f], Encoded(f))
  {
    hide Encoded, Found;
    NothingFound([]);
    FoundNext([], [], f);
    assert [] + [f] == [f] && [] + Encoded(f) == Encoded(f);
  }

  /** What is accepted at the head of `bytes + rest` and is as long as `bytes` is what `bytes` decodes to. */
  lemma {:induction false} AcceptedDecodes(bytes: seq<byte>, rest: seq<byte>)
    requires bytes != [] && bytes[0] == MAGIC && Examine(DEFAULT, bytes + rest).Accepted?
    requires |bytes| == 7 + |Examine(DEFAULT, bytes + rest).frame.payload|
    ensures Decode(bytes).Decoded?
  {
    var f := Examine(DEFAULT, bytes + rest).frame;
    AcceptedIffEncoded(DEFAULT, bytes + rest, f);
    hide Examine, Encoded, Decode;
    assert (bytes + rest)[..|bytes|] == bytes;
    DecodesIffEncoded(bytes, f);
  }

  /** The frame accepted at the head of a stream has the type and the length the stream declares. */
  lemma {:induction false} AcceptedDeclares(buffer: seq<byte>)
    requires buffer != [] && buffer[0] == MAGIC && Examine(DEFAULT, buffer).Accepted?
    ensures var f := Examine(DEFAULT, buffer).frame;
            |buffer| >= HEADER_LEN && f.messageType == buffer[2] && |f.payload| == DeclaredLength(buffer)
    ensures PicoPayloadValid(Examine(DEFAULT, buffer).frame)
  {
    hide Crc, PicoPayloadValid, LittleEndian;
  }

  /** Each notice type has one payload length. */
  lemma {:induction false} OneLength(f: Frame, g: Frame)
    requires ValidNotice(f) && f.messageType == g.messageType && PicoPayloadValid(g)
    ensures |f.payload| == |g.payload|
  {
  }

  /** What is accepted where altered bytes stand, if it declares the length they had, is what they decode to. */
  lemma {:induction false} AcceptedAltered(n: nat, a: seq<byte>, rest: seq<byte>)
    requires |a| == 7 + n && DeclaredLength(a) == n && a[0] == MAGIC && !Decode(a).Decoded?
    ensures !Examine(DEFAULT, a + rest).Accepted?
  {
    hide Crc, Encoded, LittleEndian, Examine, Decode;
    if Examine(DEFAULT, a + rest).Accepted? {
      AcceptedDeclares(a + rest);
      DeclaredHere(a, rest);
      AcceptedDecodes(a, rest);
    }
  }

  lemma {:induction false} DeclaredHere(a: seq<byte>, rest: seq<byte>)
    requires |a| >= HEADER_LEN
    ensures (a + rest)[0] == a[0] && (a + rest)[2] == a[2] && DeclaredLength(a + rest) == DeclaredLength(a)
  {
  }

  /** Bytes that declare a length other than that of their type are not accepted. */
  lemma {:induction false} WrongLengthRejected(f: Frame, a: seq<byte>, rest: seq<byte>)
    requires ValidNotice(f) && |a| >= HEADER_LEN && a[0] == MAGIC && a[2] == f.messageType
    requires DeclaredLength(a) != |f.payload|
    ensures !Examine(DEFAULT, a + rest).Accepted?
  {
    hide LittleEndian, Examine, DeclaredLength, ValidNotice, PicoPayloadValid;
    if Examine(DEFAULT, a + rest).Accepted? {
      DeclaredHere(a, rest);
      AcceptedDeclares(a + rest);
      OneLength(f, Examine(DEFAULT, a + rest).frame);
    }
  }

  /** A notice altered in any one byte is not accepted where it stands, whatever follows it. */
  lemma {:induction false} AlteredNoticeRejected(f: Frame, e: seq<byte>, i: nat, x: byte, a: seq<byte>,
      rest: seq<byte>)
    requires ValidNotice(f) && Encodable(f) && e == Encoded(f) && i < |e| && x != e[i] && a == e[i := x]
    ensures a[0] == MAGIC ==> !Examine(DEFAULT, a + rest).Accepted?
  {
    hide Crc, Encoded, Covered, Examine, Decode, ValidNotice, LittleEndian;
    EncodedParts(f);
    if i == 3 || i == 4 {
      AlteredLength(e, i, x);
      hide DeclaredLength;
      if a[0] == MAGIC { WrongLengthRejected(f, a, rest); }
    } else {
      AlteredByteRejected(f, e, i, x);
      assert DeclaredLength(a) == DeclaredLength(e);
      hide DeclaredLength;
      if a[0] == MAGIC { AcceptedAltered(|f.payload|, a, rest); }
    }
  }

  /** Nor is one altered within two adjacent covered bytes, as long as it still declares its length; if it declares
      another one, AcceptedIffEncoded says what has to follow. */
  lemma {:induction false} AlteredPairNotAccepted(f: Frame, e: seq<byte>, i: nat, x: byte, y: byte, a: seq<byte>,
      rest: seq<byte>)
    requires Encodable(f) && e == Encoded(f) && 1 <= i && i + 1 < |e| - 2 && (x != e[i] || y != e[i + 1])
    requires a == e[i := x][i + 1 := y] && DeclaredLength(a) == |f.payload|
    ensures !Examine(DEFAULT, a + rest).Accepted?
  {
    EncodedParts(f);
    AlteredPairRejected(f, e, i, x, y);
    hide Crc, Encoded, Covered, LittleEndian, Examine, Decode, DeclaredLength;
    AcceptedAltered(|f.payload|, a, rest);
  }

  // ---- the class ----

  /** bytearray.find. */
  function FindMagic(buffer: seq<byte>): (at: int)
    ensures -1 <= at < |buffer|
    ensures at >= 0 ==> buffer[at] == MAGIC && MAGIC !in buffer[..at]
    ensures at < 0 ==> MAGIC !in buffer
  {
    if buffer == [] then -1
    else if buffer[0] == MAGIC then 0
    else
      var at := FindMagic(buffer[1..]);
      if at < 0 then -1 else assert buffer[..at + 1] == [buffer[0]] + buffer[1..][..at]; at + 1
  }

  /** Bytes before the first magic byte are dropped without an error. */
  lemma {:induction false} SkipGarbage(r: Rules, buffer: seq<byte>, at: nat)
    requires at <= |buffer| && MAGIC !in buffer[..at]
    ensures Scan(r, buffer) == Scan(r, buffer[at..])
    decreases at
  {
    if at == 0 {
      assert buffer[0..] == buffer;
    } else {
      assert buffer[0] == buffer[..at][0];
      assert forall b :: b in buffer[1..][..at - 1] ==> b in buffer[..at];
      SkipGarbage(r, buffer[1..], at - 1);
      assert buffer[1..][at - 1..] == buffer[at..];
    }
  }

  /** What was found so far, joined with a scan of what is left. */
  ghost predicate Pending(r: Rules, frames: seq<Frame>, rejected: seq<Rejection>, buffer: seq<byte>, whole: Scanned) {
    Join(Scanned(frames, rejected, []), Scan(r, buffer)) == whole
  }

  lemma {:induction false} PendingReject(r: Rules, frames: seq<Frame>, rejected: seq<Rejection>, buffer: seq<byte>,
      whole: Scanned, why: Rejection)
    requires Pending(r, frames, rejected, buffer, whole)
    requires buffer != [] && buffer[0] == MAGIC && Examine(r, buffer) == Rejected(why)
    ensures Pending(r, frames, rejected + [why], buffer[1..], whole)
  {
    hide Examine;
    JoinAssociates(Scanned(frames, rejected, []), Scanned([], [why], []), Scan(r, buffer[1..]));
    assert frames + [] == frames;
  }

  lemma {:induction false} PendingAccept(r: Rules, frames: seq<Frame>, rejected: seq<Rejection>, buffer: seq<byte>,
      whole: Scanned, f: Frame)
    requires Pending(r, frames, rejected, buffer, whole)
    requires buffer != [] && buffer[0] == MAGIC && Examine(r, buffer) == Accepted(f)
    ensures Pending(r, frames + [f], rejected, buffer[7 + |f.payload|..], whole)
  {
    hide Examine;
    JoinAssociates(Scanned(frames, rejected, []), Scanned([f], [], []), Scan(r, buffer[7 + |f.payload|..]));
    assert rejected + [] == rejected;
  }

  lemma {:induction false} PendingStart(r: Rules, buffer: seq<byte>)
    ensures Pending(r, [], [], buffer, Scan(r, buffer))
  {
    hide Scan;
    var s := Scan(r, buffer);
    assert [] + s.frames == s.frames && [] + s.errors == s.errors;
  }

  lemma {:induction false} PendingSkip(r: Rules, frames: seq<Frame>, rejected: seq<Rejection>, buffer: seq<byte>,
      whole: Scanned, at: nat)
    requires Pending(r, frames, rejected, buffer, whole) && at <= |buffer| && MAGIC !in buffer[..at]
    ensures Pending(r, frames, rejected, buffer[at..], whole)
  {
    SkipGarbage(r, buffer, at);
  }

  lemma {:induction false} PendingEnd(r: Rules, frames: seq<Frame>, rejected: seq<Rejection>, buffer: seq<byte>,
      whole: Scanned)
    requires Pending(r, frames, rejected, buffer, whole)
    requires buffer != [] ==> buffer[0] == MAGIC && Examine(r, buffer) == Incomplete
    ensures whole == Scanned(frames, rejected, buffer)
  {
    hide Examine;
    assert frames + [] == frames && rejected + [] == rejected;
  }

  class IncrementalDecoder {
    const rules: Rules
    var buffer: seq<byte>
    var errors: seq<Rejection>

    constructor (rules: Rules)
      ensures this.rules == rules && buffer == [] && errors == []
    {
      this.rules := rules;
      buffer, errors := [], [];
    }

    method PopErrors() returns (popped: seq<Rejection>)
      modifies `errors
      ensures popped == old(errors) && errors == []
    {
      popped, errors := errors, [];
    }

    /** _reject: note why, and drop only the magic byte. */
    method Reject(why: Rejection)
      requires buffer != []
      modifies `buffer, `errors
      ensures errors == old(errors) + [why] && buffer == old(buffer)[1..]
    {
      errors := errors + [why];
      buffer := buffer[1..];
    }

    method Feed(data: seq<byte>) returns (frames: seq<Frame>)
      modifies this
      ensures var s := Scan(rules, old(buffer) + data);
              frames == s.frames && errors == old(errors) + s.errors && buffer == s.residual
    {
      hide Crc, PicoPayloadValid, Scan, Pending;
      buffer := buffer + data;
      frames := [];
      ghost var whole := Scan(rules, buffer);
      ghost var rejected: seq<Rejection> := [];
      PendingStart(rules, buffer);
      while true
        invariant errors == old(errors) + rejected
        invariant Pending(rules, frames, rejected, buffer, whole)
        decreases |buffer|
      {
        var at := FindMagic(buffer);
        if at < 0 {
          PendingSkip(rules, frames, rejected, buffer, whole, |buffer|);
          assert buffer[|buffer|..] == [];
          buffer := [];
          PendingEnd(rules, frames, rejected, buffer, whole);
          break;
        }
        PendingSkip(rules, frames, rejected, buffer, whole, at);
        buffer := buffer[at..];
        if |buffer| < HEADER_LEN {
          PendingEnd(rules, frames, rejected, buffer, whole);
          break;
        }
        var n := LittleEndian(buffer[3], buffer[4]);
        if buffer[1] != VERSION {
          PendingReject(rules, frames, rejected, buffer, whole, UnsupportedVersion);
          Reject(UnsupportedVersion);
          rejected := rejected + [UnsupportedVersion];
          continue;
        }
        if buffer[2] !in rules.acceptedTypes {
          PendingReject(rules, frames, rejected, buffer, whole, UnexpectedType);
          Reject(UnexpectedType);
          rejected := rejected + [UnexpectedType];
          continue;
        }
        if n > rules.maxPayload {
          PendingReject(rules, frames, rejected, buffer, whole, PayloadTooLong);
          Reject(PayloadTooLong);
          rejected := rejected + [PayloadTooLong];
          continue;
        }
        if |buffer| < 7 + n {
          PendingEnd(rules, frames, rejected, buffer, whole);
          break;
        }
        var expected := ComputeCrc(buffer[1..5 + n]);
        if LittleEndian(buffer[5 + n], buffer[6 + n]) != expected {
          PendingReject(rules, frames, rejected, buffer, whole, CrcMismatch);
          Reject(CrcMismatch);
          rejected := rejected + [CrcMismatch];
          continue;
        }
        var f := Frame(buffer[2], buffer[5..5 + n]);
        if !PicoPayloadValid(f) {
          PendingReject(rules, frames, rejected, buffer, whole, InvalidPayload);
          Reject(InvalidPayload);
          rejected := rejected + [InvalidPayload];
          continue;
        }
        PendingAccept(rules, frames, rejected, buffer, whole, f);
        frames := frames + [f];
        buffer := buffer[7 + n..];
      }
    }
  }
}
