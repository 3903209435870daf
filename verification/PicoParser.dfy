/** The byte-at-a-time command parser of pico/src/uart_transport.c as a function of the bytes it has consumed, and
    exactly which byte streams it accepts without a fault. */
module PicoParser {
  import opened Bits
  import opened Framing

  /** The bytes of the frame being read, the commands accepted so far, and whether any fault was noted. */
  datatype Parse = Parse(buffer: seq<byte>, commands: seq<Frame>, faulty: bool)

  const START: Parse := Parse([], [], false)

  function Fault(p: Parse): Parse {
    Parse([], p.commands, true)
  }

  /** The first half of enqueue_command: a decoded frame must be a well-formed command. */
  function Deliver(p: Parse, f: Frame): Parse {
    if ValidCommand(f) then Parse([], p.commands + [f], p.faulty) else Fault(p)
  }

  /** The frame in the buffer once its header is there: too long, still incomplete, or ready to decode. */
  function Collect(p: Parse, data: seq<byte>): Parse
    requires |data| >= HEADER_LEN
  {
    if DeclaredLength(data) > MAX_PAYLOAD then Fault(p)
    else if |data| < 7 + DeclaredLength(data) then p.(buffer := data)
    else match Decode(data[..7 + DeclaredLength(data)])
      case Decoded(f) => Deliver(p, f)
      case _ => Fault(p)
  }

  /** One turn of the loop of pico_uart_transport_poll. */
  function Accept(p: Parse, b: byte): Parse {
    if p.buffer == [] && b != MAGIC then Fault(p)
    else
      var data := p.buffer + [b];
      if |data| == 2 && data[1] != VERSION then Fault(p)
      else if |data| < HEADER_LEN then p.(buffer := data)
      else Collect(p, data)
  }

  function ParseFrom(p: Parse, bytes: seq<byte>): Parse
    decreases bytes
  {
    if bytes == [] then p else ParseFrom(Accept(p, bytes[0]), bytes[1..])
  }

  /** Everything the parser has done after consuming `bytes`. */
  function Parsed(bytes: seq<byte>): Parse {
    ParseFrom(START, bytes)
  }

  lemma {:induction false} ParseConcat(p: Parse, a: seq<byte>, b: seq<byte>)
    ensures ParseFrom(p, a + b) == ParseFrom(ParseFrom(p, a), b)
    decreases a
  {
    if a == [] {
      assert a + b == b;
    } else {
      assert (a + b)[1..] == a[1..] + b;
      ParseConcat(Accept(p, a[0]), a[1..], b);
    }
  }

  lemma {:induction false} ParsedStep(bytes: seq<byte>, b: byte)
    ensures Parsed(bytes + [b]) == Accept(Parsed(bytes), b)
  {
    ParseConcat(START, bytes, [b]);
    assert [b][1..] == [];
  }

  /** A proper beginning of a frame, as far as the parser can tell. */
  predicate Partial(b: seq<byte>) {
    && (|b| >= 1 ==> b[0] == MAGIC)
    && (|b| >= 2 ==> b[1] == VERSION)
    && (|b| >= HEADER_LEN ==> DeclaredLength(b) <= MAX_PAYLOAD && |b| < 7 + DeclaredLength(b))
  }

  predicate AllCommands(frames: seq<Frame>) {
    forall f :: f in frames ==> ValidCommand(f)
  }

  lemma {:induction false} CommandsEncode(frames: seq<Frame>)
    requires AllCommands(frames)
    ensures AllEncodable(frames)
  {
    forall f | f in frames ensures Encodable(f) { TablesAgree(f); }
  }

  // ---- soundness ----

  /** The buffer always holds a proper beginning of a frame, so it never reaches the capacity of the parser array
      and the branch that guards against it is dead. */
  lemma {:induction false} BufferStaysPartial(p: Parse, b: byte)
    requires Partial(p.buffer)
    ensures Partial(Accept(p, b).buffer) && |p.buffer| < 7 + MAX_PAYLOAD
    ensures AllCommands(p.commands) ==> AllCommands(Accept(p, b).commands)
  {
    hide Decode;
  }

  /** A step without a fault either waits or completes the frame that the buffer began. */
  lemma {:induction false} AcceptCases(p: Parse, b: byte)
    requires Partial(p.buffer) && !Accept(p, b).faulty
    ensures var data := p.buffer + [b];
            !p.faulty &&
            (Accept(p, b) == p.(buffer := data)
             || (Decode(data).Decoded? && Accept(p, b) == Parse([], p.commands + [Decode(data).frame], false)))
  {
    hide Decode, ValidCommand;
    var data := p.buffer + [b];
    if |data| >= HEADER_LEN && |data| == 7 + DeclaredLength(data) {
      assert data[..7 + DeclaredLength(data)] == data;
    }
  }

  /** Without a fault a step loses nothing: the byte joins the buffer, or completes the frame the buffer began. */
  lemma {:induction false} AcceptSound(p: Parse, b: byte)
    requires Partial(p.buffer) && AllCommands(p.commands) && AllCommands(Accept(p, b).commands) && !Accept(p, b).faulty
    ensures !p.faulty && AllEncodable(p.commands) && AllEncodable(Accept(p, b).commands)
    ensures EncodeAll(Accept(p, b).commands) + Accept(p, b).buffer == EncodeAll(p.commands) + p.buffer + [b]
  {
    CommandsEncode(p.commands);
    CommandsEncode(Accept(p, b).commands);
    AcceptCases(p, b);
    hide Decode, Encoded, EncodeAll, Accept, Partial, AllCommands, AllEncodable;
    var p', data := Accept(p, b), p.buffer + [b];
    var before := EncodeAll(p.commands);
    assert before + data == before + p.buffer + [b];
    if p' != p.(buffer := data) {
      DecodesIffEncoded(data, Decode(data).frame);
      EncodeAllOne(p.commands, Decode(data).frame);
      assert EncodeAll(p'.commands) == before + data;
      assert before + data + [] == before + data;
    }
  }

  lemma {:induction false} ParseSound(bytes: seq<byte>)
    ensures Partial(Parsed(bytes).buffer) && AllCommands(Parsed(bytes).commands) && AllEncodable(Parsed(bytes).commands)
    ensures !Parsed(bytes).faulty ==> bytes == EncodeAll(Parsed(bytes).commands) + Parsed(bytes).buffer
  {
    if bytes != [] {
      var before, b := bytes[..|bytes| - 1], bytes[|bytes| - 1];
      assert bytes == before + [b];
      ParseSound(before);
      ParsedStep(before, b);
      hide Parsed, Accept, Partial, EncodeAll;
      BufferStaysPartial(Parsed(before), b);
      if !Parsed(bytes).faulty { AcceptSound(Parsed(before), b); }
      CommandsEncode(Parsed(bytes).commands);
    }
  }

  /** What has been consumed ends with the buffer, and the commands were found in what came before it. */
  ghost predicate FoundBehind(p: Parse, bytes: seq<byte>) {
    exists front: seq<byte> :: bytes == front + p.buffer && Found(p.commands, front)
  }

  /** One byte: the buffer begins anew, grows, or was the beginning of the encoding that is now complete. */
  lemma {:induction false} AcceptOutcomes(p: Parse, b: byte)
    requires Partial(p.buffer)
    ensures var p', data := Accept(p, b), p.buffer + [b];
            || (p'.commands == p.commands && (p'.buffer == [] || p'.buffer == data))
            || (p'.buffer == [] && Decode(data).Decoded? && p'.commands == p.commands + [Decode(data).frame])
  {
    hide Decode, ValidCommand;
    var data := p.buffer + [b];
    if |data| >= HEADER_LEN && |data| == 7 + DeclaredLength(data) {
      assert data[..7 + DeclaredLength(data)] == data;
    }
  }

  lemma {:induction false} AcceptFinds(p: Parse, bytes: seq<byte>, b: byte)
    requires Partial(p.buffer) && FoundBehind(p, bytes)
    ensures FoundBehind(Accept(p, b), bytes + [b])
  {
    AcceptOutcomes(p, b);
    hide Accept, Decode, Encoded, Found, Partial;
    var front: seq<byte> :| bytes == front + p.buffer && Found(p.commands, front);
    var p', data := Accept(p, b), p.buffer + [b];
    assert bytes + [b] == front + data == front + data + [];
    if p'.commands == p.commands {
      FoundMore(p.commands, front, data);
    } else {
      DecodesIffEncoded(data, Decode(data).frame);
      FoundNext(p.commands, front, Decode(data).frame);
    }
  }

  /** With or without faults: every command the parser delivers stood in the bytes as its encoding, correct CRC
      included, in order and at disjoint positions. */
  lemma {:induction false} CommandsWereEncoded(bytes: seq<byte>)
    ensures Found(Parsed(bytes).commands, bytes)
    ensures FoundBehind(Parsed(bytes), bytes)
  {
    hide Found;
    if bytes == [] {
      NothingFound();
    } else {
      var before, b := bytes[..|bytes| - 1], bytes[|bytes| - 1];
      assert bytes == before + [b];
      CommandsWereEncoded(before);
      ParsedStep(before, b);
      ParseSound(before);
      hide Parsed, Accept, Partial;
      AcceptFinds(Parsed(before), before, b);
      var p := Parsed(bytes);
      var front: seq<byte> :| bytes == front + p.buffer && Found(p.commands, front);
      FoundMore(p.commands, front, p.buffer);
    }
  }

  lemma {:induction false} NothingFound()
    ensures Found([], []) && FoundBehind(START, [])
  {
    assert [] == [] + START.buffer;
  }

  // ---- completeness ----

  /** A proper beginning of a frame is collected without a fault. */
  lemma {:induction false} PartialCollected(p: Parse, b: seq<byte>)
    requires Partial(b) && p.buffer == []
    ensures ParseFrom(p, b) == p.(buffer := b)
  {
    if b != [] {
      var n := |b| - 1;
      assert b == b[..n] + [b[n]];
      PartialCollected(p, b[..n]);
      ParseConcat(p, b[..n], [b[n]]);
      assert [b[n]][1..] == [];
    }
  }

  lemma {:induction false} PrefixPartial(f: Frame, n: nat)
    requires Encodable(f) && n < |Encoded(f)|
    ensures Partial(Encoded(f)[..n])
  {
    EncodedParts(f);
    hide Encoded;
  }

  lemma {:induction false} LastByteDelivers(p: Parse, b: byte, f: Frame)
    requires Encodable(f) && p.buffer + [b] == Encoded(f)
    ensures Accept(p, b) == Deliver(p, f)
  {
    var data := p.buffer + [b];
    EncodedParts(f);
    EncodedDecodes(f);
    hide Decode, Encoded, ValidCommand, Covered, Deliver;
    assert DeclaredLength(data) == |f.payload| && |data| == 7 + |f.payload|;
    assert data[..7 + DeclaredLength(data)] == data;
    assert p.buffer[0] == data[0];
  }

  /** The encoding of one command delivers exactly that command. */
  lemma {:induction false} CommandCollected(p: Parse, f: Frame)
    requires ValidCommand(f) && Encodable(f) && p.buffer == []
    ensures ParseFrom(p, Encoded(f)) == p.(commands := p.commands + [f])
  {
    var e, n := Encoded(f), |Encoded(f)| - 1;
    PrefixPartial(f, n);
    PartialCollected(p, e[..n]);
    assert e == e[..n] + [e[n]];
    LastByteDelivers(p.(buffer := e[..n]), e[n], f);
    hide Decode, Encoded, ValidCommand, Accept, Partial;
    ParseConcat(p, e[..n], [e[n]]);
    assert [e[n]][1..] == [];
  }

  /** A stream that ends anywhere inside a concatenation of well-formed commands causes no fault, and the commands
      delivered are those whose last byte has arrived. */
  lemma {:induction false} ParseComplete(p: Parse, frames: seq<Frame>, bytes: seq<byte>)
    requires AllCommands(frames) && AllEncodable(frames) && bytes <= EncodeAll(frames) && p.buffer == []
    ensures ParseFrom(p, bytes).faulty == p.faulty
    ensures p.commands <= ParseFrom(p, bytes).commands <= p.commands + frames
    ensures bytes == EncodeAll(frames) ==> ParseFrom(p, bytes) == p.(commands := p.commands + frames)
    decreases frames
  {
    hide Encoded, ValidCommand, Accept, Partial;
    if frames == [] {
      assert p.commands + frames == p.commands;
    } else {
      var f, later := frames[0], frames[1..];
      var e := Encoded(f);
      assert EncodeAll(frames) == e + EncodeAll(later);
      if |bytes| < |e| {
        assert bytes == e[..|bytes|];
        PrefixPartial(f, |bytes|);
        PartialCollected(p, bytes);
      } else {
        var rest := bytes[|e|..];
        assert bytes == e + rest && rest <= EncodeAll(later);
        CommandCollected(p, f);
        ParseConcat(p, e, rest);
        var p' := p.(commands := p.commands + [f]);
        ParseComplete(p', later, rest);
        assert p'.commands + later == p.commands + frames;
      }
    }
  }

  ghost predicate WellFormed(bytes: seq<byte>, frames: seq<Frame>, rest: seq<byte>) {
    AllCommands(frames) && AllEncodable(frames) && Partial(rest) && bytes == EncodeAll(frames) + rest
  }

  /** The parser notes a fault exactly when the bytes are not a concatenation of well-formed commands followed by a
      proper beginning of a frame. */
  lemma {:induction false} FaultFreeIffWellFormed(bytes: seq<byte>)
    ensures !Parsed(bytes).faulty <==> exists frames, rest :: WellFormed(bytes, frames, rest)
  {
    ParseSound(bytes);
    if !Parsed(bytes).faulty {
      assert WellFormed(bytes, Parsed(bytes).commands, Parsed(bytes).buffer);
    }
    if frames, rest :| WellFormed(bytes, frames, rest) {
      ParseComplete(START, frames, EncodeAll(frames));
      ParseConcat(START, EncodeAll(frames), rest);
      PartialCollected(ParseFrom(START, EncodeAll(frames)), rest);
    }
  }
}
