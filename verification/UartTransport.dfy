/** The three rings of pico/src/uart_transport.c: bytes received by the UART interrupt, commands decoded by the main
    loop, and bytes waiting to be transmitted. Every index is a free-running counter that wraps at its width. */
module UartTransports {
  import opened Bits
  import opened Rings
  import opened Framing
  import opened PicoParser
  import Messages

  const RX_CAPACITY: nat := 512
  const COMMAND_CAPACITY: nat := 8
  const TX_CAPACITY: nat := 2048
  const PARSER_CAPACITY: nat := HEADER_LEN + MAX_PAYLOAD + 2
  const UINT16: nat := 0x10000
  const UINT8: nat := 0x100

  type uint8 = c: int | 0 <= c < 0x100

  /** head - tail in the arithmetic of counters that wrap at `width`. */
  function Ahead(width: nat, head: nat, tail: nat): (n: nat)
    requires head < width && tail < width
    ensures n < width && (n == 0 <==> head == tail)
  {
    if head >= tail then head - tail else head - tail + width
  }

  function Next(width: nat, counter: nat): (n: nat)
    requires counter < width
    ensures n < width
  {
    if counter + 1 == width then 0 else counter + 1
  }

  /** Counters may wrap between the two ends of a ring: as the capacity divides the width, the head slot is the one
      just behind the window, and moving the tail moves the window by one slot. */
  lemma {:induction false} CountersAgree(width: nat, capacity: nat, rounds: nat, head: nat, tail: nat)
    requires 0 < capacity && width == capacity * rounds && head < width && tail < width
    ensures head % capacity == (tail + Ahead(width, head, tail)) % capacity
    ensures Next(width, tail) % capacity == (tail + 1) % capacity
  {
    WholeRounds(capacity, rounds, head);
    WholeRounds(capacity, rounds, 0);
  }

  lemma {:induction false} WholeRounds(capacity: nat, rounds: nat, a: nat)
    requires 0 < capacity
    ensures (a + capacity * rounds) % capacity == a % capacity
  {
    assert a + capacity * rounds == capacity * (a / capacity + rounds) + a % capacity;
    DivModUnique(capacity, a / capacity + rounds, a % capacity, a + capacity * rounds);
  }

  /** What an interrupt handler or the main loop may ask of the transport: a received byte, a line error, a poll while
      more bytes arrive, the next command, a frame to send, the next byte to transmit, the fault flag. */
  datatype Operation =
    | Byte(b: byte)
    | LineError
    | PollRing(coming: seq<byte>)
    | TakeCommand
    | Send(f: Frame)
    | Transmit
    | ReadFault

  /** Frames dropped from a list that was found leave the rest found. */
  lemma {:induction false} FoundPart(part: seq<Frame>, whole: seq<Frame>, bytes: seq<byte>)
    requires Messages.Subsequence(part, whole) && Found(whole, bytes)
    ensures Found(part, bytes)
    decreases |whole|
  {
    hide Found, StandsAt;
    if whole == [] {
      assert part == whole;
    } else {
      var front := whole[..|whole| - 1];
      var m := LastFound(whole, bytes);
      if Messages.Subsequence(part, front) {
        FoundPart(part, front, bytes[..m]);
        FoundMore(part, bytes[..m], bytes[m..]);
        assert bytes == bytes[..m] + bytes[m..];
      } else {
        FoundPart(part[..|part| - 1], front, bytes[..m]);
        FoundLast(part, bytes, m);
      }
    }
  }

  class UartTransport {
    const rxBytes: array<byte>
    var rxHead: uint16
    var rxTail: uint16
    const commands: array<Frame>
    var commandHead: uint8
    var commandTail: uint8
    const txBytes: array<byte>
    var txHead: uint16
    var txTail: uint16
    const parser: array<byte>
    var parserLen: nat
    var faultPending: bool

    /** Every byte the UART handed over, those of them that fitted the receive ring, and those the poll has read. */
    ghost var arrived: seq<byte>
    ghost var stored: seq<byte>
    ghost var consumed: seq<byte>
    /** What the parser has made of the consumed bytes, and the commands handed to the main loop. */
    ghost var parse: Parse
    ghost var delivered: seq<Frame>
    /** Why the fault flag was ever set, and whether the main loop ever took it. */
    ghost var rxOverflowed: bool
    ghost var hardwareFailed: bool
    ghost var commandsOverflowed: bool
    ghost var taken: bool
    /** Frames accepted for transmission, and the bytes transmitted. */
    ghost var accepted: seq<Frame>
    ghost var transmitted: seq<byte>

    // ---- receive ring ----

    ghost predicate RxValid()
      reads `rxHead, `rxTail, `stored, `consumed, rxBytes
    {
      && rxBytes.Length == RX_CAPACITY
      && Ahead(UINT16, rxHead, rxTail) <= RX_CAPACITY
      && stored == consumed + Rx()
    }

    ghost function Rx(): seq<byte>
      requires rxBytes.Length == RX_CAPACITY
      reads `rxHead, `rxTail, rxBytes
    {
      Window(rxBytes[..], rxTail, Ahead(UINT16, rxHead, rxTail))
    }

    ghost predicate FaultValid()
      reads `faultPending, `parse, `arrived, `stored, `rxOverflowed, `hardwareFailed, `commandsOverflowed, `taken
    {
      && (parse.faulty || rxOverflowed || hardwareFailed || commandsOverflowed <==> faultPending || taken)
      && (!rxOverflowed ==> arrived == stored) && Messages.Subsequence(stored, arrived)
    }

    /** pico_uart_transport_rx_push_isr. */
    method RxPushIsr(b: byte)
      requires RxValid() && FaultValid()
      modifies `rxHead, rxBytes, `faultPending, `arrived, `stored, `rxOverflowed
      ensures RxValid() && FaultValid()
      ensures arrived == old(arrived) + [b]
      ensures rxOverflowed == (old(rxOverflowed) || |old(Rx())| == RX_CAPACITY)
      ensures Rx() == if |old(Rx())| == RX_CAPACITY then old(Rx()) else old(Rx()) + [b]
    {
      hide Window;
      var head := rxHead;
      Messages.SubsequenceStep(stored, arrived, b, false);
      Messages.SubsequenceStep(stored, arrived, b, true);
      hide Messages.Subsequence;
      arrived := arrived + [b];
      if Ahead(UINT16, head, rxTail) >= RX_CAPACITY {
        rxOverflowed := true;
        faultPending := true;
        return;
      }
      CountersAgree(UINT16, RX_CAPACITY, 128, head, rxTail);
      WindowPush(rxBytes[..], rxTail, Ahead(UINT16, head, rxTail), b);
      ghost var before := rxBytes[..];
      rxBytes[head % RX_CAPACITY] := b;
      assert rxBytes[..] == before[head % RX_CAPACITY := b];
      rxHead := Next(UINT16, head);
      stored := stored + [b];
      assert old(consumed) + old(Rx()) + [b] == old(consumed) + (old(Rx()) + [b]);
    }

    method HardwareErrorIsr()
      requires FaultValid()
      modifies `faultPending, `hardwareFailed
      ensures FaultValid() && hardwareFailed && faultPending
    {
      faultPending := true;
      hardwareFailed := true;
    }

    /** Bytes may arrive between any two statements of the main loop: some of those still to come, in order, and
        possibly a line error. */
    method Interrupts(coming: seq<byte>) returns (rest: seq<byte>)
      requires RxValid() && FaultValid()
      modifies `rxHead, rxBytes, `faultPending, `arrived, `stored, `rxOverflowed, `hardwareFailed
      ensures RxValid() && FaultValid()
      ensures |rest| <= |coming| && arrived + rest == old(arrived) + coming
      ensures old(Rx()) <= Rx() && |Rx()| + |rest| <= |old(Rx())| + |coming|
    {
      hide Window, Messages.Subsequence;
      rest := coming;
      var more: bool := *;
      while more && rest != []
        invariant RxValid() && FaultValid()
        invariant |rest| <= |coming| && arrived + rest == old(arrived) + coming
        invariant old(Rx()) <= Rx() && |Rx()| + |rest| <= |old(Rx())| + |coming|
        decreases |rest|
      {
        assert rest == [rest[0]] + rest[1..];
        RxPushIsr(rest[0]);
        rest := rest[1..];
        more := *;
      }
      var lineError: bool := *;
      if lineError { HardwareErrorIsr(); }
    }

    /** The oldest byte of the ring, read and then released, with interrupts around both. */
    method TakeByte(coming: seq<byte>) returns (b: byte, rest: seq<byte>)
      requires RxValid() && FaultValid() && rxTail != rxHead
      modifies `rxHead, `rxTail, rxBytes, `faultPending, `arrived, `stored, `consumed, `rxOverflowed, `hardwareFailed
      ensures RxValid() && FaultValid()
      ensures consumed == old(consumed) + [b]
      ensures |rest| <= |coming| && arrived + rest == old(arrived) + coming
      ensures |Rx()| + |rest| < |old(Rx())| + |coming|
    {
      b := rxBytes[rxTail % RX_CAPACITY];
      assert b == Rx()[0];
      rest := Interrupts(coming);
      assert b == Rx()[0];
      ghost var before := Rx();
      CountersAgree(UINT16, RX_CAPACITY, 128, rxHead, rxTail);
      WindowAdvance(rxBytes[..], rxTail, Ahead(UINT16, rxHead, rxTail), Next(UINT16, rxTail));
      rxTail := Next(UINT16, rxTail);
      assert before == [b] + Rx();
      assert consumed + before == consumed + [b] + Rx();
      consumed := consumed + [b];
      rest := Interrupts(rest);
    }

    // ---- parser ----

    ghost predicate ParserValid()
      reads `parserLen, `parse, parser
    {
      && parser.Length == PARSER_CAPACITY && parserLen <= PARSER_CAPACITY
      && parser[..parserLen] == parse.buffer && Partial(parse.buffer) && AllCommands(parse.commands)
    }

    ghost function Commands(): seq<Frame>
      requires commands.Length == COMMAND_CAPACITY
      reads `commandHead, `commandTail, commands
    {
      Window(commands[..], commandTail, Ahead(UINT8, commandHead, commandTail))
    }

    ghost predicate CommandsValid()
      reads `commandHead, `commandTail, `parse, `delivered, `commandsOverflowed, commands
    {
      && commands.Length == COMMAND_CAPACITY
      && Ahead(UINT8, commandHead, commandTail) <= COMMAND_CAPACITY
      && AllCommands(delivered) && AllCommands(Commands())
      && (!commandsOverflowed ==> delivered + Commands() == parse.commands)
      && Messages.Subsequence(delivered + Commands(), parse.commands)
    }

    /** enqueue_command for a frame that has just been decoded. */
    method EnqueueCommand(f: Frame)
      requires CommandsValid() && FaultValid() && AllCommands(parse.commands)
      modifies `commandHead, commands, `faultPending, `parse, `commandsOverflowed
      ensures CommandsValid() && FaultValid()
      ensures parse == Deliver(old(parse), f) && parse.buffer == [] && AllCommands(parse.commands)
      ensures commandsOverflowed ==
                (old(commandsOverflowed) || (ValidCommand(f) && |old(Commands())| == COMMAND_CAPACITY))
    {
      hide Window;
      Messages.SubsequenceStep(delivered + Commands(), parse.commands, f, false);
      Messages.SubsequenceStep(delivered + Commands(), parse.commands, f, true);
      hide Messages.Subsequence;
      parse := Deliver(parse, f);
      if !IsCommand(f.messageType) || !FramePayloadValid(f) {
        faultPending := true;
        return;
      }
      if Ahead(UINT8, commandHead, commandTail) >= COMMAND_CAPACITY {
        commandsOverflowed := true;
        faultPending := true;
        return;
      }
      CountersAgree(UINT8, COMMAND_CAPACITY, 32, commandHead, commandTail);
      WindowPush(commands[..], commandTail, Ahead(UINT8, commandHead, commandTail), f);
      ghost var before := commands[..];
      commands[commandHead % COMMAND_CAPACITY] := f;
      assert commands[..] == before[commandHead % COMMAND_CAPACITY := f];
      commandHead := Next(UINT8, commandHead);
      assert Commands() == old(Commands()) + [f];
      assert delivered + (old(Commands()) + [f]) == delivered + old(Commands()) + [f];
    }

    /** A decode error empties the parser and latches the fault. */
    method NoteDecodeError()
      requires CommandsValid() && FaultValid() && parser.Length == PARSER_CAPACITY && AllCommands(parse.commands)
      modifies `parserLen, `faultPending, `parse
      ensures ParserValid() && CommandsValid() && FaultValid()
      ensures parse == Fault(old(parse))
    {
      parserLen := 0;
      faultPending := true;
      parse := Fault(parse);
    }

    /** The loop body of pico_uart_transport_poll for one byte. The source's test for a full parser array comes first;
        it can never hold. */
    method ParseByte(b: byte)
      requires ParserValid() && CommandsValid() && FaultValid()
      modifies `parserLen, parser, `commandHead, commands, `faultPending, `parse, `commandsOverflowed
      ensures ParserValid() && CommandsValid() && FaultValid()
      ensures parse == Accept(old(parse), b)
      ensures old(commandsOverflowed) ==> commandsOverflowed
    {
      BufferStaysPartial(parse, b);
      if parserLen == 0 && b != MAGIC {
        NoteDecodeError();
        return;
      }
      if parserLen >= PARSER_CAPACITY {
        assert false;
      }
      hide Decode, Partial, AllCommands, UartTransport.CommandsValid, UartTransport.FaultValid;
      ghost var data := parse.buffer + [b];
      parser[parserLen] := b;
      parserLen := parserLen + 1;
      assert parser[..parserLen] == data;
      if parserLen == 2 && parser[1] != VERSION {
        NoteDecodeError();
        return;
      }
      if parserLen < HEADER_LEN {
        KeepWaiting(data);
        return;
      }
      ParseBody(data);
    }

    /** The loop body from the point where the length field is complete. */
    method ParseBody(ghost data: seq<byte>)
      requires CommandsValid() && FaultValid() && AllCommands(parse.commands)
      requires parser.Length == PARSER_CAPACITY && HEADER_LEN <= parserLen <= PARSER_CAPACITY
                 && parser[..parserLen] == data
      requires Partial(Collect(parse, data).buffer) && parserLen <= 7 + DeclaredLength(data)
      modifies `parserLen, `commandHead, commands, `faultPending, `parse, `commandsOverflowed
      ensures ParserValid() && CommandsValid() && FaultValid()
      ensures parse == Collect(old(parse), data)
      ensures old(commandsOverflowed) ==> commandsOverflowed
    {
      assert data[3] == parser[3] && data[4] == parser[4];
      var n := LittleEndian(parser[3], parser[4]);
      assert n == DeclaredLength(data);
      hide Decode, DeclaredLength, LittleEndian, AllCommands, Deliver, Partial;
      hide UartTransport.ParserValid, UartTransport.CommandsValid, UartTransport.FaultValid;
      if n > MAX_PAYLOAD {
        NoteDecodeError();
        return;
      }
      if parserLen < 7 + n {
        KeepWaiting(data);
        return;
      }
      var result := Decode(parser[..7 + n]);
      assert parser[..7 + n] == data[..7 + n];
      if !result.Decoded? {
        NoteDecodeError();
      } else {
        CompleteFrame(result.frame);
      }
    }

    /** A decoded frame leaves the parser empty, whether or not it is accepted. */
    method CompleteFrame(f: Frame)
      requires CommandsValid() && FaultValid() && parser.Length == PARSER_CAPACITY && AllCommands(parse.commands)
      modifies `parserLen, `commandHead, commands, `faultPending, `parse, `commandsOverflowed
      ensures ParserValid() && CommandsValid() && FaultValid()
      ensures parse == Deliver(old(parse), f)
      ensures old(commandsOverflowed) ==> commandsOverflowed
    {
      hide AllCommands, Deliver, UartTransport.CommandsValid, UartTransport.FaultValid;
      EnqueueCommand(f);
      parserLen := 0;
    }

    /** The frame is not complete: only the specification's buffer moves. */
    ghost method KeepWaiting(data: seq<byte>)
      requires CommandsValid() && FaultValid() && AllCommands(parse.commands) && Partial(data)
      requires parser.Length == PARSER_CAPACITY && parserLen <= PARSER_CAPACITY && parser[..parserLen] == data
      modifies `parse
      ensures parse == old(parse).(buffer := data) && ParserValid() && CommandsValid() && FaultValid()
    {
      parse := parse.(buffer := data);
    }

    /** pico_uart_transport_poll, run while `coming` arrives: it drains the ring, whatever arrives meanwhile. */
    method Poll(coming: seq<byte>) returns (rest: seq<byte>)
      requires Valid()
      modifies this, rxBytes, parser, commands
      ensures Valid() && Rx() == []
      ensures |rest| <= |coming| && arrived + rest == old(arrived) + coming
      ensures old(consumed) <= consumed && delivered == old(delivered)
      ensures transmitted == old(transmitted) && accepted == old(accepted)
    {
      hide Accept, EncodeAll, Parsed, Partial, AllCommands, AllEncodable, Window;
      hide UartTransport.ParserValid, UartTransport.CommandsValid, UartTransport.FaultValid, UartTransport.TxValid;
      rest := Interrupts(coming);
      while rxTail != rxHead
        invariant Valid()
        invariant |rest| <= |coming| && arrived + rest == old(arrived) + coming
        invariant old(consumed) <= consumed && delivered == old(delivered)
        invariant transmitted == old(transmitted) && accepted == old(accepted)
        decreases |Rx()| + |rest|
      {
        ghost var before := consumed;
        var b: byte;
        b, rest := TakeByte(rest);
        ParsedStep(before, b);
        ParseByte(b);
        rest := Interrupts(rest);
      }
    }

    ghost predicate Valid()
      reads this, rxBytes, parser, commands, txBytes
    {
      && Distinct() && RxValid() && ParserValid() && CommandsValid() && FaultValid() && TxValid()
      && parse == Parsed(consumed)
    }

    ghost predicate Distinct() {
      rxBytes != txBytes && rxBytes != parser && txBytes != parser
    }

    // ---- transmit ring ----

    ghost function Tx(): seq<byte>
      requires txBytes.Length == TX_CAPACITY
      reads `txHead, `txTail, txBytes
    {
      Window(txBytes[..], txTail, Ahead(UINT16, txHead, txTail))
    }

    ghost predicate TxValid()
      reads `txHead, `txTail, `accepted, `transmitted, txBytes
    {
      && txBytes.Length == TX_CAPACITY
      && Ahead(UINT16, txHead, txTail) <= TX_CAPACITY
      && AllEncodable(accepted) && EncodeAll(accepted) == transmitted + Tx()
    }

    /** pico_uart_transport_queue_frame: the whole encoding is queued, or the frame is dropped and nothing changes. */
    method QueueFrame(f: Frame) returns (ok: bool)
      requires TxValid()
      modifies `txHead, txBytes, `accepted
      ensures TxValid()
      ensures ok == (Encodable(f) && TypeKnown(f.messageType) && |old(Tx())| + 7 + |f.payload| <= TX_CAPACITY)
      ensures accepted == if ok then old(accepted) + [f] else old(accepted)
      ensures Tx() == if ok then old(Tx()) + Encoded(f) else old(Tx())
    {
      hide EncodeAll, Encoded, TypeKnown, AllEncodable;
      var encoded := new byte[PARSER_CAPACITY];
      var length := EncodeFrame(f, encoded);
      if length == 0 || Ahead(UINT16, txHead, txTail) + length > TX_CAPACITY {
        return false;
      }
      for i := 0 to length
        invariant accepted == old(accepted)
        invariant Ahead(UINT16, txHead, txTail) == |old(Tx())| + i
        invariant Tx() == old(Tx()) + encoded[..i]
        invariant encoded[..length] == Encoded(f)
      {
        PushTx(encoded[i]);
        assert encoded[..i + 1] == encoded[..i] + [encoded[i]];
      }
      EncodeAllOne(accepted, f);
      accepted := accepted + [f];
      ok := true;
      assert transmitted + (old(Tx()) + Encoded(f)) == transmitted + old(Tx()) + Encoded(f);
    }

    method PushTx(b: byte)
      requires txBytes.Length == TX_CAPACITY && Ahead(UINT16, txHead, txTail) < TX_CAPACITY
      modifies `txHead, txBytes
      ensures Ahead(UINT16, txHead, txTail) == |old(Tx())| + 1
      ensures Tx() == old(Tx()) + [b]
    {
      CountersAgree(UINT16, TX_CAPACITY, 32, txHead, txTail);
      WindowPush(txBytes[..], txTail, Ahead(UINT16, txHead, txTail), b);
      ghost var before := txBytes[..];
      txBytes[txHead % TX_CAPACITY] := b;
      assert txBytes[..] == before[txHead % TX_CAPACITY := b];
      txHead := Next(UINT16, txHead);
    }

    /** pico_uart_transport_pop_tx_byte. */
    method PopTxByte() returns (ok: bool, b: byte)
      requires TxValid()
      modifies `txTail, `transmitted
      ensures TxValid()
      ensures ok == (old(Tx()) != [])
      ensures ok ==> old(Tx()) == [b] + Tx() && transmitted == old(transmitted) + [b]
      ensures !ok ==> Tx() == old(Tx()) && transmitted == old(transmitted)
    {
      hide EncodeAll, Encoded, AllEncodable;
      if txTail == txHead {
        return false, 0;
      }
      b := txBytes[txTail % TX_CAPACITY];
      CountersAgree(UINT16, TX_CAPACITY, 32, txHead, txTail);
      WindowAdvance(txBytes[..], txTail, Ahead(UINT16, txHead, txTail), Next(UINT16, txTail));
      txTail := Next(UINT16, txTail);
      assert transmitted + ([b] + Tx()) == transmitted + [b] + Tx();
      transmitted := transmitted + [b];
      ok := true;
    }

    // ---- the main loop's side ----

    /** pico_uart_transport_pop_command. */
    method PopCommand() returns (ok: bool, f: Frame)
      requires CommandsValid()
      modifies `commandTail, `delivered
      ensures CommandsValid()
      ensures ok == (old(Commands()) != [])
      ensures ok ==> old(Commands()) == [f] + Commands() && delivered == old(delivered) + [f] && ValidCommand(f)
      ensures !ok ==> Commands() == old(Commands()) && delivered == old(delivered)
    {
      hide Messages.Subsequence;
      if commandTail == commandHead {
        return false, Frame(0, []);
      }
      f := commands[commandTail % COMMAND_CAPACITY];
      CountersAgree(UINT8, COMMAND_CAPACITY, 32, commandHead, commandTail);
      WindowAdvance(commands[..], commandTail, Ahead(UINT8, commandHead, commandTail), Next(UINT8, commandTail));
      commandTail := Next(UINT8, commandTail);
      assert f in old(Commands());
      assert forall g :: g in Commands() ==> g in old(Commands());
      assert delivered + ([f] + Commands()) == delivered + [f] + Commands();
      delivered := delivered + [f];
      ok := true;
    }

    /** pico_uart_transport_take_fault: an atomic exchange, so no fault is ever lost. */
    method TakeFault() returns (fault: bool)
      requires FaultValid()
      modifies `faultPending, `taken
      ensures FaultValid() && !faultPending
      ensures fault == old(faultPending) && taken == (old(taken) || fault)
    {
      fault := faultPending;
      faultPending := false;
      taken := taken || fault;
    }

    constructor ()
      ensures Valid() && arrived == [] && delivered == [] && accepted == [] && transmitted == []
      ensures !faultPending && !taken
      ensures fresh(rxBytes) && fresh(txBytes) && fresh(commands) && fresh(parser)
    {
      rxBytes := new byte[RX_CAPACITY];
      commands := new Frame[COMMAND_CAPACITY];
      txBytes := new byte[TX_CAPACITY];
      parser := new byte[PARSER_CAPACITY];
      rxHead, rxTail, commandHead, commandTail, txHead, txTail, parserLen := 0, 0, 0, 0, 0, 0, 0;
      faultPending := false;
      arrived, stored, consumed, parse, delivered, accepted, transmitted := [], [], [], START, [], [], [];
      rxOverflowed, hardwareFailed, commandsOverflowed, taken := false, false, false, false;
    }

    lemma {:induction false} NothingTakenBack(before: seq<byte>, coming: seq<byte>, after: seq<byte>, rest: seq<byte>)
      requires after + rest == before + coming && |rest| <= |coming|
      ensures before <= after
    {
      assert (after + rest)[..|before|] == before;
    }

    /** One operation of the interrupt handlers or of the main loop. */
    method Perform(operation: Operation)
      requires Valid()
      modifies this, rxBytes, parser, commands, txBytes
      ensures Valid()
      ensures old(arrived) <= arrived && old(delivered) <= delivered && old(accepted) <= accepted
                && old(transmitted) <= transmitted
    {
      hide Window, Parsed, EncodeAll, AllEncodable, AllCommands, Partial, ValidCommand, Encoded, Encodable;
      hide TypeKnown, Ahead;
      hide UartTransport.ParserValid, UartTransport.CommandsValid, UartTransport.FaultValid, UartTransport.RxValid;
      hide UartTransport.TxValid, UartTransport.Tx, UartTransport.Rx, UartTransport.Commands;
      match operation {
        case Byte(b) => RxPushIsr(b);
        case LineError => HardwareErrorIsr();
        case PollRing(coming) =>
          var rest := Poll(coming);
          NothingTakenBack(old(arrived), coming, arrived, rest);
        case TakeCommand => var _, _ := PopCommand();
        case Send(f) => var _ := QueueFrame(f);
        case Transmit => var _, _ := PopTxByte();
        case ReadFault => var _ := TakeFault();
      }
    }

    /** Every run: any operations in any order keep the invariant, so what follows from it below holds in every state a
        transport can reach; and what arrived, was delivered, accepted or transmitted is never taken back. */
    method Serve(operations: seq<Operation>)
      requires Valid()
      modifies this, rxBytes, parser, commands, txBytes
      ensures Valid()
      ensures old(arrived) <= arrived && old(delivered) <= delivered && old(accepted) <= accepted
                && old(transmitted) <= transmitted
    {
      hide UartTransport.Valid;
      for i := 0 to |operations|
        invariant Valid()
        invariant old(arrived) <= arrived && old(delivered) <= delivered && old(accepted) <= accepted
                    && old(transmitted) <= transmitted
      {
        Perform(operations[i]);
      }
    }

    // ---- what the rings promise together ----

    /** Lossless receive: while no fault was ever latched, the bytes that arrived are the encodings of the commands
        handed over and of those still queued, then the partial frame in the parser, then the receive ring. */
    lemma {:induction false} Lossless()
      requires Valid() && !faultPending && !taken
      ensures AllEncodable(delivered + Commands())
      ensures arrived == EncodeAll(delivered + Commands()) + parser[..parserLen] + Rx()
      ensures AllCommands(delivered) && AllCommands(Commands()) && Partial(parser[..parserLen])
    {
      ParseSound(consumed);
    }

    /** Whatever faults occurred, rings that overflowed included: every command handed over or queued stood in the bytes
        the receive ring took as its encoding, in order and at disjoint positions; and those bytes are what is left of
        the bytes that arrived. */
    lemma {:induction false} CommandsStood()
      requires Valid()
      ensures Found(delivered + Commands(), stored) && Messages.Subsequence(stored, arrived)
    {
      CommandsWereEncoded(consumed);
      hide Parsed, Found, Messages.Subsequence;
      FoundPart(delivered + Commands(), parse.commands, consumed);
      FoundMore(delivered + Commands(), consumed, Rx());
    }

    /** A fault has a cause: as long as well-formed commands arrive, only a full ring or the line itself sets it. */
    lemma {:induction false} FaultHasCause(frames: seq<Frame>)
      requires Valid() && AllCommands(frames) && AllEncodable(frames) && arrived <= EncodeAll(frames)
      requires faultPending || taken
      ensures rxOverflowed || commandsOverflowed || hardwareFailed
    {
      if !rxOverflowed {
        assert consumed <= arrived;
        ParseComplete(START, frames, consumed);
      }
    }

    /** While no fault was latched and nothing waits, a stream of well-formed commands has been delivered whole. */
    lemma {:induction false} AllDelivered(frames: seq<Frame>)
      requires Valid() && !faultPending && !taken && AllCommands(frames) && AllEncodable(frames)
      requires arrived == EncodeAll(frames) && Rx() == []
      ensures delivered + Commands() == frames
    {
      ParseComplete(START, frames, consumed);
      assert START.commands + frames == frames;
      assert consumed + [] == consumed;
    }

    /** What has been transmitted is a beginning of the encodings of the accepted frames, and all of them once the
        ring is empty. */
    lemma {:induction false} TransmittedInOrder()
      requires TxValid()
      ensures transmitted <= EncodeAll(accepted)
      ensures Tx() == [] ==> transmitted == EncodeAll(accepted)
    {
    }
  }
}
