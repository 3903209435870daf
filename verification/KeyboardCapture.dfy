/** pico/src/keyboard_capture.c: the bounded FIFO of physical reports, with the flag that says whether the
    head has already gone out as a RECORD_EVENT. */
module KeyboardCaptures {
  import opened Bits
  import opened Rings
  import opened PlaybackQueues

  const CAPTURE_CAPACITY: nat := 16

  datatype Captured = Captured(timestamp: uint64, report: Report)

  /** Captures in the order of their timestamps. */
  predicate Monotone(captures: seq<Captured>) {
    forall i, j :: 0 <= i < j < |captures| ==> captures[i].timestamp <= captures[j].timestamp
  }

  lemma {:induction false} MonotoneStep(captures: seq<Captured>, c: Captured)
    requires Monotone(captures)
    ensures Monotone(captures + [c]) <==> captures == [] || captures[|captures| - 1].timestamp <= c.timestamp
  {
    var n := |captures|;
    if n > 0 && Monotone(captures + [c]) {
      assert (captures + [c])[n - 1].timestamp <= (captures + [c])[n].timestamp;
    }
  }

  function LatestOf(captures: seq<Captured>): uint64 {
    if captures == [] then 0 else captures[|captures| - 1].timestamp
  }

  /** Captures in order, none later than `now`. */
  predicate Timely(captures: seq<Captured>, now: nat) {
    Monotone(captures) && LatestOf(captures) <= now
  }

  lemma {:induction false} TimelyNone(now: nat)
    ensures Timely([], now)
  {
  }

  lemma {:induction false} TimelyStep(captures: seq<Captured>, c: Captured, now: nat)
    requires Timely(captures, c.timestamp) && c.timestamp <= now
    ensures Timely(captures + [c], now)
  {
    MonotoneStep(captures, c);
  }

  lemma {:induction false} TimelyLater(captures: seq<Captured>, was: nat, now: nat)
    requires Timely(captures, was) && was <= now
    ensures Timely(captures, now)
  {
  }

  lemma {:induction false} TimelyPrefix(part: seq<Captured>, captures: seq<Captured>, now: nat)
    requires Timely(captures, now) && part <= captures
    ensures Timely(part, now)
  {
    if part != [] && |part| < |captures| {
      assert captures[|part| - 1].timestamp <= captures[|captures| - 1].timestamp;
    }
  }

  class KeyboardCapture {
    const events: array<Captured>
    var readIndex: nat
    var writeIndex: nat
    var count: nat
    var headRecorded: bool

    ghost predicate Valid()
      reads this
    {
      && events.Length == CAPTURE_CAPACITY
      && readIndex < CAPTURE_CAPACITY && count <= CAPTURE_CAPACITY
      && writeIndex == (readIndex + count) % CAPTURE_CAPACITY
      && (headRecorded ==> count > 0)
    }

    /** The queued reports, oldest first. */
    ghost function Contents(): (s: seq<Captured>)
      requires Valid()
      reads this, events
      ensures |s| == count
    {
      Window(events[..], readIndex, count)
    }

    constructor ()
      ensures Valid() && Contents() == [] && !headRecorded && fresh(events)
    {
      events := new Captured[CAPTURE_CAPACITY](_ => Captured(0, NO_KEYS));
      readIndex, writeIndex, count, headRecorded := 0, 0, 0, false;
    }

    method Clear()
      requires Valid()
      modifies this
      ensures Valid() && Contents() == [] && !headRecorded
    {
      readIndex, writeIndex, count, headRecorded := 0, 0, 0, false;
    }

    method Push(timestamp: uint64, report: seq<byte>) returns (ok: bool)
      requires Valid()
      modifies this, events
      ensures Valid() && headRecorded == old(headRecorded)
      ensures ok <==> |report| == REPORT_LEN && |old(Contents())| < CAPTURE_CAPACITY
      ensures Contents() == if ok then old(Contents()) + [Captured(timestamp, report)] else old(Contents())
    {
      if |report| != REPORT_LEN || count == CAPTURE_CAPACITY {
        return false;
      }
      WindowPush(events[..], readIndex, count, Captured(timestamp, report));
      NextSlot(CAPTURE_CAPACITY, readIndex + count);
      events[writeIndex] := Captured(timestamp, report);
      writeIndex := (writeIndex + 1) % CAPTURE_CAPACITY;
      count := count + 1;
      return true;
    }

    /** A fresh head always starts unrecorded. */
    method Pop() returns (ok: bool, event: Captured)
      requires Valid()
      modifies this
      ensures Valid()
      ensures ok <==> old(Contents()) != []
      ensures ok ==> old(Contents()) == [event] + Contents()
      ensures !headRecorded && (!ok ==> Contents() == [])
    {
      event := events[readIndex];
      if count == 0 {
        return false, event;
      }
      WindowAdvance(events[..], readIndex, count, (readIndex + 1) % CAPTURE_CAPACITY);
      readIndex := (readIndex + 1) % CAPTURE_CAPACITY;
      count := count - 1;
      headRecorded := false;
      return true, event;
    }

    method Peek() returns (ok: bool, event: Captured)
      requires Valid()
      ensures ok <==> Contents() != []
      ensures ok ==> event == Contents()[0]
    {
      ok := count != 0;
      event := events[readIndex];
    }

    method MarkHeadRecorded()
      requires Valid()
      modifies `headRecorded
      ensures Valid() && headRecorded == (Contents() != [])
    {
      if count == 0 {
        return;
      }
      headRecorded := true;
    }
  }
}
