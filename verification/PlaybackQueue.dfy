/** pico/src/playback_queue.c: the bounded FIFO between UART refill and the playback scheduler. */
module PlaybackQueues {
  import opened Bits
  import opened Rings

  const CAPACITY: nat := 512
  const REPORT_LEN: nat := 8

  type Report = r: seq<byte> | |r| == REPORT_LEN witness [0, 0, 0, 0, 0, 0, 0, 0]

  const NO_KEYS: Report := [0, 0, 0, 0, 0, 0, 0, 0]

  datatype Event = Event(offset: nat, report: Report)

  class PlaybackQueue {
    const events: array<Event>
    var readIndex: nat
    var writeIndex: nat
    var count: nat

    ghost predicate Valid()
      reads this
    {
      && events.Length == CAPACITY
      && readIndex < CAPACITY && count <= CAPACITY
      && writeIndex == (readIndex + count) % CAPACITY
    }

    /** The queued events, oldest first. */
    ghost function Contents(): (s: seq<Event>)
      requires Valid()
      reads this, events
      ensures |s| == count <= CAPACITY
    {
      Window(events[..], readIndex, count)
    }

    constructor ()
      ensures Valid() && Contents() == [] && fresh(events)
    {
      events := new Event[CAPACITY](_ => Event(0, NO_KEYS));
      readIndex, writeIndex, count := 0, 0, 0;
    }

    method Clear()
      requires Valid()
      modifies this
      ensures Valid() && Contents() == []
    {
      readIndex, writeIndex, count := 0, 0, 0;
    }

    method Push(offset: nat, report: seq<byte>) returns (ok: bool)
      requires Valid()
      modifies this, events
      ensures Valid()
      ensures ok <==> |report| == REPORT_LEN && |old(Contents())| < CAPACITY
      ensures Contents() == if ok then old(Contents()) + [Event(offset, report)] else old(Contents())
    {
      if |report| != REPORT_LEN || count == CAPACITY {
        return false;
      }
      WindowPush(events[..], readIndex, count, Event(offset, report));
      NextSlot(CAPACITY, readIndex + count);
      events[writeIndex] := Event(offset, report);
      writeIndex := (writeIndex + 1) % CAPACITY;
      count := count + 1;
      return true;
    }

    method Pop() returns (ok: bool, event: Event)
      requires Valid()
      modifies this
      ensures Valid()
      ensures ok <==> old(Contents()) != []
      ensures ok ==> old(Contents()) == [event] + Contents()
      ensures !ok ==> Contents() == []
    {
      event := events[readIndex];
      if count == 0 {
        return false, event;
      }
      WindowAdvance(events[..], readIndex, count, (readIndex + 1) % CAPACITY);
      readIndex := (readIndex + 1) % CAPACITY;
      count := count - 1;
      return true, event;
    }

    method Peek() returns (ok: bool, event: Event)
      requires Valid()
      ensures ok <==> Contents() != []
      ensures ok ==> event == Contents()[0]
    {
      ok := count != 0;
      event := events[readIndex];
    }

    method FreeCapacity() returns (free: nat)
      requires Valid()
      ensures free == CAPACITY - |Contents()|
    {
      free := CAPACITY - count;
    }
  }
}
