/** expand_offsets of zero/app/playback.py over exact rational speeds: cumulative time divided by the speed, rounded
    half to even, each offset from the exact cumulative time and never from the previous offset. */
module Expansions {
  import opened Rings
  import opened PlaybackQueues
  import opened KeyboardCaptures
  import opened Recordings

  /** round(a / b). */
  function RoundHalfEven(a: nat, b: nat): nat
    requires b > 0
  {
    var q, r := a / b, a % b;
    if 2 * r < b then q else if 2 * r > b then q + 1 else if q % 2 == 0 then q else q + 1
  }

  /** Nearest, and the even one of two equally near. */
  lemma {:induction false} RoundIsNearest(a: nat, b: nat)
    requires b > 0
    ensures var n := RoundHalfEven(a, b);
            && 2 * a <= 2 * (b * n) + b && 2 * (b * n) <= 2 * a + b
            && (2 * a == 2 * (b * n) + b || 2 * (b * n) == 2 * a + b ==> n % 2 == 0)
  {
    var q, r := a / b, a % b;
    assert a == b * q + r;
    assert b * (q + 1) == b * q + b;
  }

  lemma {:induction false} DivMonotone(a: nat, c: nat, b: nat)
    requires b > 0 && a <= c
    ensures a / b <= c / b && (a / b == c / b ==> a % b <= c % b)
  {
    var q, q', r, r' := a / b, c / b, a % b, c % b;
    assert a == b * q + r && c == b * q' + r';
    if q > q' {
      assert b * q == b * q' + b * (q - q');
      MulAtLeast(b, q - q');
    }
  }

  lemma {:induction false} RoundMonotone(a: nat, c: nat, b: nat)
    requires b > 0 && a <= c
    ensures RoundHalfEven(a, b) <= RoundHalfEven(c, b)
  {
    DivMonotone(a, c, b);
  }

  datatype Expanded = Offsets(queue: seq<Event>) | BadSpeed | OutOfRange

  /** The offset of event `i` at speed `num / den`. */
  function OffsetOf(events: seq<RecordingEvent>, i: nat, num: nat, den: nat): nat
    requires i < |events| && num > 0
  {
    RoundHalfEven(TotalDt(events[..i + 1]) * den, num)
  }

  predicate InRange(events: seq<RecordingEvent>, i: nat, num: nat, den: nat)
    requires i < |events| && num > 0
  {
    TotalDt(events[..i + 1]) <= MAX_U64 && OffsetOf(events, i, num, den) <= MAX_U64
  }

  method ExpandOffsets(events: seq<RecordingEvent>, num: nat, den: nat) returns (result: Expanded)
    requires den > 0
    ensures result.BadSpeed? <==> num == 0
    ensures result.Offsets? <==> num > 0 && forall i :: 0 <= i < |events| ==> InRange(events, i, num, den)
    ensures result.Offsets? ==>
              |result.queue| == |events|
              && forall i :: 0 <= i < |events| ==>
                   result.queue[i] == Event(OffsetOf(events, i, num, den), events[i].report)
  {
    if num == 0 { return BadSpeed; }
    var cumulative: nat := 0;
    var expanded: seq<Event> := [];
    for k := 0 to |events|
      invariant cumulative == TotalDt(events[..k]) && |expanded| == k
      invariant forall i :: 0 <= i < k ==> InRange(events, i, num, den)
      invariant forall i :: 0 <= i < k ==> expanded[i] == Event(OffsetOf(events, i, num, den), events[i].report)
    {
      assert events[..k + 1][..k] == events[..k];
      cumulative := cumulative + events[k].dt;
      assert cumulative == TotalDt(events[..k + 1]);
      if cumulative > MAX_U64 {
        assert !InRange(events, k, num, den);
        return OutOfRange;
      }
      var offset := RoundHalfEven(cumulative * den, num);
      if offset > MAX_U64 {
        assert !InRange(events, k, num, den);
        return OutOfRange;
      }
      expanded := expanded + [Event(offset, events[k].report)];
    }
    result := Offsets(expanded);
  }

  lemma {:induction false} TotalGrows(events: seq<RecordingEvent>, i: nat, j: nat)
    requires i <= j <= |events|
    ensures TotalDt(events[..i]) <= TotalDt(events[..j])
    decreases j
  {
    if i < j {
      assert events[..j][..j - 1] == events[..j - 1];
      TotalGrows(events, i, j - 1);
    }
  }

  /** At any speed the offsets never decrease, and each is within half a microsecond of the exact quotient: the
      rounding error does not accumulate. */
  lemma {:induction false} OffsetsFollowTime(events: seq<RecordingEvent>, i: nat, j: nat, num: nat, den: nat)
    requires i <= j < |events| && num > 0
    ensures OffsetOf(events, i, num, den) <= OffsetOf(events, j, num, den)
    ensures var exact := TotalDt(events[..i + 1]) * den;
            2 * exact <= 2 * (num * OffsetOf(events, i, num, den)) + num
                && 2 * (num * OffsetOf(events, i, num, den)) <= 2 * exact + num
  {
    TotalGrows(events, i + 1, j + 1);
    var a, c := TotalDt(events[..i + 1]), TotalDt(events[..j + 1]);
    MulMonotone(a, c, den);
    RoundMonotone(a * den, c * den, num);
    RoundIsNearest(a * den, num);
  }

  /** Recording and playing back at speed 1: the expansion never fails, and every report returns at the time, since
      the first, at which it was captured. */
  lemma {:induction false} SpeedOneRestores(r: Recording, captures: seq<Captured>)
    requires Represents(r, captures)
    ensures forall i :: 0 <= i < |captures| ==>
              && InRange(r.events, i, 1, 1)
              && OffsetOf(r.events, i, 1, 1) == captures[i].timestamp - captures[0].timestamp
              && r.events[i].report == captures[i].report
  {
    assert Monotone(captures) && |r.events| == |captures|;
    RepresentsIsWellFormed(r, captures);
    hide RoundHalfEven, Represents, WellFormed, TotalDt;
    forall i | 0 <= i < |captures|
      ensures InRange(r.events, i, 1, 1)
      ensures OffsetOf(r.events, i, 1, 1) == captures[i].timestamp - captures[0].timestamp
    {
      RoundWhole(TotalDt(r.events[..i + 1]));
    }
  }

  lemma {:induction false} RoundWhole(a: nat)
    ensures RoundHalfEven(a * 1, 1) == a
  {
  }
}
