/** What a circular buffer holds, shared by every ring of the firmware. */
module Rings {

  /** The `count` elements that start at position `start` of the circular `buffer`. */
  ghost function Window<T>(buffer: seq<T>, start: nat, count: nat): (s: seq<T>)
    requires 0 < |buffer|
    ensures |s| == count
  {
    seq(count, i requires 0 <= i => buffer[(start + i) % |buffer|])
  }

  lemma {:induction false} MulAtLeast(n: nat, d: int)
    requires d >= 1
    ensures n * d >= n
  {
  }

  lemma {:induction false} MulMonotone(p: nat, q: nat, n: nat)
    requires p <= q
    ensures p * n <= q * n
  {
    assert q * n == p * n + (q - p) * n;
  }

  lemma {:induction false} DivModUnique(n: nat, q: int, r: nat, a: nat)
    requires r < n && a == n * q + r
    ensures a % n == r
  {
    var q', r' := a / n, a % n;
    assert a == n * q' + r';
    assert n * (q - q') == r' - r;
    if q > q' {
      MulAtLeast(n, q - q');
    } else if q' > q {
      MulAtLeast(n, q' - q);
    }
  }

  lemma {:induction false} SlotsDiffer(n: nat, a: nat, b: nat)
    requires 0 < n && a < b < a + n
    ensures a % n != b % n
  {
    if a % n == b % n {
      var d := b / n - a / n;
      assert b - a == n * d;
      if d >= 1 { MulAtLeast(n, d); } else if d < 0 { MulAtLeast(n, -d); }
    }
  }

  lemma {:induction false} NextSlot(n: nat, a: nat)
    requires 0 < n
    ensures (a + 1) % n == if a % n + 1 == n then 0 else a % n + 1
  {
    var q := a / n;
    if a % n + 1 == n {
      assert a + 1 == n * (q + 1) + 0;
      DivModUnique(n, q + 1, 0, a + 1);
    } else {
      DivModUnique(n, q, a % n + 1, a + 1);
    }
  }

  lemma {:induction false} SameSlots(n: nat, a: nat, b: nat, i: nat)
    requires 0 < n && a % n == b % n
    ensures (a + i) % n == (b + i) % n
  {
    if i != 0 {
      SameSlots(n, a, b, i - 1);
      NextSlot(n, a + i - 1);
      NextSlot(n, b + i - 1);
    }
  }

  /** Writing the slot just behind a window that is not full appends to the window. */
  lemma {:induction false} WindowPush<T>(buffer: seq<T>, start: nat, count: nat, x: T)
    requires count < |buffer|
    ensures Window(buffer[(start + count) % |buffer| := x], start, count + 1) == Window(buffer, start, count) + [x]
  {
    var after := buffer[(start + count) % |buffer| := x];
    forall i | 0 <= i < count
      ensures Window(after, start, count + 1)[i] == Window(buffer, start, count)[i]
    {
      SlotsDiffer(|buffer|, start + i, start + count);
    }
  }

  lemma {:induction false} WindowPop<T>(buffer: seq<T>, start: nat, count: nat)
    requires 0 < |buffer| && 0 < count
    ensures Window(buffer, start, count) == [buffer[start % |buffer|]] + Window(buffer, start + 1, count - 1)
  {
  }

  /** Only the start position modulo the length matters. */
  lemma {:induction false} WindowWraps<T>(buffer: seq<T>, start: nat, start': nat, count: nat)
    requires 0 < |buffer| && start % |buffer| == start' % |buffer|
    ensures Window(buffer, start, count) == Window(buffer, start', count)
  {
    forall i | 0 <= i < count
      ensures Window(buffer, start, count)[i] == Window(buffer, start', count)[i]
    {
      SameSlots(|buffer|, start, start', i);
    }
  }

  /** Moving the read position past the head and wrapping it keeps the rest of the window. */
  lemma {:induction false} WindowAdvance<T>(buffer: seq<T>, start: nat, count: nat, start': nat)
    requires 0 < |buffer| && 0 < count && start' % |buffer| == (start + 1) % |buffer|
    ensures Window(buffer, start, count) == [buffer[start % |buffer|]] + Window(buffer, start', count - 1)
  {
    WindowWraps(buffer, start + 1, start', count - 1);
    WindowPop(buffer, start, count);
  }
}
