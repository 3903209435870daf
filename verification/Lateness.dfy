/** End-of-run statistics of pico/src/playback_scheduler.c: O(1) accumulators, the bounded sample log,
    its in-place insertion sort and the nearest-rank percentiles. */
module Lateness {
  import opened Bits
  import opened Rings

  const MAX_SAMPLES: nat := 2048
  const UINT32: nat := 0x1_0000_0000
  const INT32_MAX: int := 0x7FFF_FFFF

  datatype Metrics = Metrics(dispatched: uint32, underruns: uint32, min: int32, max: int32, sum: int,
                             p95: int32, p99: int32, truncated: bool)

  // ---- reference definitions over the full log of a run ----

  function Sum(s: seq<int32>): int {
    if s == [] then 0 else Sum(s[..|s| - 1]) + s[|s| - 1]
  }

  ghost predicate IsMin(m: int32, s: seq<int32>) {
    m in s && forall x :: x in s ==> m <= x
  }

  ghost predicate IsMax(m: int32, s: seq<int32>) {
    m in s && forall x :: x in s ==> x <= m
  }

  function Retained(log: seq<int32>): (s: seq<int32>)
    ensures s <= log && |s| == if |log| <= MAX_SAMPLES then |log| else MAX_SAMPLES
  {
    if |log| <= MAX_SAMPLES then log else log[..MAX_SAMPLES]
  }

  /** How many samples lie below `v` (`strict`) or at most at `v`. */
  function Count(s: seq<int32>, v: int, strict: bool): nat {
    if s == [] then 0
    else Count(s[..|s| - 1], v, strict) + (if s[|s| - 1] < v || (!strict && s[|s| - 1] == v) then 1 else 0)
  }

  /** `v` is the p-th percentile of the non-empty `s`: at least p% of the samples are at most `v`, and
      strictly fewer than p% are below it. */
  ghost predicate IsQuantile(v: int32, s: seq<int32>, p: nat) {
    && v in s
    && 100 * Count(s, v, false) >= p * |s|
    && 100 * Count(s, v, true) < p * |s|
  }

  ghost predicate Extremes(min: int32, max: int32, log: seq<int32>) {
    if log == [] then min == 0 && max == 0 else IsMin(min, log) && IsMax(max, log)
  }

  ghost predicate Quantiles(p95: int32, p99: int32, samples: seq<int32>) {
    if samples == [] then p95 == 0 && p99 == 0
    else IsQuantile(p95, samples, 95) && IsQuantile(p99, samples, 99) && p95 <= p99
  }

  /** What PLAY_METRICS says about a run: exact totals, and quantiles of the retained samples. The
      counters are 32 bits wide, so minimum and maximum are only promised up to 2^32 dispatches. */
  ghost predicate Describes(m: Metrics, log: seq<int32>, underruns: nat) {
    && m.dispatched == |log| % UINT32
    && m.underruns == underruns % UINT32
    && m.sum == Sum(log)
    && (|log| <= UINT32 ==> Extremes(m.min, m.max, log))
    && Quantiles(m.p95, m.p99, Retained(log))
    && (m.truncated <==> |log| > MAX_SAMPLES)
  }

  // ---- insertion sort as a function ----

  ghost predicate Sorted(s: seq<int32>) {
    forall i, j :: 0 <= i < j < |s| ==> s[i] <= s[j]
  }

  function Insert(s: seq<int32>, x: int32): (r: seq<int32>)
    ensures |r| == |s| + 1
  {
    if s == [] || s[|s| - 1] <= x then s + [x] else Insert(s[..|s| - 1], x) + [s[|s| - 1]]
  }

  function Sort(s: seq<int32>): (r: seq<int32>)
    ensures |r| == |s|
  {
    if s == [] then [] else Insert(Sort(s[..|s| - 1]), s[|s| - 1])
  }

  lemma {:induction false} InsertPermutes(s: seq<int32>, x: int32)
    ensures multiset(Insert(s, x)) == multiset(s) + multiset{x}
  {
    if s != [] && s[|s| - 1] > x {
      InsertPermutes(s[..|s| - 1], x);
      assert s == s[..|s| - 1] + [s[|s| - 1]];
    }
  }

  lemma {:induction false} InsertSorted(s: seq<int32>, x: int32)
    requires Sorted(s)
    ensures Sorted(Insert(s, x))
  {
    if s != [] && s[|s| - 1] > x {
      var front, last := s[..|s| - 1], s[|s| - 1];
      InsertSorted(front, x);
      InsertPermutes(front, x);
      forall i | 0 <= i < |s| ensures Insert(front, x)[i] <= last {
        assert Insert(front, x)[i] in multiset(front) + multiset{x};
      }
    }
  }

  lemma {:induction false} SortSorted(s: seq<int32>)
    ensures Sorted(Sort(s))
  {
    if s != [] {
      SortSorted(s[..|s| - 1]);
      InsertSorted(Sort(s[..|s| - 1]), s[|s| - 1]);
    }
  }

  lemma {:induction false} SortPermutes(s: seq<int32>)
    ensures multiset(Sort(s)) == multiset(s)
  {
    if s != [] {
      SortPermutes(s[..|s| - 1]);
      InsertPermutes(Sort(s[..|s| - 1]), s[|s| - 1]);
      assert s == s[..|s| - 1] + [s[|s| - 1]];
    }
  }

  lemma {:induction false} CountAppend(s: seq<int32>, x: int32, v: int, strict: bool)
    ensures Count(s + [x], v, strict) == Count(s, v, strict) + (if x < v || (!strict && x == v) then 1 else 0)
  {
    assert (s + [x])[..|s|] == s;
  }

  lemma {:induction false} InsertCounts(s: seq<int32>, x: int32, v: int, strict: bool)
    ensures Count(Insert(s, x), v, strict) == Count(s + [x], v, strict)
  {
    if s != [] && s[|s| - 1] > x {
      var front := s[..|s| - 1];
      InsertCounts(front, x, v, strict);
      CountAppend(Insert(front, x), s[|s| - 1], v, strict);
      CountAppend(front, x, v, strict);
      CountAppend(s, x, v, strict);
    }
  }

  lemma {:induction false} SortCounts(s: seq<int32>, v: int, strict: bool)
    ensures Count(Sort(s), v, strict) == Count(s, v, strict)
  {
    if s != [] {
      var front := s[..|s| - 1];
      SortCounts(front, v, strict);
      InsertCounts(Sort(front), s[|s| - 1], v, strict);
      CountAppend(Sort(front), s[|s| - 1], v, strict);
    }
  }

  /** In a sorted sequence the element at index `r` has at least r + 1 samples at most its size and at
      most r samples below it. */
  lemma {:induction false} CountAtRank(s: seq<int32>, r: nat, n: nat)
    requires Sorted(s) && r < |s| && n <= |s|
    ensures Count(s[..n], s[r], false) >= if n <= r then n else r + 1
    ensures Count(s[..n], s[r], true) <= if n <= r then n else r
  {
    if n != 0 {
      CountAtRank(s, r, n - 1);
      assert s[..n][..n - 1] == s[..n - 1];
    }
  }

  /** sort_samples: ascending insertion sort of the first `count` slots, in place. */
  method SortSamples(samples: array<int32>, count: nat)
    requires count <= samples.Length
    modifies samples
    ensures samples[..count] == Sort(old(samples[..count]))
    ensures samples[count..] == old(samples[count..])
  {
    ghost var was := samples[..];
    var i := 0;
    if count > 0 { i := 1; SortOne(was[..1]); }
    while i < count
      invariant i <= count && (count > 0 ==> i >= 1)
      invariant samples[..i] == Sort(was[..i])
      invariant samples[i..] == was[i..]
    {
      assert was[..i + 1][..i] == was[..i];
      assert samples[i] == samples[i..][0];
      SinkSample(samples, i);
      i := i + 1;
      assert samples[i..] == was[i..];
    }
    assert was[..count] == old(samples[..count]);
  }

  lemma {:induction false} SortOne(s: seq<int32>)
    requires |s| == 1
    ensures Sort(s) == s
  {
    assert s[..0] == [];
    assert Sort(s) == Insert([], s[0]) == [s[0]];
  }

  /** Insertion puts the key behind the last element that is not larger. */
  lemma {:induction false} InsertAt(s: seq<int32>, key: int32, j: nat)
    requires j <= |s| && (j > 0 ==> s[j - 1] <= key)
    requires forall k :: j <= k < |s| ==> s[k] > key
    ensures Insert(s, key) == s[..j] + [key] + s[j..]
  {
    var n := |s| - 1;
    if j == |s| {
      assert s[..j] == s && s[j..] == [];
    } else {
      InsertAt(s[..n], key, j);
      assert s[..n][..j] == s[..j];
      assert s[..n][j..] + [s[n]] == s[j..];
    }
  }

  /** The inner loop of sort_samples: shift larger samples right and drop the key in the gap. */
  method SinkSample(samples: array<int32>, i: nat)
    requires i < samples.Length
    modifies samples
    ensures samples[..i + 1] == Insert(old(samples[..i]), old(samples[i]))
    ensures samples[i + 1..] == old(samples[i + 1..])
  {
    ghost var was := samples[..i];
    var key := samples[i];
    var j := i;
    while j > 0 && samples[j - 1] > key
      invariant j <= i
      invariant forall k :: 0 <= k < j ==> samples[k] == was[k]
      invariant forall k :: j < k <= i ==> samples[k] == was[k - 1]
      invariant forall k :: j <= k < i ==> was[k] > key
      invariant samples[i + 1..] == old(samples[i + 1..])
    {
      samples[j] := samples[j - 1];
      j := j - 1;
    }
    samples[j] := key;
    InsertAt(was, key, j);
    assert samples[..i + 1] == was[..j] + [key] + was[j..];
  }

  /** Nearest rank ceil(p * count / 100), clamped to 1..count exactly as the code does. */
  function Rank(count: nat, p: nat): (rank: nat)
  {
    var rank := (p * count + 99) / 100;
    var rank := if rank < 1 then 1 else rank;
    if rank > count then count else rank
  }

  function Percentile(sorted: seq<int32>, p: nat): int32
  {
    if |sorted| == 0 || Rank(|sorted|, p) == 0 then 0 else sorted[Rank(|sorted|, p) - 1]
  }

  lemma {:induction false} RankBounds(n: nat, p: nat)
    requires 0 < n && 0 < p <= 100
    ensures 1 <= Rank(n, p) <= n
    ensures 100 * Rank(n, p) >= p * n > 100 * (Rank(n, p) - 1)
    ensures n <= MAX_SAMPLES ==> p * n + 99 < UINT32
  {
    assert 0 < p * n <= 100 * n;
  }

  /** The value the code reports is a true nearest-rank quantile of the unsorted samples. */
  lemma {:induction false} PercentileIsQuantile(s: seq<int32>, p: nat)
    requires s != [] && 0 < p <= 100
    ensures IsQuantile(Percentile(Sort(s), p), s, p)
  {
    var t := Sort(s);
    var r := Rank(|s|, p);
    RankBounds(|s|, p);
    SortSorted(s);
    SortPermutes(s);
    CountAtRank(t, r - 1, |t|);
    assert t[..|t|] == t;
    SortCounts(s, t[r - 1], false);
    SortCounts(s, t[r - 1], true);
    assert t[r - 1] in multiset(t);
  }

  lemma {:induction false} RankMonotone(n: nat, p: nat, q: nat)
    requires p <= q
    ensures Rank(n, p) <= Rank(n, q)
  {
    MulMonotone(p, q, n);
    HundredthsMonotone(p * n, q * n);
  }

  lemma {:induction false} HundredthsMonotone(a: nat, b: nat)
    requires a <= b
    ensures (a + 99) / 100 <= (b + 99) / 100
  {
  }

  lemma {:induction false} PercentileMonotone(s: seq<int32>, p: nat, q: nat)
    requires s != [] && 0 < p <= q <= 100
    ensures Percentile(Sort(s), p) <= Percentile(Sort(s), q)
  {
    hide Rank;
    SortSorted(s);
    RankMonotone(|s|, p, q);
    RankBounds(|s|, p);
    RankBounds(|s|, q);
  }

  lemma {:induction false} PercentilesDescribe(s: seq<int32>)
    ensures Quantiles(Percentile(Sort(s), 95), Percentile(Sort(s), 99), s)
  {
    if s != [] {
      PercentileIsQuantile(s, 95);
      PercentileIsQuantile(s, 99);
      PercentileMonotone(s, 95, 99);
    }
  }

  /** p99 never exceeds the maximum of the whole run, although it is taken from the retained prefix only. */
  lemma {:induction false} QuantileBelowMax(m: Metrics, log: seq<int32>, underruns: nat)
    requires Describes(m, log, underruns) && 0 < |log| <= UINT32
    ensures m.min <= m.p95 <= m.p99 <= m.max
  {
    forall x | x in Retained(log) ensures x in log {
      var i :| 0 <= i < |Retained(log)| && Retained(log)[i] == x;
      assert log[i] == x;
    }
  }

  /** The sum is the total: that of one sample is the sample, and totals add up. */
  lemma {:induction false} SumAdds(a: seq<int32>, b: seq<int32>)
    ensures Sum(a + b) == Sum(a) + Sum(b)
    ensures |a| == 1 ==> Sum(a) == a[0]
  {
    if b == [] {
      assert a + b == a;
    } else {
      SumAdds(a, b[..|b| - 1]);
      assert (a + b)[..|a + b| - 1] == a + b[..|b| - 1];
    }
  }

  /** With clamped samples the 64-bit sum cannot overflow before the 32-bit count wraps. */
  lemma {:induction false} SumFits(log: seq<int32>)
    requires forall x :: x in log ==> 0 <= x <= INT32_MAX
    ensures 0 <= Sum(log) <= |log| * INT32_MAX
    ensures |log| <= UINT32 ==> Sum(log) < 0x8000_0000_0000_0000
  {
    if log != [] {
      var front := log[..|log| - 1];
      assert log[|log| - 1] in log;
      assert forall x :: x in front ==> x in log;
      SumFits(front);
    }
  }

  /** The statistics fields of pico_playback_scheduler_t. */
  class LatenessLog {
    const samples: array<int32>
    var dispatchedCount: uint32
    var minLateness: int32
    var maxLateness: int32
    var sumLateness: int
    var sampleCount: nat
    var samplesTruncated: bool
    /** Every lateness recorded since the last Reset. */
    ghost var log: seq<int32>

    ghost predicate Valid()
      reads this
    {
      samples.Length == MAX_SAMPLES
    }

    /** The accumulators reflect `log`; lost once Report has sorted the samples, until the next Reset. */
    ghost predicate Tracks()
      reads this, samples
    {
      && Valid()
      && dispatchedCount == |log| % UINT32
      && sumLateness == Sum(log)
      && (|log| <= UINT32 ==> Extremes(minLateness, maxLateness, log))
      && sampleCount == |Retained(log)|
      && samples[..sampleCount] == Retained(log)
      && (samplesTruncated <==> |log| > MAX_SAMPLES)
    }

    constructor ()
      ensures Tracks() && log == [] && fresh(samples)
    {
      samples := new int32[MAX_SAMPLES];
      dispatchedCount, minLateness, maxLateness, sumLateness := 0, 0, 0, 0;
      sampleCount, samplesTruncated := 0, false;
      log := [];
    }

    /** The metric fields that pico_playback_scheduler_start zeroes. */
    method Reset()
      requires Valid()
      modifies this
      ensures Valid() && Tracks() && log == []
    {
      dispatchedCount, minLateness, maxLateness, sumLateness := 0, 0, 0, 0;
      sampleCount, samplesTruncated := 0, false;
      log := [];
      assert samples[..0] == [];
    }

    /** record_lateness */
    method Record(lateness: int32)
      requires Tracks()
      modifies this, samples
      ensures Tracks() && log == old(log) + [lateness]
    {
      SumStep(log, lateness);
      CountStep(|log|);
      RecordExtremes(lateness);
      sumLateness := sumLateness + lateness;
      dispatchedCount := (dispatchedCount + 1) % UINT32;
      RecordSample(lateness);
      log := log + [lateness];
    }

    /** First part of record_lateness: widen the running extremes. */
    method RecordExtremes(lateness: int32)
      requires dispatchedCount == |log| % UINT32
      requires |log| <= UINT32 ==> Extremes(minLateness, maxLateness, log)
      modifies `minLateness, `maxLateness
      ensures |log| < UINT32 ==> Extremes(minLateness, maxLateness, log + [lateness])
    {
      ExtremesStep(minLateness, maxLateness, log, lateness);
      CountStep(|log|);
      if dispatchedCount == 0 {
        minLateness := lateness;
        maxLateness := lateness;
      } else {
        if lateness < minLateness {
          minLateness := lateness;
        }
        if lateness > maxLateness {
          maxLateness := lateness;
        }
      }
    }

    /** Last part of record_lateness: keep the first MAX_SAMPLES raw values. */
    method RecordSample(lateness: int32)
      requires Valid() && sampleCount == |Retained(log)| && samples[..sampleCount] == Retained(log)
      requires samplesTruncated <==> |log| > MAX_SAMPLES
      modifies samples, `sampleCount, `samplesTruncated
      ensures sampleCount == |Retained(log + [lateness])| && samples[..sampleCount] == Retained(log + [lateness])
      ensures samplesTruncated <==> |log| + 1 > MAX_SAMPLES
    {
      RetainedStep(log, lateness);
      if sampleCount < MAX_SAMPLES {
        samples[sampleCount] := lateness;
        sampleCount := sampleCount + 1;
      } else {
        samplesTruncated := true;
      }
    }

    /** The metrics computed by finish(): sorts the samples in place, then reads both percentiles. */
    method Report(underrunCount: nat, ghost underruns: nat) returns (metrics: Metrics)
      requires Tracks() && underrunCount == underruns % UINT32
      modifies samples
      ensures Valid()
      ensures Describes(metrics, log, underruns)
    {
      SortSamples(samples, sampleCount);
      PercentilesDescribe(Retained(log));
      var sorted := samples[..sampleCount];
      metrics := Metrics(dispatchedCount, underrunCount, minLateness, maxLateness, sumLateness,
                         Percentile(sorted, 95), Percentile(sorted, 99), samplesTruncated);
    }
  }

  lemma {:induction false} SumStep(log: seq<int32>, x: int32)
    ensures Sum(log + [x]) == Sum(log) + x
  {
    assert (log + [x])[..|log|] == log;
  }

  lemma {:induction false} ExtremesStep(min: int32, max: int32, log: seq<int32>, x: int32)
    requires |log| < UINT32 ==> Extremes(min, max, log)
    ensures log == [] ==> Extremes(x, x, log + [x])
    ensures 0 < |log| < UINT32 ==> Extremes(if x < min then x else min, if x > max then x else max, log + [x])
  {
  }

  lemma {:induction false} RetainedStep(log: seq<int32>, x: int32)
    ensures Retained(log + [x]) == if |log| < MAX_SAMPLES then Retained(log) + [x] else Retained(log)
  {
  }

  lemma {:induction false} CountStep(n: nat)
    ensures (n % UINT32 + 1) % UINT32 == (n + 1) % UINT32
    ensures 0 < n < UINT32 ==> n % UINT32 != 0
  {
  }
}
