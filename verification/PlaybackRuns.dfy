/** Ghost history of playback runs, and what a correct run looks like. */
module PlaybackRuns {
  import opened Bits
  import opened PlaybackQueues
  import opened Lateness
  import opened Messages

  const UINT64: nat := 0x1_0000_0000_0000_0000
  /** The microsecond clock is assumed to stay below 2^63 (292 thousand years). */
  const CLOCK_LIMIT: nat := 0x8000_0000_0000_0000
  const WATCHDOG_TIMEOUT: nat := 2_000_000

  /** The 64-bit sum the scheduler compares with the clock. */
  function Deadline(epoch: nat, offset: nat): nat {
    (epoch + offset) % UINT64
  }

  /** The cast (int64_t) of a 64-bit unsigned value. */
  function ToInt64(x: nat): int
    requires x < UINT64
  {
    if x < CLOCK_LIMIT then x else x - UINT64
  }

  /** One report accepted by HID: when it was accepted, and when the scheduler sampled the clock next. */
  datatype Dispatch = Dispatch(event: Event, sentAt: nat, time: nat)

  function Clamped(lateness: int): int32 {
    if lateness > INT32_MAX then INT32_MAX else if lateness < -INT32_MAX - 1 then -INT32_MAX - 1 else lateness
  }

  function LatenessOf(epoch: nat, d: Dispatch): int32 {
    Clamped(d.time - Deadline(epoch, d.event.offset))
  }

  function Latenesses(epoch: nat, sent: seq<Dispatch>): (s: seq<int32>)
    ensures |s| == |sent|
  {
    if sent == [] then [] else Latenesses(epoch, sent[..|sent| - 1]) + [LatenessOf(epoch, sent[|sent| - 1])]
  }

  function Events(sent: seq<Dispatch>): (s: seq<Event>)
    ensures |s| == |sent|
  {
    if sent == [] then [] else Events(sent[..|sent| - 1]) + [sent[|sent| - 1].event]
  }

  predicate OnTime(epoch: nat, d: Dispatch) {
    Deadline(epoch, d.event.offset) <= d.sentAt <= d.time < CLOCK_LIMIT
  }

  predicate AllOnTime(epoch: nat, sent: seq<Dispatch>) {
    sent == [] || (AllOnTime(epoch, sent[..|sent| - 1]) && OnTime(epoch, sent[|sent| - 1]))
  }

  /** Number of maximal runs of `true`: each is one contiguous interval in which the queue was found empty. */
  function Rises(observed: seq<bool>): nat {
    if observed == [] then 0
    else Rises(observed[..|observed| - 1])
         + (if observed[|observed| - 1] && (|observed| == 1 || !observed[|observed| - 2]) then 1 else 0)
  }

  lemma {:induction false} RisesStep(observed: seq<bool>, empty: bool)
    ensures Rises(observed + [empty])
            == Rises(observed) + (if empty && (observed == [] || !observed[|observed| - 1]) then 1 else 0)
  {
    assert (observed + [empty])[..|observed|] == observed;
  }

  /** The run in progress. `observed` has one entry for every time arm_next looked at the queue while the
      sequence was open or the queue was filled: did it find the queue empty? `rise` is where the current
      empty interval began. */
  datatype History = History(pushed: seq<Event>, sent: seq<Dispatch>, observed: seq<bool>, rise: nat)

  ghost predicate Intervals(observed: seq<bool>, rise: nat, active: bool) {
    && (active <==> observed != [] && observed[|observed| - 1])
    && (active ==> rise < |observed| && forall i :: rise <= i < |observed| ==> observed[i])
    && (active && rise > 0 ==> !observed[rise - 1])
  }

  /** One more look at the queue. */
  lemma {:induction false} IntervalsStep(observed: seq<bool>, rise: nat, active: bool, empty: bool)
    requires Intervals(observed, rise, active)
    ensures Intervals(observed + [empty], if active then rise else |observed|, empty)
    ensures Rises(observed + [empty]) == Rises(observed) + (if empty && !active then 1 else 0)
  {
    RisesStep(observed, empty);
  }

  lemma {:induction false} IntervalsBounds(observed: seq<bool>, rise: nat, active: bool)
    requires Intervals(observed, rise, active) && active
    ensures rise < |observed|
  {
  }

  /** The looks happened one after another. */
  ghost predicate Ordered(looked: seq<nat>) {
    |looked| <= 1 || (Ordered(looked[..|looked| - 1]) && looked[|looked| - 2] <= looked[|looked| - 1])
  }

  lemma {:induction false} OrderedStep(looked: seq<nat>, now: nat)
    requires Ordered(looked) && (looked == [] || looked[|looked| - 1] <= now)
    ensures Ordered(looked + [now])
  {
    assert (looked + [now])[..|looked|] == looked;
  }

  lemma {:induction false} OrderedAt(looked: seq<nat>, i: nat, j: nat)
    requires Ordered(looked) && i <= j < |looked|
    ensures looked[i] <= looked[j]
    decreases |looked|
  {
    if j < |looked| - 1 {
      OrderedAt(looked[..|looked| - 1], i, j);
    } else if i < j {
      OrderedAt(looked[..|looked| - 1], i, j - 1);
    }
  }

  /** A completed run. */
  datatype Run = Run(epoch: nat, finished: bool, ended: bool, history: History, left: seq<Event>, metrics: Metrics)

  ghost predicate GoodRun(r: Run) {
    && r.history.pushed == Events(r.history.sent) + r.left
    && AllOnTime(r.epoch, r.history.sent)
    && Describes(r.metrics, Latenesses(r.epoch, r.history.sent), Rises(r.history.observed))
    && (r.finished ==> r.ended && r.left == [])
  }

  ghost predicate GoodRuns(runs: seq<Run>) {
    runs == [] || (GoodRuns(runs[..|runs| - 1]) && GoodRun(runs[|runs| - 1]))
  }

  /** What the wire must say about a run: one PLAY_UNDERRUN for each of its maximal empty intervals. */
  function OutcomeOf(r: Run): Outcome {
    Outcome(r.finished, Rises(r.history.observed), r.metrics)
  }

  function Outcomes(runs: seq<Run>): (s: seq<Outcome>)
    ensures |s| == |runs|
  {
    if runs == [] then []
    else Outcomes(runs[..|runs| - 1]) + [OutcomeOf(runs[|runs| - 1])]
  }

  lemma {:induction false} RunsStep(runs: seq<Run>, r: Run)
    requires GoodRuns(runs) && GoodRun(r)
    ensures GoodRuns(runs + [r])
    ensures Outcomes(runs + [r]) == Outcomes(runs) + [OutcomeOf(r)]
  {
    assert (runs + [r])[..|runs|] == runs;
  }

  /** Completing the run in progress with the metrics of its statistics. */
  lemma {:induction false} CompleteRun(runs: seq<Run>, r: Run, metrics: Metrics)
    requires GoodRuns(runs)
    requires r.history.pushed == Events(r.history.sent) + r.left && AllOnTime(r.epoch, r.history.sent)
    requires r.finished ==> r.ended && r.left == []
    requires Describes(metrics, Latenesses(r.epoch, r.history.sent), Rises(r.history.observed))
    ensures GoodRuns(runs + [r.(metrics := metrics)])
    ensures Outcomes(runs + [r.(metrics := metrics)]) == Outcomes(runs) + [OutcomeOf(r.(metrics := metrics))]
  {
    RunsStep(runs, r.(metrics := metrics));
  }

  /** What the history gains from one accepted report. */
  lemma {:induction false} SentStep(epoch: nat, sent: seq<Dispatch>, d: Dispatch, pushed: seq<Event>,
      queued: seq<Event>, rest: seq<Event>)
    requires AllOnTime(epoch, sent) && OnTime(epoch, d)
    requires pushed == Events(sent) + queued && queued == [d.event] + rest
    ensures AllOnTime(epoch, sent + [d])
    ensures Latenesses(epoch, sent + [d]) == Latenesses(epoch, sent) + [LatenessOf(epoch, d)]
    ensures pushed == Events(sent + [d]) + rest
  {
    assert (sent + [d])[..|sent|] == sent;
  }

  // ---- what good runs promise ----

  /** A finished run sent every pushed event exactly once, in push order. */
  lemma {:induction false} FinishedRunIsComplete(r: Run)
    requires GoodRun(r) && r.finished
    ensures r.ended && Events(r.history.sent) == r.history.pushed
  {
  }

  lemma {:induction false} GoodRunsAt(runs: seq<Run>, i: nat)
    requires GoodRuns(runs) && i < |runs|
    ensures GoodRun(runs[i])
    ensures Outcomes(runs)[i] == OutcomeOf(runs[i])
  {
    if i < |runs| - 1 { GoodRunsAt(runs[..|runs| - 1], i); }
  }

  lemma {:induction false} SentAt(epoch: nat, sent: seq<Dispatch>, i: nat)
    requires AllOnTime(epoch, sent) && i < |sent|
    ensures OnTime(epoch, sent[i])
    ensures Latenesses(epoch, sent)[i] == LatenessOf(epoch, sent[i]) && Events(sent)[i] == sent[i].event
  {
    if i < |sent| - 1 { SentAt(epoch, sent[..|sent| - 1], i); }
  }

  /** No report went out before its own deadline, and no recorded lateness is negative. The deadline is a 64-bit sum:
      a report went out no earlier than epoch plus offset exactly when that sum fits. */
  lemma {:induction false} NeverEarly(r: Run, i: nat)
    requires GoodRun(r) && i < |r.history.sent|
    ensures Deadline(r.epoch, r.history.sent[i].event.offset) <= r.history.sent[i].sentAt
    ensures 0 <= Latenesses(r.epoch, r.history.sent)[i] <= INT32_MAX
    ensures r.epoch + r.history.sent[i].event.offset <= r.history.sent[i].sentAt
            <==> r.epoch + r.history.sent[i].event.offset < UINT64
  {
    SentAt(r.epoch, r.history.sent, i);
  }

  lemma {:induction false} DeadlineValue(epoch: nat, offset: nat)
    ensures epoch + offset < UINT64 ==> Deadline(epoch, offset) == epoch + offset
    ensures UINT64 <= epoch + offset < 2 * UINT64 ==> Deadline(epoch, offset) == epoch + offset - UINT64
  {
    if UINT64 <= epoch + offset < 2 * UINT64 { assert epoch + offset == UINT64 + (epoch + offset - UINT64); }
  }

  lemma {:induction false} LatenessOfIs(epoch: nat, d: Dispatch)
    requires OnTime(epoch, d) && epoch + d.event.offset < 2 * UINT64
    ensures var due := epoch + d.event.offset;
            var late := if due < UINT64 then d.time - due else d.time + UINT64 - due;
            LatenessOf(epoch, d) == if late > INT32_MAX then INT32_MAX else late
  {
    DeadlineValue(epoch, d.event.offset);
    hide Deadline;
  }

  /** What a run records for a report: by how many microseconds its clock sample is past epoch plus offset, or past what
      is left of that sum when it does not fit 64 bits, saturated at the largest 32-bit value. */
  lemma {:induction false} LatenessIs(r: Run, i: nat)
    requires GoodRun(r) && i < |r.history.sent| && r.epoch + r.history.sent[i].event.offset < 2 * UINT64
    ensures var d := r.history.sent[i];
            var due := r.epoch + d.event.offset;
            var late := if due < UINT64 then d.time - due else d.time + UINT64 - due;
            Latenesses(r.epoch, r.history.sent)[i] == if late > INT32_MAX then INT32_MAX else late
  {
    SentAt(r.epoch, r.history.sent, i);
    LatenessOfIs(r.epoch, r.history.sent[i]);
    hide Describes, Latenesses, LatenessOf, Events, AllOnTime, Rises, Deadline;
  }

  /** A report that was due `late` microseconds before its clock sample is told in all five figures of a run that sent
      no other. */
  lemma {:induction false} OneReport(r: Run)
    requires GoodRun(r) && |r.history.sent| == 1
    requires r.epoch + r.history.sent[0].event.offset < UINT64
    ensures var d, m := r.history.sent[0], r.metrics;
            var late := d.time - (r.epoch + d.event.offset);
            var told := if late > INT32_MAX then INT32_MAX else late;
            m.dispatched == 1 && m.min == m.max == m.sum == m.p95 == m.p99 == told && !m.truncated
  {
    LatenessIs(r, 0);
    var log := Latenesses(r.epoch, r.history.sent);
    hide Latenesses, AllOnTime, Rises, Events;
    assert log == [log[0]];
    SumStep([], log[0]);
    assert [] + [log[0]] == log && Retained(log) == log;
    hide Count;
  }

  /** The extremes of a run are the recorded figures of two of its reports, and no report lies outside them. */
  lemma {:induction false} ExtremesAreReports(r: Run) returns (first: nat, last: nat)
    requires GoodRun(r) && 0 < |r.history.sent| <= UINT32
    ensures first < |r.history.sent| && last < |r.history.sent|
    ensures r.metrics.min == Latenesses(r.epoch, r.history.sent)[first]
    ensures r.metrics.max == Latenesses(r.epoch, r.history.sent)[last]
    ensures forall i :: 0 <= i < |r.history.sent| ==>
              r.metrics.min <= Latenesses(r.epoch, r.history.sent)[i] <= r.metrics.max
  {
    var log := Latenesses(r.epoch, r.history.sent);
    hide Latenesses, Rises, Sum, Quantiles;
    first :| 0 <= first < |log| && log[first] == r.metrics.min;
    last :| 0 <= last < |log| && log[last] == r.metrics.max;
    assert forall i :: 0 <= i < |log| ==> log[i] in log;
  }

  /** The deadline is the true sum exactly when that sum fits 64 bits: offsets beyond wrap to an earlier time. */
  lemma {:induction false} DeadlineExact(epoch: nat, offset: nat)
    requires epoch < UINT64 && offset < UINT64
    ensures Deadline(epoch, offset) == epoch + offset <==> epoch + offset < UINT64
    ensures epoch + offset >= UINT64 ==> Deadline(epoch, offset) < epoch
  {
  }
}
