/** The fixed-rate schedule of the local vision smoke runner, on an abstract millisecond clock. */
module Schedule {

  datatype Plan = Plan(durationSeconds: nat, intervalSeconds: nat, phaseOffsetMs: nat)

  function DurationMs(p: Plan): nat {
    1000 * p.durationSeconds
  }

  /** At least one second. */
  function IntervalMs(p: Plan): (i: nat)
    ensures i > 0
  {
    1000 * if p.intervalSeconds > 1 then p.intervalSeconds else 1
  }

  /** When the k-th run is due, counted from the start of the runner. */
  function Deadline(p: Plan, k: nat): nat {
    if k == 0 then p.phaseOffsetMs else Deadline(p, k - 1) + IntervalMs(p)
  }

  lemma {:induction false} DeadlineClosedForm(p: Plan, k: nat)
    ensures Deadline(p, k) == p.phaseOffsetMs + k * IntervalMs(p)
  {
    if k > 0 {
      DeadlineClosedForm(p, k - 1);
      assert (k - 1) * IntervalMs(p) + IntervalMs(p) == k * IntervalMs(p);
    }
  }

  /** How many runs a plan asks for: one without a duration, otherwise
      ceil((duration - phase) / interval), and none when the phase is past the end. */
  function RunCount(p: Plan): nat {
    if p.durationSeconds == 0 then 1
    else if p.phaseOffsetMs >= DurationMs(p) then 0
    else (DurationMs(p) - p.phaseOffsetMs + IntervalMs(p) - 1) / IntervalMs(p)
  }

  /** `k` runs are what the loop performs: the k-th deadline is the first one past the end. */
  ghost predicate IsRunCount(p: Plan, k: nat) {
    if p.durationSeconds == 0 then k == 1
    else Deadline(p, k) >= DurationMs(p) && (k > 0 ==> Deadline(p, k - 1) < DurationMs(p))
  }

  /** The closed form is the only number of runs the loop can perform. */
  lemma RunCountIsFirstDeadlinePastEnd(p: Plan, k: nat)
    ensures IsRunCount(p, k) <==> k == RunCount(p)
  {
    FirstPastEnd(DurationMs(p), p.phaseOffsetMs, IntervalMs(p), k);
    DeadlineClosedForm(p, k);
    if k > 0 {
      DeadlineClosedForm(p, k - 1);
    }
  }

  /** In milliseconds: the loop performs the k runs whose starts, one interval of at least a second
      apart from the phase on, lie before the end; one run without a duration. */
  lemma RunCountInMillis(p: Plan, k: nat)
    ensures p.durationSeconds == 0 ==> (k == RunCount(p) <==> k == 1)
    ensures p.durationSeconds > 0 && p.intervalSeconds > 0 ==>
      (k == RunCount(p) <==>
         && p.phaseOffsetMs + k * (1000 * p.intervalSeconds) >= 1000 * p.durationSeconds
         && (k > 0 ==> p.phaseOffsetMs + (k - 1) * (1000 * p.intervalSeconds) < 1000 * p.durationSeconds))
    ensures p.durationSeconds > 0 && p.intervalSeconds == 0 ==>
      (k == RunCount(p) <==>
         && p.phaseOffsetMs + k * 1000 >= 1000 * p.durationSeconds
         && (k > 0 ==> p.phaseOffsetMs + (k - 1) * 1000 < 1000 * p.durationSeconds))
  {
    RunCountIsFirstDeadlinePastEnd(p, k);
    DeadlineClosedForm(p, k);
    if k > 0 {
      DeadlineClosedForm(p, k - 1);
    }
  }

  lemma {:induction false} DeadlinesAscend(p: Plan, j: nat, k: nat)
    requires j <= k
    ensures Deadline(p, j) <= Deadline(p, k)
  {
    if j < k {
      DeadlinesAscend(p, j, k - 1);
    }
  }

  lemma FirstPastEnd(end: nat, phase: nat, interval: nat, k: nat)
    requires interval > 0
    ensures k == (if phase >= end then 0 else (end - phase + interval - 1) / interval) <==>
            phase + k * interval >= end && (k > 0 ==> phase + (k - 1) * interval < end)
  {
    if phase < end {
      CeilDiv(end - phase, interval, k);
    } else if k > 0 {
      assert (k - 1) * interval >= 0;
    }
  }

  lemma ProductLess(a: int, b: int, d: nat)
    ensures a * d < b * d ==> a < b
  {
  }

  /** `k` intervals of length `d` are the fewest that cover `n`. */
  ghost predicate Covers(n: nat, d: nat, k: nat) {
    k > 0 && k * d >= n && (k - 1) * d < n
  }

  lemma CeilCovers(n: nat, d: nat)
    requires n > 0 && d > 0
    ensures Covers(n, d, (n + d - 1) / d)
  {
  }

  lemma CeilDiv(n: nat, d: nat, k: nat)
    requires n > 0 && d > 0
    ensures k == (n + d - 1) / d <==> Covers(n, d, k)
  {
    var q := (n + d - 1) / d;
    CeilCovers(n, d);
    if Covers(n, d, k) {
      ProductLess(k - 1, q, d);
      ProductLess(q - 1, k, d);
    }
  }

  function Later(a: nat, b: nat): nat {
    if a >= b then a else b
  }

  /** When the k-th run starts: at its deadline, or as soon as the run before it is over.
      `ready` is when the loop is first reached and `took[k]` how long the k-th run lasts. */
  function Start(p: Plan, took: seq<nat>, ready: nat, k: nat): nat
    requires k <= |took|
  {
    if k == 0 then Later(ready, Deadline(p, 0))
    else Later(Start(p, took, ready, k - 1) + took[k - 1], Deadline(p, k))
  }

  /** Time spent in runs j, j+1, ..., k-1. */
  function Work(took: seq<nat>, j: nat, k: nat): nat
    requires j <= k <= |took|
  {
    if j == k then 0 else Work(took, j, k - 1) + took[k - 1]
  }

  /** The k-th run starts at the latest of: any earlier deadline (or its own, or the moment the
      loop was reached) followed by uninterrupted work. */
  lemma {:induction false} StartIsLatestBacklog(p: Plan, took: seq<nat>, ready: nat, k: nat)
    requires k <= |took|
    ensures forall j :: 0 <= j <= k ==> Deadline(p, j) + Work(took, j, k) <= Start(p, took, ready, k)
    ensures ready + Work(took, 0, k) <= Start(p, took, ready, k)
    ensures Start(p, took, ready, k) == ready + Work(took, 0, k)
            || exists j :: 0 <= j <= k && Start(p, took, ready, k) == Deadline(p, j) + Work(took, j, k)
  {
    assert Work(took, k, k) == 0;
    if k == 0 {
      assert Deadline(p, 0) + Work(took, 0, 0) == p.phaseOffsetMs;
    } else {
      StartIsLatestBacklog(p, took, ready, k - 1);
      forall j | 0 <= j < k ensures Work(took, j, k) == Work(took, j, k - 1) + took[k - 1] {
      }
      if Start(p, took, ready, k) != Deadline(p, k) && Start(p, took, ready, k - 1) != ready + Work(took, 0, k - 1) {
        var j :| 0 <= j <= k - 1 && Start(p, took, ready, k - 1) == Deadline(p, j) + Work(took, j, k - 1);
        assert Start(p, took, ready, k) == Deadline(p, j) + Work(took, j, k);
      } else if Start(p, took, ready, k) == Deadline(p, k) {
        assert Start(p, took, ready, k) == Deadline(p, k) + Work(took, k, k);
      }
    }
  }

  function Lateness(p: Plan, took: seq<nat>, ready: nat, k: nat): nat
    requires k <= |took|
  {
    StartIsLatestBacklog(p, took, ready, k);
    assert Deadline(p, k) + Work(took, k, k) <= Start(p, took, ready, k);
    Start(p, took, ready, k) - Deadline(p, k)
  }

  /** Lateness follows a queue's recurrence: a run shortens the backlog by one interval and
      lengthens it by its own duration, never below zero. */
  lemma LatenessRecurrence(p: Plan, took: seq<nat>, ready: nat, k: nat)
    requires k < |took|
    ensures var backlog := Lateness(p, took, ready, k) + took[k];
            Lateness(p, took, ready, k + 1) == if backlog <= IntervalMs(p) then 0 else backlog - IntervalMs(p)
    ensures took[k] <= IntervalMs(p) ==> Lateness(p, took, ready, k + 1) <= Lateness(p, took, ready, k)
  {
  }

  /** Runs no longer than the interval keep a punctual schedule punctual. */
  lemma {:induction false} ShortRunsStayOnTime(p: Plan, took: seq<nat>, ready: nat, k: nat)
    requires k <= |took| && ready <= p.phaseOffsetMs
    requires forall j :: 0 <= j < k ==> took[j] <= IntervalMs(p)
    ensures Start(p, took, ready, k) == Deadline(p, k)
  {
    if k > 0 {
      ShortRunsStayOnTime(p, took, ready, k - 1);
      LatenessRecurrence(p, took, ready, k - 1);
    }
  }
}

/** The main loop of the local vision smoke runner and the report it leaves for its parent. */
module LocalSmoke {
  import opened Schedule
  import opened SmokeSummary

  const RETAINED_RUN_LIMIT: nat := 120

  datatype ChildReport = ChildReport(ok: bool, runs: seq<SmokeRun>, summary: Summary)

  /** The runs a report retains: the latest ones, at most 120, in order. */
  function Retained(h: seq<SmokeRun>): seq<SmokeRun> {
    if |h| <= RETAINED_RUN_LIMIT then h else h[|h| - RETAINED_RUN_LIMIT..]
  }

  /** The report of a run history. */
  function ReportOf(h: seq<SmokeRun>): ChildReport {
    ChildReport(BatchSummary(h).failed == 0, Retained(h), BatchSummary(h))
  }

  /** The window holds the last 120 runs at most. */
  lemma RetainedIsLast120(h: seq<SmokeRun>)
    ensures |h| <= 120 ==> Retained(h) == h
    ensures |h| > 120 ==> |Retained(h)| == 120 && forall i :: 0 <= i < 120 ==> Retained(h)[i] == h[|h| - 120 + i]
  {
  }

  lemma RetainedGrows(h: seq<SmokeRun>, r: SmokeRun)
    ensures var kept := Retained(h);
            Retained(h + [r]) == (if |kept| == RETAINED_RUN_LIMIT then kept[1..] else kept) + [r]
  {
  }

  /** The bounded window and the streaming summary, which the loop feeds together. */
  class Recorder {
    var runs: seq<SmokeRun>
    const accumulator: Accumulator

    ghost predicate Valid()
      reads this, accumulator
    {
      accumulator.Valid() && runs == Retained(accumulator.history)
    }

    ghost function History(): seq<SmokeRun>
      reads this, accumulator
    {
      accumulator.history
    }

    constructor ()
      ensures Valid() && fresh(accumulator) && History() == []
    {
      runs := [];
      accumulator := new Accumulator();
    }

    method Record(run: SmokeRun)
      requires Valid()
      modifies this, accumulator
      ensures Valid() && History() == old(History()) + [run]
    {
      RetainedGrows(accumulator.history, run);
      accumulator.Observe(run);
      if |runs| == RETAINED_RUN_LIMIT {
        runs := runs[1..];
      }
      runs := runs + [run];
    }

    /** The report describes the whole history, although only its tail is retained. */
    method Report() returns (report: ChildReport)
      requires Valid()
      ensures report == ReportOf(History())
    {
      var summary := accumulator.Finish();
      report := ChildReport(summary.failed == 0, runs, summary);
    }
  }

  /** The loop has started `|starts|` runs on schedule, and the last one ended at `now`. */
  ghost predicate OnSchedule(p: Plan, took: seq<nat>, ready: nat, starts: seq<nat>, now: nat) {
    && |starts| <= |took|
    && (forall k {:trigger starts[k]} :: 0 <= k < |starts| ==> starts[k] == Start(p, took, ready, k))
    && now == if starts == [] then ready else starts[|starts| - 1] + took[|starts| - 1]
  }

  lemma NextRunOnSchedule(p: Plan, took: seq<nat>, ready: nat, starts: seq<nat>, now: nat)
    requires OnSchedule(p, took, ready, starts, now) && |starts| < |took|
    ensures var start := Later(now, Deadline(p, |starts|));
      OnSchedule(p, took, ready, starts + [start], start + took[|starts|])
  {
  }

  /** Before the deadline has passed the end, the supply of planned runs is not used up. */
  lemma RunsLeft(p: Plan, k: nat)
    ensures (if p.durationSeconds == 0 then k == 0 else Deadline(p, k) < DurationMs(p)) ==> k < RunCount(p)
  {
    RunCountIsFirstDeadlinePastEnd(p, RunCount(p));
    if k >= RunCount(p) {
      DeadlinesAscend(p, RunCount(p), k);
    }
  }

  /** The loop.  `results[k]` would be the outcome of the k-th run and `took[k]` how long the loop
      body would be busy with it; there may be more of them than the loop asks for. */
  method RunLoop(p: Plan, results: seq<SmokeRun>, took: seq<nat>, ready: nat)
    returns (recorder: Recorder, starts: seq<nat>)
    requires |results| == |took| && RunCount(p) <= |results|
    ensures |starts| == RunCount(p)
    ensures recorder.Valid() && recorder.History() == results[..RunCount(p)]
    ensures forall k {:trigger starts[k]} :: 0 <= k < |starts| ==> starts[k] == Start(p, took, ready, k)
  {
    var now := ready;
    var nextDeadline := p.phaseOffsetMs;
    recorder := new Recorder();
    var iteration := 0;
    starts := [];
    while true
      invariant fresh(recorder) && fresh(recorder.accumulator) && recorder.Valid()
      invariant iteration <= |results| && recorder.History() == results[..iteration]
      invariant nextDeadline == Deadline(p, iteration)
      invariant if p.durationSeconds == 0 then iteration == 0
                else iteration > 0 ==> Deadline(p, iteration - 1) < DurationMs(p)
      invariant |starts| == iteration && OnSchedule(p, took, ready, starts, now)
      decreases DurationMs(p) - nextDeadline
    {
      if p.durationSeconds > 0 && nextDeadline >= DurationMs(p) {
        break;
      }
      RunsLeft(p, iteration);
      NextRunOnSchedule(p, took, ready, starts, now);
      if p.durationSeconds > 0 || p.phaseOffsetMs > 0 {
        now := Later(now, nextDeadline);
      }
      starts := starts + [now];
      now := now + took[iteration];
      recorder.Record(results[iteration]);
      iteration := iteration + 1;
      if p.durationSeconds == 0 {
        break;
      }
      nextDeadline := nextDeadline + IntervalMs(p);
    }
    RunCountIsFirstDeadlinePastEnd(p, iteration);
  }

  lemma ReportIsOkIff(results: seq<SmokeRun>, n: nat)
    requires n <= |results|
    ensures ReportOf(results[..n]).ok <==> forall k :: 0 <= k < n ==> results[k].ok
  {
    NoFailedRun(results[..n]);
    assert forall k :: 0 <= k < n ==> results[..n][k] == results[k];
  }

  /** The whole runner: it reports on the whole history and exits with success exactly when
      no run failed, retained or not. */
  method RunSmoke(p: Plan, results: seq<SmokeRun>, took: seq<nat>, ready: nat)
    returns (report: ChildReport, success: bool, starts: seq<nat>)
    requires |results| == |took| && RunCount(p) <= |results|
    ensures |starts| == RunCount(p)
    ensures forall k {:trigger starts[k]} :: 0 <= k < |starts| ==> starts[k] == Start(p, took, ready, k)
    ensures report == ReportOf(results[..RunCount(p)])
    ensures success <==> forall k :: 0 <= k < RunCount(p) ==> results[k].ok
  {
    var recorder;
    recorder, starts := RunLoop(p, results, took, ready);
    report := recorder.Report();
    success := report.ok;
    ReportIsOkIff(results, RunCount(p));
  }
}
