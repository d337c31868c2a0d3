/**
  The parent of the vision load test: it starts one local smoke runner per camera, merges
  their reports and classifies the result.
 */
module LoadTest {
  import opened Wrappers
  import opened Percentile
  import opened SmokeSummary
  import opened LocalSmoke

  /** What really happened to one camera's child process. */
  datatype Camera =
    | Completed(history: seq<SmokeRun>)               // the child reached its end and wrote its report
    | Aborted(leftover: Option<seq<SmokeRun>>)        // it died; the report of an older history may be lying around
    | NotStarted                                      // it could not be launched

  /** What the parent can see of it. */
  datatype Outcome =
    | Reported(report: ChildReport, success: bool)
    | NoReport
    | LaunchFailed

  function Observe(c: Camera): Outcome {
    match c
    case Completed(h) => Reported(ReportOf(h), ReportOf(h).ok)
    case Aborted(leftover) => if leftover.Some? then Reported(ReportOf(leftover.value), false) else NoReport
    case NotStarted => LaunchFailed
  }

  datatype Tally = Tally(total: nat, passed: nat, failed: nat)

  datatype CameraReport = CameraReport(
    hasError: bool,
    ok: bool,
    tally: Tally,
    p95TotalMs: nat, maxTotalMs: nat,
    p95CaptureMs: nat, p95CaptureReadMs: nat, p95FrameAgeMs: nat, p95DetectorMs: nat, p95IngestMs: nat,
    vlmTotal: nat, vlmPassed: nat, p95VlmMs: nat)

  const SYSTEM_ERROR := CameraReport(true, false, Tally(0, 0, 0), 0, 0, 0, 0, 0, 0, 0, 0, 0, 0)

  function Min(a: nat, b: nat): nat {
    if a <= b then a else b
  }

  /** The counts of a child's summary, corrected by the runs it retained. */
  function MergeTally(summary: Tally, runs: seq<SmokeRun>): Tally {
    var failedRuns := Count(runs, IsFailed);
    var total := Max(summary.total, |runs|);
    Tally(
      total,
      Max(Min(summary.passed, total), if total >= failedRuns then total - failedRuns else 0),
      Max(summary.failed, failedRuns))
  }

  function SummarizeCamera(report: ChildReport, hasError: bool): CameraReport {
    var s, runs := report.summary, report.runs;
    var tally := MergeTally(Tally(s.total, s.passed, s.failed), runs);
    CameraReport(
      hasError, report.ok && tally.failed == 0 && !hasError, tally,
      Max(s.p95TotalMs, P95(Values(runs, TotalMs))), s.maxTotalMs,
      P95(Values(runs, CaptureMs)),
      Max(s.p95CaptureReadMs, P95(Values(runs, CaptureReadMs))),
      Max(s.p95FrameAgeMs, P95(Values(runs, FrameAgeMs))),
      Max(s.p95DetectorMs, P95(Values(runs, DetectorMs))),
      Max(s.p95IngestMs, P95(Values(runs, IngestMs))),
      Max(s.vlmTotal, Count(runs, HasVlmStatus)), Max(s.vlmPassed, Count(runs, VlmActive)),
      Max(s.p95VlmMs, P95(Values(runs, VlmMs))))
  }

  function CameraReportOf(c: Camera): CameraReport {
    match Observe(c)
    case Reported(report, success) => SummarizeCamera(report, !success)
    case NoReport => SYSTEM_ERROR
    case LaunchFailed => SYSTEM_ERROR
  }

  datatype Aggregate = Aggregate(
    tally: Tally,
    p95TotalMs: nat, maxTotalMs: nat,
    p95CaptureMs: nat, p95CaptureReadMs: nat, p95FrameAgeMs: nat, p95DetectorMs: nat, p95IngestMs: nat,
    vlmTotal: nat, vlmPassed: nat, p95VlmMs: nat)

  function AddTally(a: Tally, b: Tally): Tally {
    Tally(a.total + b.total, a.passed + b.passed, a.failed + b.failed)
  }

  /** Counts add up over cameras; peaks are maximised. */
  function SummarizeAggregate(cameras: seq<CameraReport>): Aggregate {
    if cameras == [] then Aggregate(Tally(0, 0, 0), 0, 0, 0, 0, 0, 0, 0, 0, 0, 0)
    else
      var a, c := SummarizeAggregate(cameras[..|cameras| - 1]), cameras[|cameras| - 1];
      Aggregate(
        AddTally(a.tally, c.tally),
        Max(a.p95TotalMs, c.p95TotalMs), Max(a.maxTotalMs, c.maxTotalMs),
        Max(a.p95CaptureMs, c.p95CaptureMs), Max(a.p95CaptureReadMs, c.p95CaptureReadMs),
        Max(a.p95FrameAgeMs, c.p95FrameAgeMs), Max(a.p95DetectorMs, c.p95DetectorMs), Max(a.p95IngestMs, c.p95IngestMs),
        a.vlmTotal + c.vlmTotal, a.vlmPassed + c.vlmPassed, Max(a.p95VlmMs, c.p95VlmMs))
  }

  /** The figures an aggregate maximises. */
  datatype Peak =
    | P95Total | MaxTotal | P95Capture | P95CaptureRead | P95FrameAge | P95Detector | P95Ingest | P95Vlm

  function CameraPeak(c: CameraReport, p: Peak): nat {
    match p
    case P95Total => c.p95TotalMs
    case MaxTotal => c.maxTotalMs
    case P95Capture => c.p95CaptureMs
    case P95CaptureRead => c.p95CaptureReadMs
    case P95FrameAge => c.p95FrameAgeMs
    case P95Detector => c.p95DetectorMs
    case P95Ingest => c.p95IngestMs
    case P95Vlm => c.p95VlmMs
  }

  function AggregatePeak(a: Aggregate, p: Peak): nat {
    match p
    case P95Total => a.p95TotalMs
    case MaxTotal => a.maxTotalMs
    case P95Capture => a.p95CaptureMs
    case P95CaptureRead => a.p95CaptureReadMs
    case P95FrameAge => a.p95FrameAgeMs
    case P95Detector => a.p95DetectorMs
    case P95Ingest => a.p95IngestMs
    case P95Vlm => a.p95VlmMs
  }

  function Rate(passed: nat, total: nat): real {
    if total == 0 then 0.0 else passed as real / total as real
  }

  /** The success rate is a fraction of the runs. */
  lemma RateIsFraction(passed: nat, total: nat)
    ensures total == 0 ==> Rate(passed, total) == 0.0
    ensures total > 0 ==> Rate(passed, total) * total as real == passed as real
  {
  }

  lemma FullRate(n: nat)
    ensures Rate(n, n) == if n == 0 then 0.0 else 1.0
  {
  }

  datatype Classification = Pass | SystemRisk | CaptureBottleneck | AnalyzerBottleneck | CapacityRisk

  function Classify(a: Aggregate, cameras: seq<CameraReport>): Classification {
    if exists i :: 0 <= i < |cameras| && cameras[i].hasError then SystemRisk
    else if Rate(a.tally.passed, a.tally.total) < 0.99 || a.p95TotalMs >= 5000 then
      if (a.p95CaptureMs >= 3000 || a.p95CaptureReadMs >= 3000) && a.p95DetectorMs < 1500 then CaptureBottleneck
      else if a.p95DetectorMs >= 3000 && a.p95CaptureMs < 1500 then AnalyzerBottleneck
      else CapacityRisk
    else Pass
  }

  function CameraReports(cameras: seq<Camera>): (r: seq<CameraReport>)
    ensures |r| == |cameras|
    ensures forall i :: 0 <= i < |r| ==> r[i] == CameraReportOf(cameras[i])
  {
    seq(|cameras|, i requires 0 <= i < |cameras| => CameraReportOf(cameras[i]))
  }

  function Verdict(cameras: seq<Camera>): Classification {
    var reports := CameraReports(cameras);
    Classify(SummarizeAggregate(reports), reports)
  }

  // ----- accounting -----

  function Evicted(h: seq<SmokeRun>): seq<SmokeRun> {
    h[..|h| - |Retained(h)|]
  }

  function HistoryTally(h: seq<SmokeRun>): Tally {
    Tally(|h|, Count(h, IsOk), Count(h, IsFailed))
  }

  /** Merging never loses a run or a failure, and never counts more passed runs than runs,
      whatever report was found. */
  lemma MergeKeepsBounds(summary: Tally, runs: seq<SmokeRun>)
    ensures var t := MergeTally(summary, runs);
      && t.total == (if summary.total >= |runs| then summary.total else |runs|)
      && t.failed >= summary.failed && t.failed >= Count(runs, IsFailed)
      && t.passed <= t.total <= t.passed + t.failed
  {
  }

  /** Merging consistent counts with a window of the same runs. */
  lemma MergeConsistent(summary: Tally, runs: seq<SmokeRun>, f: nat)
    requires f == Count(runs, IsFailed) <= summary.failed
    requires |runs| <= summary.total == summary.passed + summary.failed
    ensures MergeTally(summary, runs) == Tally(summary.total, summary.total - f, summary.failed)
  {
  }

  lemma WindowCounts(h: seq<SmokeRun>)
    ensures Count(h, IsFailed) == Count(Evicted(h), IsFailed) + Count(Retained(h), IsFailed)
    ensures |h| == Count(h, IsOk) + Count(h, IsFailed)
  {
    WindowCount(h, Evicted(h), Retained(h), IsFailed);
    OkOrFailed(h);
  }

  lemma WindowCount(h: seq<SmokeRun>, before: seq<SmokeRun>, window: seq<SmokeRun>, m: Mark)
    requires before == Evicted(h) && window == Retained(h)
    ensures Count(h, m) == Count(before, m) + Count(window, m)
  {
    WindowSplits(h);
    CountSplit(before, window, m);
  }

  lemma WindowSplits(h: seq<SmokeRun>)
    ensures h == Evicted(h) + Retained(h)
  {
  }

  /** The merged counts of one camera: the parent sees every run and every failure, but counts
      a failed run as passed once it has left the retained window. */
  lemma CameraAccounting(h: seq<SmokeRun>)
    ensures var t := MergeTally(HistoryTally(h), Retained(h));
      && t.total == |h|
      && t.failed == Count(h, IsFailed)
      && t.passed == Count(h, IsOk) + Count(Evicted(h), IsFailed)
      && t.passed + t.failed == t.total + Count(Evicted(h), IsFailed)
      && t.passed <= t.total
  {
    WindowCounts(h);
    MergeConsistent(HistoryTally(h), Retained(h), Count(Retained(h), IsFailed));
  }

  /** What the parent's report shows of a child that completed. */
  lemma CompletedReport(h: seq<SmokeRun>, r: CameraReport)
    requires r == CameraReportOf(Completed(h))
    ensures r.hasError <==> Count(h, IsFailed) != 0
    ensures r.tally == MergeTally(HistoryTally(h), Retained(h))
    ensures r.p95TotalMs == Max(P95(Totals(h)), P95(Totals(Retained(h))))
    ensures r.maxTotalMs == Largest(Totals(h))
    ensures r.p95CaptureMs == P95(Values(Retained(h), CaptureMs))
    ensures r.p95CaptureReadMs == Max(P95(Values(h, CaptureReadMs)), P95(Values(Retained(h), CaptureReadMs)))
    ensures r.p95FrameAgeMs == Max(P95(Values(h, FrameAgeMs)), P95(Values(Retained(h), FrameAgeMs)))
    ensures r.p95DetectorMs == Max(P95(Values(h, DetectorMs)), P95(Values(Retained(h), DetectorMs)))
    ensures r.p95IngestMs == Max(P95(Values(h, IngestMs)), P95(Values(Retained(h), IngestMs)))
    ensures r.p95VlmMs == Max(P95(Values(h, VlmMs)), P95(Values(Retained(h), VlmMs)))
  {
  }

  /** VLM runs are counted over the whole history, evicted runs included. */
  lemma CompletedVlmCounts(h: seq<SmokeRun>, r: CameraReport)
    requires r == CameraReportOf(Completed(h))
    ensures r.vlmTotal == Count(h, HasVlmStatus) && r.vlmPassed == Count(h, VlmActive)
  {
    WindowCount(h, Evicted(h), Retained(h), HasVlmStatus);
    WindowCount(h, Evicted(h), Retained(h), VlmActive);
  }

  /** Accounting is conserved exactly when the retained window lost no failure. */
  lemma ConservationIffNoFailureEvicted(h: seq<SmokeRun>)
    ensures var t := CameraReportOf(Completed(h)).tally;
      t.passed + t.failed == t.total <==> forall i :: 0 <= i < |h| - 120 ==> h[i].ok
  {
    CompletedReport(h, CameraReportOf(Completed(h)));
    CameraAccounting(h);
    NoFailedRun(Evicted(h));
    assert forall i :: 0 <= i < |Evicted(h)| ==> Evicted(h)[i] == h[i];
  }

  /** Such histories exist: one failure, then as many good runs as the window retains. */
  lemma EvictedFailureCountsAsPassed(bad: SmokeRun, good: SmokeRun) returns (h: seq<SmokeRun>)
    requires !bad.ok && good.ok
    ensures |h| == 121 && !h[0].ok
    ensures var t := CameraReportOf(Completed(h)).tally; t.failed == 1 && t.passed == t.total == |h|
  {
    var later := seq(RETAINED_RUN_LIMIT, _ => good);
    h := [bad] + later;
    assert Evicted(h) == [bad] && Retained(h) == later;
    CompletedReport(h, CameraReportOf(Completed(h)));
    CameraAccounting(h);
    CountSplit([bad], later, IsFailed);
    NoFailedRun(later);
    OneFailure(bad);
    OkOrFailed(h);
  }

  lemma OneFailure(bad: SmokeRun)
    requires !bad.ok
    ensures Count([bad], IsFailed) == 1
  {
    assert [bad][..0] == [];
  }

  /** The history whose report the parent reads. */
  function ReportedHistory(c: Camera): Option<seq<SmokeRun>> {
    match c
    case Completed(h) => Some(h)
    case Aborted(leftover) => leftover
    case NotStarted => None
  }

  function EvictedFailures(cameras: seq<Camera>): nat {
    if cameras == [] then 0
    else
      var h := ReportedHistory(cameras[|cameras| - 1]);
      EvictedFailures(cameras[..|cameras| - 1]) + if h.Some? then Count(Evicted(h.value), IsFailed) else 0
  }

  lemma CameraTally(c: Camera)
    ensures CameraReportOf(c).tally ==
      var h := ReportedHistory(c);
      if h.Some? then MergeTally(HistoryTally(h.value), Retained(h.value)) else Tally(0, 0, 0)
  {
  }

  /** The same surplus over all cameras, left-over reports of aborted children included. */
  lemma {:induction false} AggregateAccounting(cameras: seq<Camera>)
    ensures var t := SummarizeAggregate(CameraReports(cameras)).tally;
      t.passed + t.failed == t.total + EvictedFailures(cameras)
  {
    if cameras != [] {
      var last := |cameras| - 1;
      AggregateAccounting(cameras[..last]);
      assert CameraReports(cameras)[..last] == CameraReports(cameras[..last]);
      CameraTally(cameras[last]);
      if ReportedHistory(cameras[last]).Some? {
        CameraAccounting(ReportedHistory(cameras[last]).value);
      }
    }
  }

  // ----- what a pass means -----

  function Totals(h: seq<SmokeRun>): seq<nat> {
    Values(h, TotalMs)
  }

  /** A child that completed without any failed run, fast both overall and in its window. */
  ghost predicate Healthy(c: Camera) {
    && c.Completed?
    && (forall i :: 0 <= i < |c.history| ==> c.history[i].ok)
    && P95(Totals(c.history)) < 5000
    && P95(Totals(Retained(c.history))) < 5000
  }

  ghost predicate HasRun(c: Camera) {
    c.Completed? && c.history != []
  }

  /** A report of an error-free camera whose percentile meets the target. */
  ghost predicate GoodReport(r: CameraReport) {
    !r.hasError && r.p95TotalMs < 5000
  }

  lemma GoodReportIffHealthy(c: Camera, r: CameraReport)
    requires r == CameraReportOf(c)
    ensures GoodReport(r) <==> Healthy(c)
    ensures !r.hasError ==> r.tally.passed == r.tally.total && (r.tally.total > 0 <==> HasRun(c))
  {
    if c.Completed? {
      CompletedReport(c.history, r);
      CameraAccounting(c.history);
      NoFailedRun(c.history);
    }
  }

  lemma {:induction false} AggregateOfErrorFree(reports: seq<CameraReport>)
    requires forall i :: 0 <= i < |reports| ==> reports[i].tally.passed == reports[i].tally.total
    ensures var t := SummarizeAggregate(reports).tally;
      && t.passed == t.total
      && (t.total > 0 <==> exists i :: 0 <= i < |reports| && reports[i].tally.total > 0)
  {
    if reports != [] {
      var last := |reports| - 1;
      AggregateOfErrorFree(reports[..last]);
      if exists i :: 0 <= i < last && reports[i].tally.total > 0 {
        var i :| 0 <= i < last && reports[i].tally.total > 0;
        assert reports[..last][i].tally.total > 0;
      }
    }
  }

  /** Each peak of the aggregate is the largest of the cameras'. */
  lemma {:induction false} AggregateIsMaximum(reports: seq<CameraReport>, p: Peak, bound: nat)
    requires bound > 0
    ensures AggregatePeak(SummarizeAggregate(reports), p) < bound
            <==> forall i :: 0 <= i < |reports| ==> CameraPeak(reports[i], p) < bound
  {
    if reports != [] {
      var last := |reports| - 1;
      AggregateIsMaximum(reports[..last], p, bound);
      assert forall i :: 0 <= i < last ==> reports[..last][i] == reports[i];
    }
  }

  /** The verdict in terms of the camera reports, whose error-free ones count every run as passed. */
  lemma PassInReports(reports: seq<CameraReport>)
    requires forall i :: 0 <= i < |reports| && !reports[i].hasError ==> reports[i].tally.passed == reports[i].tally.total
    ensures Classify(SummarizeAggregate(reports), reports) == Pass <==>
      && (forall i :: 0 <= i < |reports| ==> GoodReport(reports[i]))
      && (exists i :: 0 <= i < |reports| && reports[i].tally.total > 0)
  {
    AggregateIsMaximum(reports, P95Total, 5000);
    assert forall i :: 0 <= i < |reports| ==> CameraPeak(reports[i], P95Total) == reports[i].p95TotalMs;
    if forall i :: 0 <= i < |reports| ==> !reports[i].hasError {
      AggregateOfErrorFree(reports);
      var t := SummarizeAggregate(reports).tally;
      FullRate(t.total);
    }
  }

  /** Exactly when the parent says `pass`, whatever its children did. */
  lemma PassCharacterized(cameras: seq<Camera>)
    ensures Verdict(cameras) == Pass <==>
      && (forall i :: 0 <= i < |cameras| ==> Healthy(cameras[i]))
      && (exists i :: 0 <= i < |cameras| && HasRun(cameras[i]))
  {
    var reports := CameraReports(cameras);
    forall i | 0 <= i < |cameras|
      ensures GoodReport(reports[i]) <==> Healthy(cameras[i])
      ensures !reports[i].hasError ==>
        reports[i].tally.passed == reports[i].tally.total && (reports[i].tally.total > 0 <==> HasRun(cameras[i]))
    {
      GoodReportIffHealthy(cameras[i], reports[i]);
    }
    PassInReports(reports);
  }

  // ----- the other verdicts -----

  /** Some camera's figure reaches the bound. */
  ghost predicate Reaches(reports: seq<CameraReport>, p: Peak, bound: nat) {
    exists i :: 0 <= i < |reports| && CameraPeak(reports[i], p) >= bound
  }

  lemma AggregateReaches(reports: seq<CameraReport>, p: Peak, bound: nat)
    requires bound > 0
    ensures AggregatePeak(SummarizeAggregate(reports), p) >= bound <==> Reaches(reports, p, bound)
  {
    AggregateIsMaximum(reports, p, bound);
  }

  /** Without errors `pass` takes 99 percent of the runs, at least one, and every percentile below
      five seconds. */
  lemma PassTakesNinetyNinePercent(reports: seq<CameraReport>)
    requires forall i :: 0 <= i < |reports| ==> !reports[i].hasError
    ensures var t := SummarizeAggregate(reports).tally;
      Classify(SummarizeAggregate(reports), reports) == Pass <==>
        t.total > 0 && 100 * t.passed >= 99 * t.total && !Reaches(reports, P95Total, 5000)
  {
    AggregateReaches(reports, P95Total, 5000);
    var t := SummarizeAggregate(reports).tally;
    RateAtLeast(t.passed, t.total);
  }

  lemma RateAtLeast(passed: nat, total: nat)
    ensures Rate(passed, total) >= 0.99 <==> total > 0 && 100 * passed >= 99 * total
  {
    if total > 0 {
      RateIsFraction(passed, total);
      ScaledBound(Rate(passed, total), total as real, passed as real);
    }
  }

  lemma ScaledBound(r: real, t: real, p: real)
    requires t > 0.0 && r * t == p
    ensures r >= 0.99 <==> 100.0 * p >= 99.0 * t
  {
    assert (r - 0.99) * t == p - 0.99 * t;
    if r >= 0.99 {
      assert (r - 0.99) * t >= 0.0;
    } else {
      assert (0.99 - r) * t > 0.0;
    }
  }

  /** VLM counts add up over cameras. */
  function VlmTotals(reports: seq<CameraReport>): (nat, nat) {
    if reports == [] then (0, 0)
    else (reports[0].vlmTotal + VlmTotals(reports[1..]).0, reports[0].vlmPassed + VlmTotals(reports[1..]).1)
  }

  lemma {:induction false} VlmTotalsGrow(reports: seq<CameraReport>, r: CameraReport)
    ensures VlmTotals(reports + [r]) == (VlmTotals(reports).0 + r.vlmTotal, VlmTotals(reports).1 + r.vlmPassed)
  {
    if reports == [] {
      assert (reports + [r])[1..] == [];
    } else {
      assert (reports + [r])[1..] == reports[1..] + [r];
      VlmTotalsGrow(reports[1..], r);
    }
  }

  lemma {:induction false} AggregateVlmTotals(reports: seq<CameraReport>)
    ensures var a := SummarizeAggregate(reports); (a.vlmTotal, a.vlmPassed) == VlmTotals(reports)
  {
    if reports != [] {
      var last := |reports| - 1;
      AggregateVlmTotals(reports[..last]);
      assert reports == reports[..last] + [reports[last]];
      VlmTotalsGrow(reports[..last], reports[last]);
    }
  }

  ghost predicate ReportsSlowCapture(reports: seq<CameraReport>) {
    (Reaches(reports, P95Capture, 3000) || Reaches(reports, P95CaptureRead, 3000)) && !Reaches(reports, P95Detector, 1500)
  }

  ghost predicate ReportsSlowAnalyzer(reports: seq<CameraReport>) {
    Reaches(reports, P95Detector, 3000) && !Reaches(reports, P95Capture, 1500)
  }

  /** Every class in terms of the camera reports. */
  lemma ClassInReports(reports: seq<CameraReport>, verdict: Classification)
    requires verdict == Classify(SummarizeAggregate(reports), reports)
    ensures verdict == SystemRisk <==> exists i :: 0 <= i < |reports| && reports[i].hasError
    ensures verdict == CaptureBottleneck <==> verdict != SystemRisk && verdict != Pass && ReportsSlowCapture(reports)
    ensures verdict == AnalyzerBottleneck <==> verdict != SystemRisk && verdict != Pass && ReportsSlowAnalyzer(reports)
    ensures verdict == CapacityRisk <==>
      verdict != SystemRisk && verdict != Pass && !ReportsSlowCapture(reports) && !ReportsSlowAnalyzer(reports)
  {
    AggregateReaches(reports, P95Capture, 3000);
    AggregateReaches(reports, P95Capture, 1500);
    AggregateReaches(reports, P95CaptureRead, 3000);
    AggregateReaches(reports, P95Detector, 3000);
    AggregateReaches(reports, P95Detector, 1500);
  }

  /** A child that completed without any failed run. */
  ghost predicate Clean(c: Camera) {
    c.Completed? && forall i :: 0 <= i < |c.history| ==> c.history[i].ok
  }

  ghost predicate AllClean(cameras: seq<Camera>) {
    forall i :: 0 <= i < |cameras| ==> Clean(cameras[i])
  }

  /** The percentile of a measurement reaches the bound, over the history or in the window. */
  ghost predicate Slow(c: Camera, m: Metric, bound: nat) {
    c.Completed? && (P95(Values(c.history, m)) >= bound || P95(Values(Retained(c.history), m)) >= bound)
  }

  /** Of the capture time only the window is kept. */
  ghost predicate SlowCapture(c: Camera, bound: nat) {
    c.Completed? && P95(Values(Retained(c.history), CaptureMs)) >= bound
  }

  lemma ErrorIffNotClean(c: Camera, r: CameraReport)
    requires r == CameraReportOf(c)
    ensures r.hasError <==> !Clean(c)
  {
    if c.Completed? {
      NoFailedRun(c.history);
    }
  }

  ghost predicate AnySlow(cameras: seq<Camera>, m: Metric, bound: nat) {
    exists i :: 0 <= i < |cameras| && Slow(cameras[i], m, bound)
  }

  ghost predicate AnySlowCapture(cameras: seq<Camera>, bound: nat) {
    exists i :: 0 <= i < |cameras| && SlowCapture(cameras[i], bound)
  }

  /** What singles out a slow capture: it, but no detector, is slow. */
  ghost predicate CaptureIsSlow(cameras: seq<Camera>) {
    (AnySlowCapture(cameras, 3000) || AnySlow(cameras, CaptureReadMs, 3000)) && !AnySlow(cameras, DetectorMs, 1500)
  }

  /** What singles out a slow analyzer: a detector, but no capture, is slow. */
  ghost predicate AnalyzerIsSlow(cameras: seq<Camera>) {
    AnySlow(cameras, DetectorMs, 3000) && !AnySlowCapture(cameras, 1500)
  }

  lemma PeaksOfCamera(c: Camera, r: CameraReport, bound: nat)
    requires c.Completed? && r == CameraReportOf(c)
    ensures CameraPeak(r, P95Capture) >= bound <==> SlowCapture(c, bound)
    ensures CameraPeak(r, P95CaptureRead) >= bound <==> Slow(c, CaptureReadMs, bound)
    ensures CameraPeak(r, P95Detector) >= bound <==> Slow(c, DetectorMs, bound)
  {
    CompletedReport(c.history, r);
  }

  /** The i-th report agrees with the i-th camera. */
  ghost predicate PeaksAgree(cameras: seq<Camera>, reports: seq<CameraReport>, bound: nat, i: nat)
    requires i < |cameras| == |reports|
  {
    && (CameraPeak(reports[i], P95Capture) >= bound <==> SlowCapture(cameras[i], bound))
    && (CameraPeak(reports[i], P95CaptureRead) >= bound <==> Slow(cameras[i], CaptureReadMs, bound))
    && (CameraPeak(reports[i], P95Detector) >= bound <==> Slow(cameras[i], DetectorMs, bound))
  }

  lemma AllPeaksAgree(cameras: seq<Camera>, reports: seq<CameraReport>, bound: nat)
    requires reports == CameraReports(cameras) && AllClean(cameras)
    ensures forall i :: 0 <= i < |cameras| ==> PeaksAgree(cameras, reports, bound, i)
  {
    forall i | 0 <= i < |cameras| ensures PeaksAgree(cameras, reports, bound, i) {
      assert Clean(cameras[i]);
      PeaksOfCamera(cameras[i], reports[i], bound);
    }
  }

  lemma ReachedByCameras(cameras: seq<Camera>, reports: seq<CameraReport>, bound: nat)
    requires |cameras| == |reports| && forall i :: 0 <= i < |cameras| ==> PeaksAgree(cameras, reports, bound, i)
    ensures Reaches(reports, P95Capture, bound) <==> AnySlowCapture(cameras, bound)
    ensures Reaches(reports, P95CaptureRead, bound) <==> AnySlow(cameras, CaptureReadMs, bound)
    ensures Reaches(reports, P95Detector, bound) <==> AnySlow(cameras, DetectorMs, bound)
  {
    forall i | 0 <= i < |cameras|
      ensures CameraPeak(reports[i], P95Capture) >= bound <==> SlowCapture(cameras[i], bound)
      ensures CameraPeak(reports[i], P95CaptureRead) >= bound <==> Slow(cameras[i], CaptureReadMs, bound)
      ensures CameraPeak(reports[i], P95Detector) >= bound <==> Slow(cameras[i], DetectorMs, bound)
    {
      assert PeaksAgree(cameras, reports, bound, i);
    }
  }

  lemma SlownessAgrees(cameras: seq<Camera>, reports: seq<CameraReport>)
    requires reports == CameraReports(cameras) && AllClean(cameras)
    ensures ReportsSlowCapture(reports) <==> CaptureIsSlow(cameras)
    ensures ReportsSlowAnalyzer(reports) <==> AnalyzerIsSlow(cameras)
  {
    AllPeaksAgree(cameras, reports, 3000);
    ReachedByCameras(cameras, reports, 3000);
    AllPeaksAgree(cameras, reports, 1500);
    ReachedByCameras(cameras, reports, 1500);
  }

  /** A camera is reported as good exactly when its child completed without any failed run. */
  lemma OkIffClean(c: Camera, r: CameraReport)
    requires r == CameraReportOf(c)
    ensures r.ok <==> Clean(c)
  {
    if c.Completed? {
      CameraAccounting(c.history);
      NoFailedRun(c.history);
    }
  }

  lemma ErrorsAgree(cameras: seq<Camera>, reports: seq<CameraReport>)
    requires reports == CameraReports(cameras)
    ensures (exists i :: 0 <= i < |reports| && reports[i].hasError) <==> !AllClean(cameras)
  {
    forall i | 0 <= i < |cameras| ensures reports[i].hasError <==> !Clean(cameras[i]) {
      ErrorIffNotClean(cameras[i], reports[i]);
    }
  }

  /** Exactly when each verdict is given, in terms of what the children did; `PassCharacterized`
      says the same of `pass`. */
  lemma VerdictCharacterized(cameras: seq<Camera>, verdict: Classification)
    requires verdict == Verdict(cameras)
    ensures verdict == SystemRisk <==> !AllClean(cameras)
    ensures verdict == CaptureBottleneck <==> AllClean(cameras) && verdict != Pass && CaptureIsSlow(cameras)
    ensures verdict == AnalyzerBottleneck <==> AllClean(cameras) && verdict != Pass && AnalyzerIsSlow(cameras)
    ensures verdict == CapacityRisk <==>
      AllClean(cameras) && verdict != Pass && !CaptureIsSlow(cameras) && !AnalyzerIsSlow(cameras)
  {
    var reports := CameraReports(cameras);
    ClassInReports(reports, verdict);
    ErrorsAgree(cameras, reports);
    if AllClean(cameras) {
      SlownessAgrees(cameras, reports);
    }
  }

  function Histories(cameras: seq<Camera>): (r: seq<seq<nat>>)
    requires forall i :: 0 <= i < |cameras| ==> cameras[i].Completed?
    ensures |r| == |cameras|
    ensures forall i :: 0 <= i < |r| ==> r[i] == Totals(cameras[i].history)
  {
    seq(|cameras|, i requires 0 <= i < |cameras| => Totals(cameras[i].history))
  }

  lemma PoolOfHealthy(cameras: seq<Camera>)
    requires forall i :: 0 <= i < |cameras| ==> Healthy(cameras[i])
    ensures forall i :: 0 <= i < |cameras| ==> cameras[i].Completed?
    ensures P95(Pool(Histories(cameras))) < 5000
  {
    forall i | 0 <= i < |cameras| ensures cameras[i].Completed? && P95(Totals(cameras[i].history)) <= 4999 {
      assert Healthy(cameras[i]);
    }
    PooledP95(Histories(cameras), 4999);
  }

  /** End to end: `pass` means that no run of any camera failed, evicted ones included, that
      some run happened, and that the 95th percentile of all runs pooled is below the target. */
  lemma PassMeansHealthyPool(cameras: seq<Camera>)
    requires Verdict(cameras) == Pass
    ensures forall i :: 0 <= i < |cameras| ==>
      cameras[i].Completed? && forall k :: 0 <= k < |cameras[i].history| ==> cameras[i].history[k].ok
    ensures exists i :: 0 <= i < |cameras| && HasRun(cameras[i])
    ensures P95(Pool(Histories(cameras))) < 5000
  {
    PassCharacterized(cameras);
    PoolOfHealthy(cameras);
  }
}
