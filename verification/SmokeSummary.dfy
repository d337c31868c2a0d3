/**
  The streaming summary of the local vision smoke runner, proved equal to a batch summary of
  the whole run history.  Sums saturate at the machine's largest integer; run counters never
  reach it, because the runner keeps one vector entry per run.
 */
module SmokeSummary {
  import opened Wrappers
  import opened Percentile

  const MACHINE_MAX: nat := 0xFFFF_FFFF_FFFF_FFFF

  datatype SmokeRun = SmokeRun(
    ok: bool,
    totalMs: nat,
    captureMs: nat,
    detectorMs: Option<nat>,
    ingestMs: Option<nat>,
    captureReadMs: Option<nat>,
    frameAgeMs: Option<nat>,
    vlmMs: Option<nat>,
    detectionCount: Option<nat>,
    vlmStatus: Option<string>)

  /** The measurements a run may carry. */
  datatype Metric = TotalMs | CaptureMs | DetectorMs | IngestMs | CaptureReadMs | FrameAgeMs | VlmMs | Detections

  function Measure(m: Metric, r: SmokeRun): Option<nat> {
    match m
    case TotalMs => Some(r.totalMs)
    case CaptureMs => Some(r.captureMs)
    case DetectorMs => r.detectorMs
    case IngestMs => r.ingestMs
    case CaptureReadMs => r.captureReadMs
    case FrameAgeMs => r.frameAgeMs
    case VlmMs => r.vlmMs
    case Detections => r.detectionCount
  }

  /** The properties of a run that are counted. */
  datatype Mark = IsOk | IsFailed | UnderTwoSeconds | UnderFiveSeconds | HasVlmStatus | VlmActive

  predicate Bears(m: Mark, r: SmokeRun) {
    match m
    case IsOk => r.ok
    case IsFailed => !r.ok
    case UnderTwoSeconds => r.totalMs < 2000
    case UnderFiveSeconds => r.totalMs < 5000
    case HasVlmStatus => r.vlmStatus.Some?
    case VlmActive => r.vlmStatus == Some("active")
  }

  function Clamp(n: nat): nat {
    if n <= MACHINE_MAX then n else MACHINE_MAX
  }

  function SaturatingAdd(a: nat, b: nat): nat {
    Clamp(a + b)
  }

  function Max(a: nat, b: nat): nat {
    if a >= b then a else b
  }

  // ----- batch definitions over a whole history -----

  function Count(h: seq<SmokeRun>, m: Mark): nat {
    if h == [] then 0 else Count(h[..|h| - 1], m) + if Bears(m, h[|h| - 1]) then 1 else 0
  }

  /** The values a run may carry, of the runs that carry one, in order. */
  function Values(h: seq<SmokeRun>, m: Metric): seq<nat> {
    if h == [] then []
    else
      var rest, v := Values(h[..|h| - 1], m), Measure(m, h[|h| - 1]);
      if v.Some? then rest + [v.value] else rest
  }

  function Sum(s: seq<nat>): nat {
    if s == [] then 0 else Sum(s[..|s| - 1]) + s[|s| - 1]
  }

  function Largest(s: seq<nat>): nat {
    if s == [] then 0 else Max(Largest(s[..|s| - 1]), s[|s| - 1])
  }

  /** The sum wraps around at the machine width, as it does in a release build. */
  function Average(s: seq<nat>): nat {
    if s == [] then 0 else (Sum(s) % (MACHINE_MAX + 1)) / |s|
  }

  datatype Summary = Summary(
    total: nat, passed: nat, failed: nat,
    averageTotalMs: nat, p95TotalMs: nat,
    averageDetectorMs: nat, p95DetectorMs: nat,
    averageIngestMs: nat, p95IngestMs: nat,
    averageCaptureReadMs: nat, averageFrameAgeMs: nat,
    p95CaptureReadMs: nat, p95FrameAgeMs: nat,
    maxTotalMs: nat, under2s: nat, under5s: nat,
    detectionRuns: nat, detectionCount: nat,
    vlmTotal: nat, vlmPassed: nat, vlmDegraded: nat,
    averageVlmMs: nat, p95VlmMs: nat)

  // ----- how the batch definitions grow by one run -----

  lemma SumAppend(s: seq<nat>, v: nat)
    ensures Clamp(Sum(s + [v])) == SaturatingAdd(Clamp(Sum(s)), v)
    ensures Largest(s + [v]) == Max(Largest(s), v)
  {
  }

  lemma {:induction false} CountSplit(a: seq<SmokeRun>, b: seq<SmokeRun>, m: Mark)
    ensures Count(a + b, m) == Count(a, m) + Count(b, m)
  {
    if b == [] {
      assert a + b == a;
    } else {
      var last := |b| - 1;
      assert (a + b)[..|a + b| - 1] == a + b[..last];
      CountSplit(a, b[..last], m);
    }
  }

  lemma {:induction false} OkOrFailed(h: seq<SmokeRun>)
    ensures Count(h, IsOk) + Count(h, IsFailed) == |h|
  {
    if h != [] {
      OkOrFailed(h[..|h| - 1]);
    }
  }

  lemma {:induction false} NoFailedRun(h: seq<SmokeRun>)
    ensures Count(h, IsFailed) == 0 <==> forall i :: 0 <= i < |h| ==> h[i].ok
  {
    if h != [] {
      var last := |h| - 1;
      NoFailedRun(h[..last]);
      assert forall i :: 0 <= i < last ==> h[..last][i] == h[i];
    }
  }

  lemma BatchGrows(h: seq<SmokeRun>, r: SmokeRun)
    ensures forall m :: Count(h + [r], m) == if Bears(m, r) then Count(h, m) + 1 else Count(h, m)
    ensures forall m :: Values(h + [r], m) ==
                        if Measure(m, r).Some? then Values(h, m) + [Measure(m, r).value] else Values(h, m)
  {
  }

  datatype Counters = Counters(
    total: nat, passed: nat, failed: nat, under2s: nat, under5s: nat, vlmTotal: nat, vlmPassed: nat)

  function CounterOf(c: Counters, m: Mark): nat {
    match m
    case IsOk => c.passed
    case IsFailed => c.failed
    case UnderTwoSeconds => c.under2s
    case UnderFiveSeconds => c.under5s
    case HasVlmStatus => c.vlmTotal
    case VlmActive => c.vlmPassed
  }

  ghost predicate CountersMatch(c: Counters, h: seq<SmokeRun>) {
    c.total == |h| && forall m :: CounterOf(c, m) == Count(h, m)
  }

  datatype Samples = Samples(
    total: seq<nat>, detector: seq<nat>, ingest: seq<nat>, captureRead: seq<nat>, frameAge: seq<nat>, vlm: seq<nat>)

  /** The measurements that are kept run by run. */
  predicate Kept(m: Metric) {
    !m.CaptureMs? && !m.Detections?
  }

  function SamplesOf(s: Samples, m: Metric): seq<nat>
    requires Kept(m)
  {
    match m
    case TotalMs => s.total
    case DetectorMs => s.detector
    case IngestMs => s.ingest
    case CaptureReadMs => s.captureRead
    case FrameAgeMs => s.frameAge
    case VlmMs => s.vlm
  }

  ghost predicate SamplesMatch(s: Samples, h: seq<SmokeRun>) {
    forall m :: Kept(m) ==> SamplesOf(s, m) == Values(h, m)
  }

  datatype Totals = Totals(sumTotalMs: nat, maxTotalMs: nat, detectionCount: nat)

  ghost predicate TotalsMatch(t: Totals, h: seq<SmokeRun>) {
    forall m: Metric ::
      && (m.TotalMs? ==> t.sumTotalMs == Clamp(Sum(Values(h, m))) && t.maxTotalMs == Largest(Values(h, m)))
      && (m.Detections? ==> t.detectionCount == Clamp(Sum(Values(h, m))))
  }

  /** The summary a report shows, from what was counted, summed and kept. */
  function Summarize(c: Counters, t: Totals, s: Samples): Summary {
    Summary(
      c.total, c.passed, c.failed,
      if c.total == 0 then 0 else t.sumTotalMs / c.total, P95(s.total),
      Average(s.detector), P95(s.detector),
      Average(s.ingest), P95(s.ingest),
      Average(s.captureRead), Average(s.frameAge),
      P95(s.captureRead), P95(s.frameAge),
      t.maxTotalMs, c.under2s, c.under5s,
      |s.detector|, t.detectionCount,
      c.vlmTotal, c.vlmPassed, if c.vlmTotal >= c.vlmPassed then c.vlmTotal - c.vlmPassed else 0,
      Average(s.vlm), P95(s.vlm))
  }

  function BatchCounters(h: seq<SmokeRun>): Counters {
    Counters(|h|, Count(h, IsOk), Count(h, IsFailed), Count(h, UnderTwoSeconds), Count(h, UnderFiveSeconds),
             Count(h, HasVlmStatus), Count(h, VlmActive))
  }

  function BatchTotals(h: seq<SmokeRun>): Totals {
    Totals(Clamp(Sum(Values(h, TotalMs))), Largest(Values(h, TotalMs)), Clamp(Sum(Values(h, Detections))))
  }

  function BatchSamples(h: seq<SmokeRun>): Samples {
    Samples(Values(h, TotalMs), Values(h, DetectorMs), Values(h, IngestMs), Values(h, CaptureReadMs),
            Values(h, FrameAgeMs), Values(h, VlmMs))
  }

  /** The summary of a whole history, computed at once. */
  function BatchSummary(h: seq<SmokeRun>): Summary {
    Summarize(BatchCounters(h), BatchTotals(h), BatchSamples(h))
  }

  /** What the summary of a history shows. */
  lemma SummaryShows(h: seq<SmokeRun>, r: Summary)
    requires r == BatchSummary(h)
    ensures r.total == |h| && r.passed == Count(h, IsOk) && r.failed == Count(h, IsFailed)
    ensures r.under2s == Count(h, UnderTwoSeconds) && r.under5s == Count(h, UnderFiveSeconds)
    ensures r.p95TotalMs == P95(Values(h, TotalMs)) && r.maxTotalMs == Largest(Values(h, TotalMs))
    ensures r.averageDetectorMs == Average(Values(h, DetectorMs)) && r.p95DetectorMs == P95(Values(h, DetectorMs))
    ensures r.averageIngestMs == Average(Values(h, IngestMs)) && r.p95IngestMs == P95(Values(h, IngestMs))
    ensures r.averageCaptureReadMs == Average(Values(h, CaptureReadMs)) && r.p95CaptureReadMs == P95(Values(h, CaptureReadMs))
    ensures r.averageFrameAgeMs == Average(Values(h, FrameAgeMs)) && r.p95FrameAgeMs == P95(Values(h, FrameAgeMs))
    ensures r.averageVlmMs == Average(Values(h, VlmMs)) && r.p95VlmMs == P95(Values(h, VlmMs))
    ensures r.detectionRuns == |Values(h, DetectorMs)| && r.detectionCount == Clamp(Sum(Values(h, Detections)))
    ensures r.vlmTotal == Count(h, HasVlmStatus) && r.vlmPassed == Count(h, VlmActive)
    ensures r.vlmPassed + r.vlmDegraded == r.vlmTotal
    ensures h != [] && Sum(Values(h, TotalMs)) <= MACHINE_MAX ==>
      r.averageTotalMs * |h| <= Sum(Values(h, TotalMs)) < r.averageTotalMs * |h| + |h|
  {
    VlmActiveIsVlm(h);
    if h != [] {
      Division(Clamp(Sum(Values(h, TotalMs))), |h|);
    }
  }

  lemma {:induction false} VlmActiveIsVlm(h: seq<SmokeRun>)
    ensures Count(h, VlmActive) <= Count(h, HasVlmStatus)
  {
    if h != [] {
      VlmActiveIsVlm(h[..|h| - 1]);
    }
  }

  lemma Division(n: nat, d: nat)
    requires d > 0
    ensures n / d * d <= n < n / d * d + d
  {
  }

  /** An average is the sum over the number of values, rounded down. */
  lemma AverageIsFloor(s: seq<nat>)
    ensures s == [] ==> Average(s) == 0
    ensures s != [] && Sum(s) <= 0xFFFF_FFFF_FFFF_FFFF ==> Average(s) * |s| <= Sum(s) < Average(s) * |s| + |s|
  {
    if s != [] {
      Division(Sum(s) % (MACHINE_MAX + 1), |s|);
    }
  }

  /** Every run carries a total and a capture time. */
  lemma {:induction false} CaptureValues(h: seq<SmokeRun>)
    ensures |Values(h, CaptureMs)| == |Values(h, TotalMs)| == |h|
    ensures forall i :: 0 <= i < |h| ==> Values(h, CaptureMs)[i] == h[i].captureMs && Values(h, TotalMs)[i] == h[i].totalMs
  {
    if h != [] {
      var last := |h| - 1;
      CaptureValues(h[..last]);
      assert forall i :: 0 <= i < last ==> h[..last][i] == h[i];
    }
  }

  /** The streaming accumulator.  `history` is what it has observed. */
  class Accumulator {
    var counters: Counters
    var totals: Totals
    var samples: Samples
    ghost var history: seq<SmokeRun>

    /** Every field is the batch value over the observed history. */
    ghost predicate Valid()
      reads this
    {
      CountersMatch(counters, history) && TotalsMatch(totals, history) && SamplesMatch(samples, history)
    }

    constructor ()
      ensures Valid() && history == []
    {
      counters := Counters(0, 0, 0, 0, 0, 0, 0);
      totals := Totals(0, 0, 0);
      samples := Samples([], [], [], [], [], []);
      history := [];
    }

    method Observe(run: SmokeRun)
      requires Valid()
      modifies this
      ensures Valid() && history == old(history) + [run]
    {
      counters := CountRun(counters, run, history);
      totals := AddTotals(totals, run, history);
      samples := Collect(samples, run, history);
      history := history + [run];
    }

    /** The part of `Observe` that counts. */
    static method CountRun(was: Counters, run: SmokeRun, ghost h: seq<SmokeRun>) returns (c: Counters)
      requires CountersMatch(was, h)
      ensures CountersMatch(c, h + [run])
    {
      BatchGrows(h, run);
      c := was.(total := was.total + 1);
      if run.ok {
        c := c.(passed := c.passed + 1);
      } else {
        c := c.(failed := c.failed + 1);
      }
      if run.totalMs < 2000 {
        c := c.(under2s := c.under2s + 1);
      }
      if run.totalMs < 5000 {
        c := c.(under5s := c.under5s + 1);
      }
      if run.vlmStatus.Some? {
        c := c.(vlmTotal := c.vlmTotal + 1);
        if run.vlmStatus == Some("active") {
          c := c.(vlmPassed := c.vlmPassed + 1);
        }
      }
      assert forall m :: CounterOf(c, m) == CounterOf(was, m) + if Bears(m, run) then 1 else 0;
    }

    /** The part of `Observe` that sums and maximises. */
    static method AddTotals(was: Totals, run: SmokeRun, ghost h: seq<SmokeRun>) returns (t: Totals)
      requires TotalsMatch(was, h)
      ensures TotalsMatch(t, h + [run])
    {
      BatchGrows(h, run);
      SumAppend(Values(h, TotalMs), run.totalMs);
      t := was.(sumTotalMs := SaturatingAdd(was.sumTotalMs, run.totalMs),
                maxTotalMs := Max(was.maxTotalMs, run.totalMs));
      if run.detectionCount.Some? {
        SumAppend(Values(h, Detections), run.detectionCount.value);
        t := t.(detectionCount := SaturatingAdd(t.detectionCount, run.detectionCount.value));
      }
    }

    /** The part of `Observe` that keeps the measurements. */
    static method Collect(was: Samples, run: SmokeRun, ghost h: seq<SmokeRun>) returns (s: Samples)
      requires SamplesMatch(was, h)
      ensures SamplesMatch(s, h + [run])
    {
      BatchGrows(h, run);
      s := was.(total := was.total + [run.totalMs]);
      if run.detectorMs.Some? {
        s := s.(detector := s.detector + [run.detectorMs.value]);
      }
      if run.ingestMs.Some? {
        s := s.(ingest := s.ingest + [run.ingestMs.value]);
      }
      if run.captureReadMs.Some? {
        s := s.(captureRead := s.captureRead + [run.captureReadMs.value]);
      }
      if run.frameAgeMs.Some? {
        s := s.(frameAge := s.frameAge + [run.frameAgeMs.value]);
      }
      if run.vlmMs.Some? {
        s := s.(vlm := s.vlm + [run.vlmMs.value]);
      }
      assert forall m :: Kept(m) ==>
        SamplesOf(s, m) == if Measure(m, run).Some? then SamplesOf(was, m) + [Measure(m, run).value] else SamplesOf(was, m);
    }

    /** The streaming summary is the batch summary of everything observed. */
    method Finish() returns (r: Summary)
      requires Valid()
      ensures r == BatchSummary(history)
    {
      MatchingCounters(counters, history);
      MatchingSamples(samples, history);
      assert totals == BatchTotals(history);
      r := Summarize(counters, totals, samples);
    }
  }

  lemma MatchingCounters(c: Counters, h: seq<SmokeRun>)
    requires CountersMatch(c, h)
    ensures c == BatchCounters(h)
  {
  }

  lemma MatchingSamples(s: Samples, h: seq<SmokeRun>)
    requires SamplesMatch(s, h)
    ensures s == BatchSamples(h)
  {
  }
}
