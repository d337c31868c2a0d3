# HarborBeacon: verified models of the vision load test, the detector, the local model runtime and RTSP text

This Dafny 4.11 project models the parts of HarborBeacon that hold an algorithm or a protocol, and proves what they
promise.  `dafny verify dfyconfig.toml` verifies everything.

| file | what it models |
|---|---|
| `VlmQueue.dfy` | the lock file and counter file through which several smoke runners share one VLM budget, as a state machine over atomic file operations |
| `Percentile.dfy` | the nearest-rank 95th percentile of both runners |
| `SmokeSummary.dfy` | the streaming summary of the local runner against a batch definition |
| `LocalSmoke.dfy` | its fixed-rate schedule (module `Schedule`), its main loop and its report (module `LocalSmoke`) |
| `PhaseOffsets.dfy` | how the parent staggers its cameras |
| `LoadTest.dfy` | how the parent merges the reports and classifies the result |
| `Letterbox.dfy`, `Nms.dfy`, `Detections.dfy` | YOLO pre- and post-processing over exact reals |
| `ChatRuntime.dfy` | cached autoregressive decoding and the lazily loaded runtime |
| `CompletionText.dfy`, `ShortAnswers.dfy`, `CompletionSanitizer.dfy` | the completion sanitiser |
| `Activation.dfy` | concurrent activations of models in the shared service |
| `StreamWorker.dfy` | the single-slot frame monitor and the consecutive-detection counters |
| `Text.dfy` | searching, trimming and splitting text |
| `RtspFraming.dfy`, `RtspUserinfo.dfy` | reading one RTSP response from arbitrary pieces, and credentials in RTSP URLs |

Main results: every interleaving of the VLM queue is safe until somebody unlinks the lock file of a process that still
holds it, and every holder's lock file stays in place exactly until then (`VlmQueue.SafeUntilTheft`,
`VlmQueue.LocksInPlaceIffNoTheft`), which never happens while no holder dies and no hold is too long
(`VlmQueue.EveryRunIsSafe`); every verdict of the load test is characterised exactly, and `pass` means
a healthy pool of runs across two programs (`LoadTest.PassCharacterized`, `LoadTest.VerdictCharacterized`,
`LoadTest.PassMeansHealthyPool`); the suppression loop computes the only
greedy selection and the final detections leave nothing out without a reason (`Detections.FormatDetections`); cached
decoding equals full recomputation, answers are exactly the chains of draws from the model (`ChatRuntime.AnswerIsDrawn`,
`ChatRuntime.DrawnIsAnswer`), and a backend that serves any history of requests answers each as if it were the
only one (`ChatRuntime.GenerateWithRuntime`, `ChatRuntime.ServeAll`, `ChatRuntime.RepliesForgetHistory`); overlapping
activations are exactly those that drop a publication from what the configuration is built on
(`Activation.ChainCompleteIff`), and the configuration itself loses something exactly when the chain and the full list
disagree on the backend or on the kind of model the last publication did not activate (`Activation.NothingLostIff`);
a completion begins with a thinking tag exactly when one stands behind a preamble (`CompletionSanitizer.LeadingTagIff`);
every split of an RTSP stream gives the same message unless the declared length overflows
(`RtspFraming.SplitIndependent`, `RtspFraming.OverflowCutsBody`).

Conventions: history variables (`grants`, `owner`, `published`, `observed`, ...) are fields no step reads.  Clocks,
network, camera, model weights and child processes are parameters.  Integers are unbounded; where the machine width
matters it is written out (`Clamp`, `SaturatingMul`, `USIZE_MODULUS`).

Where code and expectation differ, the model follows the code:

- The parent counts a failed run as passed once the child's 120-run window has dropped it
  (`LoadTest.CameraAccounting`); `pass` is still sound because the child's exit status covers the whole history.
- A crashed or slow lock holder lets two processes into a request (`VlmQueue.CrashedHolderBreaksExclusion`,
  `VlmQueue.SlowHolderBreaksExclusion`).
- Two overlapping activations can lose one (`Activation.OverlapLosesAnActivation`), but need not
  (`Activation.OverlapMayLoseNothing`).
- The focus search skips occurrences that overlap an earlier one, so a nearer option can be passed over
  (`ShortAnswers.OverlapMissesNearest`); it finds every occurrence exactly of phrases that cannot overlap themselves
  (`ShortAnswers.ListsAllIffBorderless`).
- A thinking tag behind a preamble word is left in the completion (`CompletionSanitizer.TagSurvives`).
- Automatic phases coincide when the product that computes them saturates (`PhaseOffsets.SaturatedPhasesCoincide`).
- A Content-Length close to the largest machine integer makes the reader return without the body
  (`RtspFraming.OverflowingResponses`).
- Userinfo escaping writes the code point of a non-ASCII character, not its UTF-8 bytes
  (`RtspUserinfo.CredentialsSurviveIffAscii`).
- Very thin images would be resized to nothing, which is refused (`Letterbox.ResizeSurvivesIff`).

## Model

| member | source | states |
|---|---|---|
| `VlmQueue.SafeUntilTheft` | src/bin/harbornavi_k3_local_vision_smoke.rs:649-733 | in every interleaving of any number of processes, holder crashes and arbitrarily long holds included, every state before the first unlinking of a live lock file is safe: at most one process is between lock and release, the counter is its start value plus the slots granted, sample indices are consecutive without repeats, no grant exceeds the grantee's budget, no process exceeds its own limit, and the processes' counts add up to the grants |
| `VlmQueue.LocksInPlaceIffNoTheft` | src/bin/harbornavi_k3_local_vision_smoke.rs:706-741 | every holder's lock file is in place throughout a run if and only if no step unlinks the lock file of a process that still holds its guard |
| `VlmQueue.EveryRunIsSafe` | src/bin/harbornavi_k3_local_vision_smoke.rs:649-733 | hence all of that holds throughout every run in which no holder dies and no hold outlasts 600 s |
| `VlmQueue.StaleLockIsRecovered` | src/bin/harbornavi_k3_local_vision_smoke.rs:684-733 | a waiter that meets the stale lock of a process that no longer holds it gets the lock by its own steps, and safely |
| `VlmQueue.StepKeepsInv` | src/bin/harbornavi_k3_local_vision_smoke.rs:511-552 | each atomic file operation, clock tick or crash that is no theft keeps the inductive invariant |
| `VlmQueue.LockNeverStale` | src/bin/harbornavi_k3_local_vision_smoke.rs:723-733 | with bounded holds the staleness check never fires on the lock of a holder |
| `VlmQueue.CounterWithinBudget` | src/bin/harbornavi_k3_local_vision_smoke.rs:656-680 | the shared counter never exceeds the shared maximum unless it was left beyond it and is untouched |
| `VlmQueue.SharedMaximumHolds` | src/bin/harbornavi_k3_local_vision_smoke.rs:656-680 | until a theft, a counter shared by processes with one global maximum never exceeds it, whatever their own limits, unless it was left beyond it and is untouched |
| `VlmQueue.GrantsWithinConfiguredMaximum` | src/bin/harbornavi_k3_local_vision_smoke.rs:656-680 | every slot is granted within the global maximum its process was configured with, or within its own number of samples when there is none |
| `VlmQueue.ReaderDecides` | src/bin/harbornavi_k3_local_vision_smoke.rs:664-677 | a process that reads the counter goes on to write exactly when the count is below that maximum, and writes the next number |
| `VlmQueue.RequestsAreGranted` | src/bin/harbornavi_k3_local_vision_smoke.rs:511-520 | in every run, thefts included, a process is inside a request only with a slot it was granted |
| `VlmQueue.AsksPeriodically` | src/bin/harbornavi_k3_local_vision_smoke.rs:628-647 | without detections a process asks once every `sampleEvery` iterations, under the mixed policy also in its first |
| `VlmQueue.SlowHolderBreaksExclusion` | src/bin/harbornavi_k3_local_vision_smoke.rs:706-733 | a crash-free run in which a hold outlasts the staleness limit and two processes are inside a request |
| `VlmQueue.CrashedHolderBreaksExclusion` | src/bin/harbornavi_k3_local_vision_smoke.rs:723-733 | a run with bounded holds in which a holder dies and two waiters end up inside a request, because check and removal are two steps |
| `Percentile.SortAscendingSorts` | src/bin/harbornavi_k3_local_vision_smoke.rs:1586-1587 | sorting a copy gives an ascending permutation |
| `Percentile.P95IsNearestRank` | src/bin/harbornavi_k3_local_vision_smoke.rs:1582-1590 | the percentile is a sample and is the only least value that at least 95 percent of the samples do not exceed |
| `Percentile.P95OrderIndependent` | src/bin/harbornavi_k3_multi_vision_smoke.rs:924-932 | permuting the samples does not change it |
| `Percentile.PooledP95` | src/bin/harbornavi_k3_multi_vision_smoke.rs:728-732 | a bound on every group's percentile bounds the percentile of the pool |
| `Percentile.PooledP95MayHideACamera` | src/bin/harbornavi_k3_multi_vision_smoke.rs:728-732 | the converse fails: a pool below the target with a camera above it |
| `SmokeSummary.Accumulator.Observe` | src/bin/harbornavi_k3_local_vision_smoke.rs:1354-1394 | after every observation each accumulator field is the batch value over the whole history |
| `SmokeSummary.Accumulator.CountRun` | src/bin/harbornavi_k3_local_vision_smoke.rs:1355-1369 | the counters stay the batch counts |
| `SmokeSummary.Accumulator.AddTotals` | src/bin/harbornavi_k3_local_vision_smoke.rs:1361-1362 | the saturating sums and the maximum stay those of the whole history |
| `SmokeSummary.Accumulator.Collect` | src/bin/harbornavi_k3_local_vision_smoke.rs:1369-1384 | the value lists stay those of the whole history |
| `SmokeSummary.Accumulator.Finish` | src/bin/harbornavi_k3_local_vision_smoke.rs:1396-1427 | the streaming summary is the batch summary of everything observed |
| `SmokeSummary.SummaryShows` | src/bin/harbornavi_k3_local_vision_smoke.rs:1396-1427 | each field of the summary in terms of the history: counts, percentiles and averages of the measurement it is named after, extremes, and the average total rounded down |
| `Schedule.RunCountIsFirstDeadlinePastEnd` | src/bin/harbornavi_k3_local_vision_smoke.rs:264-294 | the loop's stopping point is ceil((duration - phase) / interval), 0 if the phase is past the end, 1 without a duration |
| `Schedule.RunCountInMillis` | src/bin/harbornavi_k3_local_vision_smoke.rs:240-247 | the same in seconds and milliseconds of the command line, with at least a second between runs |
| `Schedule.StartIsLatestBacklog` | src/bin/harbornavi_k3_local_vision_smoke.rs:264-294 | the k-th run starts at the latest, over all earlier deadlines, of that deadline plus the work since |
| `Schedule.LatenessRecurrence` | src/bin/harbornavi_k3_local_vision_smoke.rs:1318-1323 | lateness follows the queue recurrence and never grows across a run no longer than the interval |
| `Schedule.ShortRunsStayOnTime` | src/bin/harbornavi_k3_local_vision_smoke.rs:264-294 | runs no longer than the interval start exactly at their deadlines |
| `LocalSmoke.Recorder.Record` | src/bin/harbornavi_k3_local_vision_smoke.rs:286-290 | the window holds exactly the last min(n, 120) runs in order, beside the summary of all |
| `LocalSmoke.RunLoop` | src/bin/harbornavi_k3_local_vision_smoke.rs:264-295 | out of any supply of runs the loop performs exactly the planned number, at the specified starts whatever they last, and records all of them |
| `LocalSmoke.RunSmoke` | src/bin/harbornavi_k3_local_vision_smoke.rs:264-334 | the report is that of the whole history, and the exit status is success exactly when no run failed |
| `PhaseOffsets.PhasesKeepApart` | src/bin/harbornavi_k3_multi_vision_smoke.rs:1015-1025 | all pairs of cameras keep phases at least floor(I/n) apart, also across the end of the round, if and only if the last two do, which they do unless the product saturates |
| `PhaseOffsets.NeighbourGaps` | src/bin/harbornavi_k3_multi_vision_smoke.rs:1015-1025 | neighbouring phases, cyclically, are all floor(I/n) or ceil(I/n) apart if and only if saturation does not move the last camera |
| `PhaseOffsets.PhasesExactIff` | src/bin/harbornavi_k3_multi_vision_smoke.rs:1015-1025 | every phase is floor(I*i/n) exactly when the last one is, in particular when I*(n-1) fits the machine |
| `PhaseOffsets.SaturatedPhasesCoincide` | src/bin/harbornavi_k3_multi_vision_smoke.rs:1016-1018 | saturated phases of two cameras coincide |
| `PhaseOffsets.DeadlinesNeverMeet` | src/bin/harbornavi_k3_multi_vision_smoke.rs:1015-1025 | over all rounds deadlines of different cameras stay floor(I/n) apart, and never coincide when n <= I, if the last two phases are apart |
| `LoadTest.CameraAccounting` | src/bin/harbornavi_k3_multi_vision_smoke.rs:658-665 | merged counts of a child: total and failed are exact, passed is inflated by exactly the failed runs evicted from the window |
| `LoadTest.MergeKeepsBounds` | src/bin/harbornavi_k3_multi_vision_smoke.rs:658-665 | merging never loses a run or a failure and never counts more passed runs than runs, whatever report was found |
| `LoadTest.ConservationIffNoFailureEvicted` | src/bin/harbornavi_k3_multi_vision_smoke.rs:658-665 | passed + failed == total exactly when no evicted run failed |
| `LoadTest.EvictedFailureCountsAsPassed` | src/bin/harbornavi_k3_multi_vision_smoke.rs:658-665 | a history of 121 runs whose one failure is counted both as failed and as passed |
| `LoadTest.AggregateAccounting` | src/bin/harbornavi_k3_multi_vision_smoke.rs:719-722 | the same surplus over all cameras, whatever became of the children, left-over reports of older histories included |
| `LoadTest.AggregateIsMaximum` | src/bin/harbornavi_k3_multi_vision_smoke.rs:723-771 | each of the eight peaks of the aggregate is the largest of the cameras' |
| `LoadTest.PassCharacterized` | src/bin/harbornavi_k3_multi_vision_smoke.rs:803-821 | `pass` exactly when every child completed without a failed run, every camera's percentiles (overall and retained) are below 5000 ms, and some run happened |
| `LoadTest.VerdictCharacterized` | src/bin/harbornavi_k3_multi_vision_smoke.rs:803-821 | exactly when each other verdict is given, in terms of what the children did: a risk when some child did not complete cleanly; else, without a pass, a capture or analyzer bottleneck when the percentiles of the histories and windows single it out, and a capacity risk otherwise |
| `LoadTest.PassTakesNinetyNinePercent` | src/bin/harbornavi_k3_multi_vision_smoke.rs:807-820 | for any error-free reports `pass` takes 99 percent of the runs, at least one, and every percentile below five seconds |
| `LoadTest.CompletedReport` | src/bin/harbornavi_k3_multi_vision_smoke.rs:583-717 | every figure of a completed camera is the larger of the percentile over its history and the percentile over its window; of the capture time only the window counts |
| `LoadTest.CompletedVlmCounts` | src/bin/harbornavi_k3_multi_vision_smoke.rs:613-628 | VLM runs are counted over the whole history, evicted runs included |
| `LoadTest.OkIffClean` | src/bin/harbornavi_k3_multi_vision_smoke.rs:683-692 | a camera is reported as good exactly when its child completed without a failed run |
| `LoadTest.PassMeansHealthyPool` | src/bin/harbornavi_k3_multi_vision_smoke.rs:395-452 | across both programs, `pass` implies no failed run of any camera, evicted ones included, at least one run, and a pooled percentile below 5000 ms |
| `Letterbox.PaddingFills` | scripts/harbornavi_k3_yolov8_analyzer.py:135-138 | the two roundings of one axis are nonnegative, add up to the whole padding, and differ by at most one pixel, the smaller before the picture |
| `Letterbox.RoundIsNearest` | scripts/harbornavi_k3_yolov8_analyzer.py:129-130 | rounding goes to the nearest integer and to the even one from the middle |
| `Letterbox.LetterboxFillsInput` | scripts/harbornavi_k3_yolov8_analyzer.py:126-148 | unless the resize is refused, the letterboxed image has exactly the input size, with nonnegative padding around a nonempty picture |
| `Letterbox.ResizeSurvivesIff` | scripts/harbornavi_k3_yolov8_analyzer.py:128-133 | exactly which images are not refused: those that keep at least one pixel per axis |
| `Letterbox.ThinImageCollapses` | scripts/harbornavi_k3_yolov8_analyzer.py:128-133 | one row of 2000 pixels is refused for a square input of 640 |
| `Letterbox.MapBackInverts` | scripts/harbornavi_k3_yolov8_analyzer.py:296-306 | mapping back inverts p * ratio + offset on the image |
| `Letterbox.MapBackMonotone` | scripts/harbornavi_k3_yolov8_analyzer.py:302-305 | mapping back stays inside the image and keeps corner order |
| `Letterbox.LetterboxShiftBounded` | scripts/harbornavi_k3_yolov8_analyzer.py:126-150 | whole-pixel resizing and padding move a mapped-back coordinate by at most 1/ratio original pixels |
| `Detections.ScaleBoxesToOriginal` | scripts/harbornavi_k3_yolov8_analyzer.py:296-306 | every box is mapped back, inside the image, corners in order |
| `Detections.ScaleBoxInverts` | scripts/harbornavi_k3_yolov8_analyzer.py:296-306 | mapping a box back undoes the letterbox transform for every box within the image |
| `Nms.IouIsMeasure` | scripts/harbornavi_k3_yolov8_analyzer.py:315-324 | IoU is symmetric and in [0, 1], for inverted and clipped boxes too |
| `Nms.IouIsCommonOverJoint` | scripts/harbornavi_k3_yolov8_analyzer.py:315-324 | for the largest box that lies in both, IoU is its area over the joint area, which is taken as one millionth at least |
| `Nms.AreaIsProduct` | scripts/harbornavi_k3_yolov8_analyzer.py:312-312 | the area of a box is width times height, nothing for a box turned inside out |
| `Nms.IouOfNested` | scripts/harbornavi_k3_yolov8_analyzer.py:315-324 | for nested boxes it is the ratio of their areas |
| `Nms.IouOfSame` | scripts/harbornavi_k3_yolov8_analyzer.py:315-324 | a box overlaps itself entirely |
| `Nms.IouZeroIffDisjoint` | scripts/harbornavi_k3_yolov8_analyzer.py:315-324 | it is zero exactly when the boxes share no area |
| `Nms.Suppress` | scripts/harbornavi_k3_yolov8_analyzer.py:309-326 | the filter-ahead loop terminates and computes the one-pass check-back selection, for any order |
| `Nms.SelectIsFree` | scripts/harbornavi_k3_yolov8_analyzer.py:309-326 | no two kept boxes overlap by more than the threshold |
| `Nms.SelectIsGreedy` | scripts/harbornavi_k3_yolov8_analyzer.py:309-326 | a box is kept exactly when no earlier kept box overlaps it |
| `Nms.GreedyIsUnique` | scripts/harbornavi_k3_yolov8_analyzer.py:309-326 | being greedy determines the kept set |
| `Nms.DroppedIsDominated` | scripts/harbornavi_k3_yolov8_analyzer.py:309-326 | every dropped box overlaps a kept box of at least its score |
| `Detections.ClassesExact` | scripts/harbornavi_k3_yolov8_analyzer.py:245-245 | classes are visited once each, ascending |
| `Detections.IndexesExact` | scripts/harbornavi_k3_yolov8_analyzer.py:246-246 | the positions of a class are exactly its candidates |
| `Detections.SuppressPerClass` | scripts/harbornavi_k3_yolov8_analyzer.py:244-248 | every class is settled: what is kept does not overlap, what is dropped is dominated |
| `Detections.SortByScoreSorts` | scripts/harbornavi_k3_yolov8_analyzer.py:250-250 | sorting by score is a permutation with scores never increasing |
| `Detections.FormatDetections` | scripts/harbornavi_k3_yolov8_analyzer.py:240-250 | detections are score-sorted, distinct, at most `limit`, same-class pairs overlap by at most the threshold, and every candidate left out is suppressed by a detection or outscored by all of `limit` detections |
| `ChatRuntime.RecomputeWithinBudget` | src/bin/harbor_model_api_support.rs:1656-1694 | generated tokens hold no end-of-text token and respect the budget |
| `ChatRuntime.AnswerWithinBudget` | src/bin/harbor_model_api_support.rs:1696-1712 | a completion has between 1 and max(1, max_new_tokens) tokens and a nonempty text |
| `ChatRuntime.AnswerIsDrawn` | src/bin/harbor_model_api_support.rs:1641-1712 | every answer is a chain of draws: each token is sampled, from the state the draw before left, from the logits of prompt and tokens so far with the penalty applied to the last `repeat_last_n` of them, until the budget is used up or the text ends; its text and counts are those of these tokens |
| `ChatRuntime.DrawnIsAnswer` | src/bin/harbor_model_api_support.rs:1641-1712 | and every such chain is the answer |
| `ChatRuntime.FailedDrawFails` | src/bin/harbor_model_api_support.rs:1660-1690 | a draw that fails after any number of good ones fails the decoding with its own failure |
| `ChatRuntime.AnswerFailures` | src/bin/harbor_model_api_support.rs:1641-1712 | which failure each unusable decoding is reported as |
| `ChatRuntime.Runtime.Forward` | src/bin/harbor_model_api_support.rs:1221-1226 | a forward pass extends the cache by its input when it succeeds |
| `ChatRuntime.Generate` | src/bin/harbor_model_api_support.rs:1651-1694 | cached decoding equals recomputing the whole text each step; every call starts where the cache ends and feeds a prefix of prompt plus generated text |
| `ChatRuntime.GenerateWithRuntime` | src/bin/harbor_model_api_support.rs:1630-1713 | the answer is a function of model and request, whatever an earlier request left in the cache, error paths included |
| `ChatRuntime.Backend.RunChat` | src/bin/harbor_model_api_support.rs:1485-1525 | one request loads a runtime only while none is ready, keeps a ready one, and answers from it |
| `ChatRuntime.FirstSuccessfulLoadStays` | src/bin/harbor_model_api_support.rs:1505-1513 | after any history the runtime is that of the first successful load |
| `ChatRuntime.ServeAll` | src/bin/harbor_model_api_support.rs:1485-1525 | a backend that serves a whole history of requests, whatever fails on the way, ends in the state of the specification and gives its reply to each |
| `ChatRuntime.RepliesForgetHistory` | src/bin/harbor_model_api_support.rs:1496-1525 | every request from the first successful load on is answered as that model answers it alone, every one before fails |
| `ChatRuntime.ReplyForgetsHistory` | src/bin/harbor_model_api_support.rs:1496-1525 | two backends that loaded the same model answer a request alike, whatever each served before |
| `CompletionText.StripThinkTags` | src/bin/harbor_model_api_support.rs:2110-2131 | the tag loop terminates on every text and computes the recursive definition |
| `CompletionText.StripTagsResult` | src/bin/harbor_model_api_support.rs:2110-2131 | its result is an end piece of the text with no leading white space and no leading tag, and is left alone by a second pass |
| `CompletionText.BlockStripped` | src/bin/harbor_model_api_support.rs:2113-2120 | a thinking block goes up to its first closing tag |
| `CompletionText.UnclosedStripped` | src/bin/harbor_model_api_support.rs:2116-2118 | of a block that is never closed only the tag goes |
| `CompletionText.StrayCloseStripped` | src/bin/harbor_model_api_support.rs:2121-2124 | a closing tag without a block goes |
| `CompletionText.AttributesStripped` | src/bin/harbor_model_api_support.rs:2125-2130 | a tag with attributes goes up to its bracket |
| `CompletionText.CollapseOfReplaced` | src/bin/harbor_model_api_support.rs:2165-2167 | replacing triple newlines does not change what the one-pass collapse gives |
| `CompletionText.CollapseShortens` | src/bin/harbor_model_api_support.rs:2165-2167 | the collapse has no run of three newlines and keeps texts that have none |
| `CompletionText.CollapseBlankLines` | src/bin/harbor_model_api_support.rs:2165-2167 | the replace-until-stable loop terminates and computes the one-pass collapse |
| `CompletionSanitizer.NormalizedLineEndings` | src/bin/harbor_model_api_support.rs:2457-2459 | the two replacements leave no carriage return, keep everything but line breaks, and change nothing in a text without carriage returns |
| `CompletionSanitizer.DropPreamble` | src/bin/harbor_model_api_support.rs:2133-2162 | the line loop keeps what the lines yield from the first one with content on |
| `CompletionSanitizer.KeptIsContent` | src/bin/harbor_model_api_support.rs:2133-2162 | of the lines, nothing is kept before the first with content, of that line its content, and all later lines |
| `CompletionSanitizer.KeptOfRawLines` | src/bin/harbor_model_api_support.rs:2136-2161 | in terms of raw lines: the first line with content without its preamble word, then every later line without white space at its end |
| `CompletionSanitizer.PreambleLineDropped` | src/bin/harbor_model_api_support.rs:2461-2478 | each of the thirteen preamble words is dropped as a line of its own, with any padding around it |
| `CompletionSanitizer.ContentBehindPreamble` | src/bin/harbor_model_api_support.rs:2480-2514 | each of the twelve preamble prefixes, in any mixture of cases, is cut off with its separators |
| `CompletionSanitizer.OrdinaryLineKept` | src/bin/harbor_model_api_support.rs:2133-2162 | a first line that begins with none of them and is none of them is kept |
| `CompletionSanitizer.LeadingTagIff` | src/bin/harbor_model_api_support.rs:2108-2167 | the free text begins with a tag if and only if the first line with content does, after its preamble word |
| `CompletionSanitizer.TagNeedsPreamble` | src/bin/harbor_model_api_support.rs:2110-2155 | a first line without preamble rules out leading thinking tags |
| `CompletionSanitizer.PreambleHidesTag` | src/bin/harbor_model_api_support.rs:2480-2514 | whatever stands behind any preamble word is left as it is, tags included |
| `CompletionSanitizer.TagSurvives` | src/bin/harbor_model_api_support.rs:2146-2155 | a completion that begins with a thinking tag |
| `CompletionSanitizer.SanitizeCompletion` | src/bin/harbor_model_api_support.rs:2108-2177 | every completion is one of the offered answers, or free text without three newlines in a row |
| `CompletionSanitizer.SanitizedTags` | src/bin/harbor_model_api_support.rs:2108-2177 | a completion that is no offered answer begins with a thinking tag exactly when one stands behind the preamble |
| `ShortAnswers.MatchesComplete` | src/bin/harbor_model_api_support.rs:2369-2372 | every occurrence of a phrase is a match or overlaps one that starts before it |
| `ShortAnswers.ListsAllIffBorderless` | src/bin/harbor_model_api_support.rs:2369-2377 | the search lists every occurrence of a phrase in every text if and only if the phrase cannot overlap itself |
| `ShortAnswers.BestIsFirstNearest` | src/bin/harbor_model_api_support.rs:2377-2390 | the running best is the first candidate at minimal distance |
| `ShortAnswers.MatchShortAnswerByFocus` | src/bin/harbor_model_api_support.rs:2364-2391 | the nested loops compute the choice by focus |
| `ShortAnswers.FocusChoiceIsNearest` | src/bin/harbor_model_api_support.rs:2364-2391 | the chosen option has a match at a minimal byte distance from a match of the focus, over all matches of all options |
| `ShortAnswers.FocusChoiceIsNearestOccurrence` | src/bin/harbor_model_api_support.rs:2364-2391 | where no occurrence is skipped, the same over all occurrences, and there is no choice exactly when the focus or every option is absent |
| `ShortAnswers.OverlapMissesNearest` | src/bin/harbor_model_api_support.rs:2369-2377 | a text in which a nearer option is passed over because it overlaps itself |
| `ShortAnswers.MatchLine` | src/bin/harbor_model_api_support.rs:2308-2362 | an answer found in a line is one of the options |
| `ShortAnswers.YesNoLine` | src/bin/harbor_model_api_support.rs:2318-2334 | with the options yes and no, whatever the focus: no exactly when one of four negative words occurs, yes exactly when none of them but one of three positive words does |
| `ShortAnswers.LineWithFocus` | src/bin/harbor_model_api_support.rs:2336-2361 | the order of the other rules: the option nearest to the focus if both occur, else what the wording of the focus asks for, else as without a focus |
| `ShortAnswers.DomainHintWords` | src/bin/harbor_model_api_support.rs:2393-2429 | which words of the focus ask for recording and which for snapshot |
| `ShortAnswers.NormalizeDropsWord` | src/bin/harbor_model_api_support.rs:2435-2463 | every word that introduces an answer is dropped with the punctuation behind it |
| `ShortAnswers.LineWithoutFocus` | src/bin/harbor_model_api_support.rs:2344-2361 | without a focus a line that is an option is answered by the first such option, any other by the first of the options whose last occurrence comes first, and not at all exactly when none occurs |
| `ShortAnswers.ExtractShortAnswer` | src/bin/harbor_model_api_support.rs:2288-2306 | an extracted answer is one of the options |
| `ShortAnswers.ExtractIsLastAnswer` | src/bin/harbor_model_api_support.rs:2297-2305 | the last answering line decides, and the whole response only when no line answers |
| `Activation.EveryRunIsSound` | src/bin/harborbeacon_service.rs:232-266 | in every interleaving the auth verifier never changes, and the published configuration is the fold of `apply` over the chain of activations its snapshots saw |
| `Activation.ChainCompleteIff` | src/bin/harborbeacon_service.rs:232-266 | that chain holds every published activation in order if and only if no activation published after another one had published since its snapshot |
| `Activation.NothingLostIff` | src/bin/harborbeacon_service.rs:232-304 | the configuration is as if all published activations had happened one after the other if and only if the chain and the full list agree on the switch to Candle and on what they leave for the kind of model the last publication did not activate |
| `Activation.NothingLostIffFixedBackend` | src/bin/harborbeacon_service.rs:232-304 | with an explicit backend, or Candle from the start, if and only if the latest requests of that kind leave the same ids |
| `Activation.SerialRunsLoseNothing` | src/bin/harborbeacon_service.rs:232-266 | activations one after the other give the fold over all published requests in order |
| `Activation.CommitsAreSuccesses` | src/bin/harborbeacon_service.rs:236-264 | in every state of every run, the activations that published are exactly those that finished with success, each once, and the failed ones are those of an unsupported kind |
| `Activation.OverlapLosesAnActivation` | src/bin/harborbeacon_service.rs:236-253 | two overlapping activations after which the first one's model is gone |
| `Activation.OverlapMayLoseNothing` | src/bin/harborbeacon_service.rs:236-253 | two overlapping activations that lose nothing |
| `Activation.FoldIsEffect` | src/bin/harborbeacon_service.rs:268-304 | the fold in closed form: the latest request of each kind names its model, the latest one applied under Candle is what Candle loads |
| `Activation.ApplyExact` | src/bin/harborbeacon_service.rs:268-304 | what one activation changes, field by field, and what it leaves alone |
| `Activation.SwitchesIff` | src/bin/harborbeacon_service.rs:370-381 | exactly which requests switch to Candle |
| `Activation.ReportedIdIsServed` | src/bin/harborbeacon_service.rs:306-322 | in every run, an activation that publishes reports the model the service then serves |
| `Activation.ActivationsCommuteIff` | src/bin/harborbeacon_service.rs:268-304 | exactly when a chat and an embedder activation commute |
| `ConsecutiveDetection.SuffixIsMaximal` | scripts/harbornavi_k3_yolo_stream_worker.py:106-131 | the streak length is that of the maximal equal-valued suffix |
| `ConsecutiveDetection.DetectionState.Observe` | scripts/harbornavi_k3_yolo_stream_worker.py:113-131 | the counters describe the history: streak length and epoch of its first frame on one side, zeros on the other |
| `ConsecutiveDetection.ExactlyOneSideCounts` | scripts/harbornavi_k3_yolo_stream_worker.py:106-131 | exactly one counter is nonzero, and its streak has its value throughout |
| `LatestFrame.EveryRunIsSafe` | scripts/harbornavi_k3_yolo_stream_worker.py:174-258 | under every interleaving, readers that die and consumers that leave or fail included, each delivery is one publication, untorn and the newest at return, sequences strictly increase, the errors for an empty slot and for a source that stopped without a reason never happen, after a source error everything published was delivered or superseded by the last delivery, and the counters describe the frames processed |
| `LatestFrame.EndsOnlyWithoutNews` | scripts/harbornavi_k3_yolo_stream_worker.py:205-215 | a wait ends in an error or stop only when no newer frame has been published |
| `LatestFrame.WaitDelivers` | scripts/harbornavi_k3_yolo_stream_worker.py:205-220 | in every reachable state a wait that sees a newer frame delivers the newest one |
| `LatestFrame.WaitEnds` | scripts/harbornavi_k3_yolo_stream_worker.py:205-215 | without a newer frame a wait goes on, or ends for a stop request before a source error before the timeout |
| `LatestFrame.PresentStreakIsReal` | scripts/harbornavi_k3_yolo_stream_worker.py:330-378 | in every run a reported positive streak counts the frames processed last, distinct publications in order and each positive, begins at the publication epoch of its first, and cannot be extended |
| `Text.IndexOfIsFirst` | src/adapters/rtsp.rs:445-446 | the window search finds the first occurrence |
| `RtspFraming.ContentLengthOfRendered` | src/adapters/rtsp.rs:421-429 | the parser reads from a rendered header block what its first declaring line declares, and nothing otherwise |
| `RtspFraming.DeclaresDecimal` | src/adapters/rtsp.rs:421-429 | every machine integer in decimal notation is read back, in any mixture of cases of the name, with white space around name and number and with or without a plus; a larger number is no declaration |
| `RtspFraming.DeclaringLine` | src/adapters/rtsp.rs:421-429 | only a line with that name before its first colon declares a length |
| `RtspFraming.AppendPiece` | src/adapters/rtsp.rs:440-466 | one turn of the loop keeps header end and length of the response so far and stops exactly when it looks complete |
| `RtspFraming.ReadRtspResponse` | src/adapters/rtsp.rs:431-481 | the loop returns the pieces up to the first that makes the response look complete, or everything, or the error |
| `RtspFraming.HeaderStable` | src/adapters/rtsp.rs:443-453 | later bytes change neither header end nor declared length |
| `RtspFraming.LooksCompleteIff` | src/adapters/rtsp.rs:455-463 | a beginning of a stream looks complete exactly when it holds the whole message, or, when the declared length overflows, the header block |
| `RtspFraming.ReadsWholeMessage` | src/adapters/rtsp.rs:431-481 | for every split, a stream holding a whole message yields a beginning that contains it, stopping at the first read that completes it |
| `RtspFraming.SplitIndependent` | src/adapters/rtsp.rs:431-481 | two splits of a stream give the same header end and the same message, and the same response when the stream ends before its message |
| `RtspFraming.ReadsEarlyEndWhole` | src/adapters/rtsp.rs:431-481 | a stream that ends before its message is read to its end and returned whole, under every split |
| `RtspFraming.ReadsOverflowUpToHeader` | src/adapters/rtsp.rs:431-481 | with a length that overflows the reader stops at the first read that completes the header block |
| `RtspFraming.OverflowCutsBody` | src/adapters/rtsp.rs:457-459 | once the header block is there, the loop stops exactly when the body is there too or the addition overflows |
| `RtspFraming.OverflowingResponses` | src/adapters/rtsp.rs:457-459 | responses whose declared length makes the reader stop without the body |
| `RtspUserinfo.EscapeRtspUserinfo` | src/adapters/rtsp.rs:1141-1151 | the escaping loop computes the character-wise escape, which holds only unreserved characters and percent signs |
| `RtspUserinfo.EscapedForm` | src/adapters/rtsp.rs:1141-1151 | exactly the unreserved characters stay, another byte becomes a percent sign and two upper-case digits |
| `RtspUserinfo.UserinfoRoundTrip` | src/adapters/rtsp.rs:63-87 | taking a built URL apart gives the escaped credentials back, for every address, port, path and password, exactly when the user name is nonempty |
| `RtspUserinfo.NoUserNoCredentials` | src/adapters/rtsp.rs:63-87 | without a user name the URL holds no credentials, whatever the password |
| `RtspUserinfo.CredentialsAreTrimmed` | src/adapters/rtsp.rs:951-961 | white space around user name and password is not part of them |
| `RtspUserinfo.EscapeRoundTrip` | src/adapters/rtsp.rs:1141-1151 | percent-decoding (section 2.1 of RFC 3986) undoes escaping for ASCII credentials |
| `RtspUserinfo.CredentialsSurviveIffAscii` | src/adapters/rtsp.rs:1141-1151 | whole credentials come back as the bytes they stand for if and only if they are ASCII |
| `RtspUserinfo.CharSurvivesIffAscii` | src/adapters/rtsp.rs:1144-1148 | a character survives escaping and decoding exactly when it is ASCII |

## Left out

- Runs of the VLM queue without a lock path: each child then numbers its own samples and nothing is shared.
- VLM queue file-system failures beyond the modelled ones: removing the lock on release is taken to succeed, and a failed counter write to leave the counter unchanged.
- Two cameras with the same id: they would share one report file; each child's report is taken to be the one its parent reads.
- Sorting camera reports by id, report serialisation and the redaction of secrets.
- Floating-point rounding: percentile ranks, rates, boxes and scores are exact; `argsort` may break ties in any way.
- PhaseOffsets.DeadlinesNeverMeet: assumes that the last two phases are apart; `PhaseOffsets.PhasesKeepApart` shows that this is what it takes for all phases.
- ChatRuntime.Generate: assumes that the network's cache is coherent, which is a property of the transformer library; the network, tokenizer and sampler are arbitrary functions.
- Detections.FormatDetections: works on boxes already mapped back, and stops before labels and decimal rounding; the confidence filter and the tensor decoding before it are not modelled.
- How options and focus are detected in a prompt; the model takes nonempty options and a nonempty focus, as detection yields them.
- RtspFraming.ReadRtspResponse: one character stands for one byte, so white space and letters beyond ASCII in header lines are not modelled.
- The embedding runtime, whose lazy loading has the same shape as the chat runtime's.
- Sleep overshoot and wall-clock jumps: the schedule uses an exact monotone clock.
- HTTP servers and clients, command lines, environment, ONVIF, discovery, ffmpeg, the semantic router and the web interface.
