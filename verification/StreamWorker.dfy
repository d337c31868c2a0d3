/** Consecutive presence and absence of the target in the frames a stream worker processed. */
module ConsecutiveDetection {

  datatype Observation = Observation(present: bool, epochMs: int)

  /** How many of the latest observations agree with the last one without a break. */
  function SuffixLength(h: seq<Observation>): nat {
    if |h| <= 1 then |h|
    else if h[|h| - 1].present == h[|h| - 2].present then 1 + SuffixLength(h[..|h| - 1])
    else 1
  }

  /** The suffix agrees throughout and cannot be extended. */
  lemma {:induction false} SuffixIsMaximal(h: seq<Observation>)
    requires h != []
    ensures 1 <= SuffixLength(h) <= |h|
    ensures forall i :: |h| - SuffixLength(h) <= i < |h| ==> h[i].present == h[|h| - 1].present
    ensures SuffixLength(h) < |h| ==> h[|h| - SuffixLength(h) - 1].present != h[|h| - 1].present
  {
    if |h| > 1 && h[|h| - 1].present == h[|h| - 2].present {
      SuffixIsMaximal(h[..|h| - 1]);
    }
  }

  datatype Counters = Counters(
    presentFrames: nat, absentFrames: nat, presentSinceMs: int, absentSinceMs: int)

  /** What the counters should say of a history: the length of the current streak and the epoch
      of its first frame on one side, zeros on the other. */
  ghost predicate Describes(c: Counters, h: seq<Observation>) {
    if h == [] then c == Counters(0, 0, 0, 0)
    else
      var k := SuffixLength(h);
      && 1 <= k <= |h|
      && c == if h[|h| - 1].present then Counters(k, 0, h[|h| - k].epochMs, 0)
              else Counters(0, k, 0, h[|h| - k].epochMs)
  }

  /** What one observation does to the counters. */
  function Count(c: Counters, o: Observation): Counters {
    if o.present then
      Counters(c.presentFrames + 1, 0, if c.presentFrames == 0 then o.epochMs else c.presentSinceMs, 0)
    else
      Counters(0, c.absentFrames + 1, 0, if c.absentFrames == 0 then o.epochMs else c.absentSinceMs)
  }

  lemma CountDescribes(c: Counters, h: seq<Observation>, o: Observation)
    requires Describes(c, h)
    ensures Describes(Count(c, o), h + [o])
  {
    StreakGrows(h, o);
  }

  class DetectionState {
    var presentFrames: nat
    var absentFrames: nat
    var presentSinceMs: int
    var absentSinceMs: int
    ghost var history: seq<Observation>

    function Value(): Counters
      reads this
    {
      Counters(presentFrames, absentFrames, presentSinceMs, absentSinceMs)
    }

    ghost predicate Valid()
      reads this
    {
      Describes(Value(), history)
    }

    constructor ()
      ensures Valid() && history == []
    {
      presentFrames, absentFrames, presentSinceMs, absentSinceMs := 0, 0, 0, 0;
      history := [];
    }

    method Observe(present: bool, frameEpochMs: int) returns (c: Counters)
      requires Valid()
      modifies this
      ensures Valid() && history == old(history) + [Observation(present, frameEpochMs)]
      ensures c == Value() == Count(old(Value()), Observation(present, frameEpochMs))
    {
      CountDescribes(Value(), history, Observation(present, frameEpochMs));
      if present {
        if presentFrames == 0 {
          presentSinceMs := frameEpochMs;
        }
        presentFrames := presentFrames + 1;
        absentFrames := 0;
        absentSinceMs := 0;
      } else {
        if absentFrames == 0 {
          absentSinceMs := frameEpochMs;
        }
        absentFrames := absentFrames + 1;
        presentFrames := 0;
        presentSinceMs := 0;
      }
      history := history + [Observation(present, frameEpochMs)];
      c := Value();
    }
  }

  lemma StreakGrows(h: seq<Observation>, o: Observation)
    ensures SuffixLength(h + [o]) == if h != [] && h[|h| - 1].present == o.present then 1 + SuffixLength(h) else 1
  {
  }

  /** Counters that describe a history determine which side is streaking. */
  lemma ExactlyOneSideCounts(c: Counters, h: seq<Observation>)
    requires h != [] && Describes(c, h)
    ensures c.presentFrames > 0 <==> c.absentFrames == 0
    ensures c.presentFrames + c.absentFrames == SuffixLength(h)
    ensures forall i :: |h| - SuffixLength(h) <= i < |h| ==> h[i].present == (c.presentFrames > 0)
  {
    SuffixIsMaximal(h);
  }
}

/**
  The single-slot frame monitor between the reader thread and the processing loop of the stream
  worker.  Every step below happens under the monitor's lock or is a single flag write.
 */
module LatestFrame {
  import opened Wrappers
  import opened ConsecutiveDetection

  type Frame = nat

  datatype Publication = Publication(epochMs: int, frame: Frame)

  datatype Delivery = Delivery(sequence: nat, epochMs: int, frame: Frame)

  datatype Ending =
    | StopRequested | SourceError(message: string) | SourceStopped | TimedOut | NoFrameYet   // wait_next raised
    | LeftLoop | ProcessingFailed

  /** Between two frames, inside wait_next, or working on the frame delivered last. */
  datatype Consumer = Between | InWait | Processing | Ended(why: Ending)

  /** `published`, `deliveries`, `newest` and `observed` are history variables: all frames ever
      published, all frames delivered, for each delivery how many had been published when it
      returned, and what the detector saw in the frames that were processed. */
  datatype State = State(
    frame: Option<Frame>,
    epochMs: int,
    sequence: nat,
    error: Option<string>,
    stopped: bool,
    readerAlive: bool,
    stopFlag: bool,
    consumer: Consumer,
    previous: nat,
    deliveries: seq<Delivery>,
    published: seq<Publication>,
    newest: seq<nat>,
    counters: Counters,
    observed: seq<Observation>)

  datatype Event =
    | Publish(frame: Frame, epochMs: int)     // reader: a frame was captured
    | FailReader(message: string)             // reader: the source failed
    | ExitReader                              // reader: left its loop
    | ReaderDies                              // reader: an exception nobody catches
    | RequestStop                             // signal handler
    | Close                                   // consumer's cleanup
    | EnterWait                               // consumer calls wait_next
    | Check(expired: bool)                    // consumer holds the lock in wait_next
    | Detect(present: bool)                   // consumer has processed its frame
    | FailProcessing                          // consumer: inference or output raised
    | LeaveLoop                               // consumer sees the stop flag

  function Next(s: State, e: Event): Option<State> {
    match e
    case Publish(frame, epochMs) =>
      if !s.readerAlive then None
      else Some(s.(frame := Some(frame), epochMs := epochMs, sequence := s.sequence + 1,
                   published := s.published + [Publication(epochMs, frame)]))
    case FailReader(message) =>
      if !s.readerAlive then None else Some(s.(error := Some(message), stopped := true, readerAlive := false))
    case ExitReader =>
      if !s.readerAlive || (!s.stopped && !s.stopFlag) then None else Some(s.(stopped := true, readerAlive := false))
    case RequestStop => Some(s.(stopFlag := true))
    case Close => if s.consumer.Ended? then Some(s.(stopped := true)) else None
    case ReaderDies => if !s.readerAlive then None else Some(s.(readerAlive := false))
    case EnterWait => if s.consumer.Between? then Some(s.(consumer := InWait)) else None
    case Check(expired) =>
      if !s.consumer.InWait? then None
      else if s.sequence <= s.previous then
        if s.stopFlag then Some(s.(consumer := Ended(StopRequested)))
        else if s.error.Some? then Some(s.(consumer := Ended(SourceError(s.error.value))))
        else if s.stopped then Some(s.(consumer := Ended(SourceStopped)))
        else if expired then Some(s.(consumer := Ended(TimedOut)))
        else Some(s)
      else if s.frame.None? then Some(s.(consumer := Ended(NoFrameYet)))
      else Some(s.(consumer := Processing, previous := s.sequence,
                   deliveries := s.deliveries + [Delivery(s.sequence, s.epochMs, s.frame.value)],
                   newest := s.newest + [|s.published|]))
    case Detect(present) =>
      if !s.consumer.Processing? || s.deliveries == [] then None
      else
        var o := Observation(present, s.deliveries[|s.deliveries| - 1].epochMs);
        Some(s.(consumer := Between, counters := Count(s.counters, o), observed := s.observed + [o]))
    case FailProcessing => if s.consumer.Processing? then Some(s.(consumer := Ended(ProcessingFailed))) else None
    case LeaveLoop => if s.consumer.Between? && s.stopFlag then Some(s.(consumer := Ended(LeftLoop))) else None
  }

  const START :=
    State(None, 0, 0, None, false, true, false, Between, 0, [], [], [], Counters(0, 0, 0, 0), [])

  ghost predicate IsRun(states: seq<State>, events: seq<Event>) {
    && |states| == |events| + 1
    && states[0] == START
    && forall i :: 0 <= i < |events| ==> Next(states[i], events[i]) == Some(states[i + 1])
  }

  /** The i-th delivery is one publication, untorn, and the newest one when it returned. */
  ghost predicate DeliveredNewest(s: State, i: nat)
    requires i < |s.deliveries|
  {
    var d := s.deliveries[i];
    && i < |s.newest|
    && d.sequence == s.newest[i] && 0 < d.sequence <= |s.published|
    && s.published[d.sequence - 1] == Publication(d.epochMs, d.frame)
  }

  ghost predicate Safe(s: State) {
    && |s.deliveries| == |s.newest|
    && (forall i :: 0 <= i < |s.deliveries| ==> DeliveredNewest(s, i))
    && (forall i, j :: 0 <= i < j < |s.deliveries| ==> s.deliveries[i].sequence < s.deliveries[j].sequence)
    && s.consumer != Ended(NoFrameYet)
    // a source that stopped without an error does so on request, and the request is seen first
    && s.consumer != Ended(SourceStopped)
    && (s.consumer == Ended(StopRequested) || s.consumer == Ended(LeftLoop) ==> s.stopFlag)
    // once the source has failed, what was delivered last is what was published last
    && (s.consumer.Ended? && s.consumer.why.SourceError? ==> s.previous == |s.published|)
  }

  /** The consumer is working on the frame delivered last, or gave up on it. */
  predicate InFrame(c: Consumer) {
    c.Processing? || c == Ended(ProcessingFailed)
  }

  /** Every frame delivered before the present one was processed once, in order and at its own
      epoch, and the counters describe what was seen in them. */
  ghost predicate Processed(s: State) {
    && |s.deliveries| == |s.observed| + (if InFrame(s.consumer) then 1 else 0)
    && (forall i :: 0 <= i < |s.observed| ==> s.observed[i].epochMs == s.deliveries[i].epochMs)
    && Describes(s.counters, s.observed)
  }

  ghost predicate Inv(s: State) {
    && Safe(s)
    && s.sequence == |s.published|
    && (s.published == [] ==> s.frame.None?)
    && (s.published != [] ==>
          s.frame.Some? && s.published[|s.published| - 1] == Publication(s.epochMs, s.frame.value))
    && s.previous <= s.sequence
    && s.previous == (if s.deliveries == [] then 0 else s.deliveries[|s.deliveries| - 1].sequence)
    && (s.error.Some? ==> !s.readerAlive && s.stopped)
    && (s.stopped && s.error.None? ==> s.stopFlag || s.consumer.Ended?)
    && (s.consumer.Ended? && s.consumer.why.SourceError? ==> s.error.Some?)
  }

  lemma DeliveryKeepsInv(s: State, t: State)
    requires Inv(s) && s.consumer.InWait? && s.sequence > s.previous && s.frame.Some?
    requires t == s.(consumer := Processing, previous := s.sequence,
                     deliveries := s.deliveries + [Delivery(s.sequence, s.epochMs, s.frame.value)],
                     newest := s.newest + [|s.published|])
    ensures Inv(t)
  {
    forall i | 0 <= i < |t.deliveries| ensures DeliveredNewest(t, i) {
      if i < |s.deliveries| {
        assert DeliveredNewest(s, i);
      }
    }
    forall i, j | 0 <= i < j < |t.deliveries| ensures t.deliveries[i].sequence < t.deliveries[j].sequence {
      if j == |s.deliveries| {
        assert s.deliveries[i].sequence <= s.previous;
      }
    }
  }

  /** A step that detects nothing leaves what was processed alone, or delivers the next frame. */
  ghost predicate KeepsFrames(s: State, t: State) {
    && t.observed == s.observed && t.counters == s.counters
    && (|| (t.deliveries == s.deliveries && InFrame(t.consumer) == InFrame(s.consumer))
        || (!InFrame(s.consumer) && InFrame(t.consumer) && exists d :: t.deliveries == s.deliveries + [d]))
  }

  lemma StepKeepsFrames(s: State, e: Event, t: State)
    requires Next(s, e) == Some(t) && !e.Detect?
    ensures KeepsFrames(s, t)
  {
    if e.Check? && t.deliveries != s.deliveries {
      assert t.deliveries == s.deliveries + [Delivery(s.sequence, s.epochMs, s.frame.value)];
    }
  }

  lemma FramesKeepProcessed(s: State, t: State)
    requires Processed(s) && KeepsFrames(s, t)
    ensures Processed(t)
  {
  }

  /** What a detection changes. */
  ghost predicate Detects(s: State, o: Observation, t: State) {
    && InFrame(s.consumer) && !InFrame(t.consumer)
    && s.deliveries != [] && t.deliveries == s.deliveries && o.epochMs == s.deliveries[|s.deliveries| - 1].epochMs
    && t.observed == s.observed + [o] && t.counters == Count(s.counters, o)
  }

  lemma DetectionKeepsProcessed(s: State, o: Observation, t: State)
    requires Processed(s) && Detects(s, o, t)
    ensures Processed(t)
  {
    CountDescribes(s.counters, s.observed, o);
  }

  lemma StepKeepsProcessed(s: State, e: Event, t: State)
    requires Processed(s) && Next(s, e) == Some(t)
    ensures Processed(t)
  {
    if e.Detect? {
      DetectionKeepsProcessed(s, Observation(e.present, s.deliveries[|s.deliveries| - 1].epochMs), t);
    } else {
      StepKeepsFrames(s, e, t);
      FramesKeepProcessed(s, t);
    }
  }

  lemma QuietStepKeepsInv(s: State, e: Event, t: State)
    requires Inv(s) && Next(s, e) == Some(t) && t.deliveries == s.deliveries
    ensures Inv(t)
  {
    forall i | 0 <= i < |t.deliveries| ensures DeliveredNewest(t, i) {
      assert DeliveredNewest(s, i);
    }
  }

  lemma StepKeepsInv(s: State, e: Event, t: State)
    requires Inv(s) && Next(s, e) == Some(t)
    ensures Inv(t)
  {
    if e.Check? && s.consumer.InWait? && s.sequence > s.previous && s.frame.Some? {
      DeliveryKeepsInv(s, t);
    } else {
      QuietStepKeepsInv(s, e, t);
    }
  }

  /** Under every interleaving of reader, consumer and signals: deliveries are whole and newest,
      no frame is processed twice, and the empty-slot error never happens. */
  lemma {:induction false} EveryRunIsSafe(states: seq<State>, events: seq<Event>, n: nat)
    requires IsRun(states, events) && n < |states|
    ensures Inv(states[n]) && Processed(states[n])
  {
    if n > 0 {
      EveryRunIsSafe(states, events, n - 1);
      StepKeepsInv(states[n - 1], events[n - 1], states[n]);
      StepKeepsProcessed(states[n - 1], events[n - 1], states[n]);
    }
  }

  /** A wait ends in an error only when nothing newer than the last delivery has been published. */
  lemma EndsOnlyWithoutNews(states: seq<State>, events: seq<Event>, n: nat)
    requires IsRun(states, events) && n < |events|
    requires states[n].consumer.InWait? && states[n + 1].consumer.Ended?
    ensures |states[n].published| == states[n].previous
  {
    EveryRunIsSafe(states, events, n);
    EveryRunIsSafe(states, events, n + 1);
    assert Next(states[n], events[n]) == Some(states[n + 1]);
  }

  /** In every reachable state, a wait that sees a newer frame delivers the newest one. */
  lemma WaitDelivers(states: seq<State>, events: seq<Event>, n: nat, expired: bool)
    requires IsRun(states, events) && n < |states|
    requires states[n].consumer.InWait? && |states[n].published| > states[n].previous
    ensures var s, t := states[n], Next(states[n], Check(expired));
      var newest := s.published[|s.published| - 1];
      && t.Some? && t.value.consumer.Processing? && t.value.previous == |s.published|
      && t.value.deliveries == s.deliveries + [Delivery(|s.published|, newest.epochMs, newest.frame)]
  {
    EveryRunIsSafe(states, events, n);
  }

  /** Without a newer frame a wait goes on, unless there is a reason to end it: a stop request
      before an error of the source, that before a source that stopped, and that before the time. */
  lemma WaitEnds(states: seq<State>, events: seq<Event>, n: nat, expired: bool)
    requires IsRun(states, events) && n < |states|
    requires states[n].consumer.InWait? && |states[n].published| == states[n].previous
    ensures var s, t := states[n], Next(states[n], Check(expired));
      && t.Some? && t.value == s.(consumer := t.value.consumer)
      && t.value.consumer ==
           if s.stopFlag then Ended(StopRequested)
           else if s.error != None then Ended(SourceError(s.error.value))
           else if s.stopped then Ended(SourceStopped)
           else if expired then Ended(TimedOut)
           else InWait
  {
    EveryRunIsSafe(states, events, n);
  }

  /** A stop request ends a wait that sees nothing newer, and the worker's cleanup lets its reader go. */
  lemma StopEndsEverything(s: State)
    ensures s.consumer.InWait? && s.sequence <= s.previous ==>
      var t := Next(s, RequestStop);
      t.Some? && forall expired :: Next(t.value, Check(expired)) == Some(t.value.(consumer := Ended(StopRequested)))
    ensures s.consumer.Ended? && s.readerAlive ==>
      var t := Next(s, Close);
      t.Some? && Next(t.value, ExitReader) == Some(s.(stopped := true, readerAlive := false))
  {
  }

  // ----- what the worker reports -----

  /** End to end: a positive streak in the worker's report counts that many of the frames
      processed last, distinct publications in publication order and each positive; it begins at
      the epoch its first frame was published with, and the frame processed before was negative. */
  lemma PresentStreakIsReal(states: seq<State>, events: seq<Event>, n: nat) returns (first: nat)
    requires IsRun(states, events) && n < |states|
    requires states[n].counters.presentFrames > 0
    ensures IsStreak(states[n], first, states[n].counters.presentFrames, states[n].counters.presentSinceMs)
  {
    EveryRunIsSafe(states, events, n);
    first := StreakOf(states[n]);
  }

  /** The last `length` frames processed, from number `first` on, are a positive streak since `sinceMs`. */
  ghost predicate IsStreak(s: State, first: nat, length: nat, sinceMs: int) {
    && first + length == |s.observed| <= |s.deliveries|
    && (forall i :: first <= i < |s.observed| ==> DeliveredNewest(s, i) && s.observed[i].present)
    && (forall i, j :: first <= i < j < |s.observed| ==> s.deliveries[i].sequence < s.deliveries[j].sequence)
    && first < |s.observed| && DeliveredNewest(s, first)
    && s.published[s.deliveries[first].sequence - 1].epochMs == sinceMs
    && (first > 0 ==> !s.observed[first - 1].present)
  }

  lemma StreakOf(s: State) returns (first: nat)
    requires Safe(s) && Processed(s) && s.counters.presentFrames > 0
    ensures IsStreak(s, first, s.counters.presentFrames, s.counters.presentSinceMs)
  {
    SuffixIsMaximal(s.observed);
    first := |s.observed| - SuffixLength(s.observed);
    assert DeliveredNewest(s, first);
  }
}
