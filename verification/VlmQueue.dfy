/**
  The cross-process VLM queue of the local vision smoke runner.

  Several runner processes share one lock file and one counter file.  Every file-system
  operation is a separate atomic step of a state machine, so processes interleave between
  the creation of the lock, the staleness check, the removal of a stale lock, the counter
  read, the counter write and the release.
 */
module VlmQueue {
  import opened Wrappers

  type Pid = nat
  type Millis = nat

  /** A lock file older than this is taken to be abandoned. */
  const STALE_AFTER: Millis := 600_000
  /** A process gives up waiting for the lock after this long. */
  const WAIT_LIMIT: Millis := 300_000

  datatype TriggerPolicy = DetectionOrPeriodic | Periodic

  datatype Settings = Settings(
    enrich: bool,
    policy: TriggerPolicy,
    sampleEvery: nat,
    maxSamples: nat,
    globalMax: Option<nat>)

  /** The budget a process compares the shared counter with: its own limit stands in when
      no global one is configured. */
  function GlobalLimit(c: Settings): nat {
    if c.globalMax.Some? then c.globalMax.value else c.maxSamples
  }

  predicate ShouldRunVlm(c: Settings, iteration: nat, detections: Option<nat>, sampleCount: nat) {
    if !c.enrich || sampleCount >= c.maxSamples then false
    else if c.policy.DetectionOrPeriodic? && detections.Some? && detections.value > 0 then true
    else
      var every := if c.sampleEvery > 1 then c.sampleEvery else 1;
      match c.policy
      case DetectionOrPeriodic => iteration == 1 || iteration % every == 0
      case Periodic => iteration > 0 && iteration % every == 0
  }

  /** Where a process stands between two atomic steps. */
  datatype Phase =
    | Idle                                       // between two VLM attempts
    | Opening(started: Millis)                   // about to create the lock file
    | Checking(started: Millis)                  // the lock existed; about to stat it
    | Removing(started: Millis)                  // saw a stale lock; about to unlink it
    | Waiting(started: Millis)                   // about to compare with WAIT_LIMIT
    | Reading(since: Millis)                     // created the lock; about to read the counter
    | Writing(since: Millis, next: nat)          // about to write the counter
    | Requesting(since: Millis, sample: nat)     // inside a VLM request
    | Releasing(since: Millis)                   // about to drop the guard
    | Dead

  predicate HoldsGuard(ph: Phase) {
    ph.Reading? || ph.Writing? || ph.Requesting? || ph.Releasing?
  }

  /** Phases in which a slot may still be granted. */
  predicate Claiming(ph: Phase) {
    ph.Opening? || ph.Checking? || ph.Removing? || ph.Waiting? || ph.Reading? || ph.Writing?
  }

  datatype Process = Process(phase: Phase, iteration: nat, samples: nat)

  /** `owner` is a history variable: no step reads it. */
  datatype LockFile = LockFile(modified: Millis, owner: Pid)

  datatype Grant = Grant(pid: Pid, sample: nat)

  /** `grants` is a history variable: no step reads it. */
  datatype State = State(
    clock: Millis,
    lock: Option<LockFile>,
    counter: Option<nat>,
    procs: seq<Process>,
    grants: seq<Grant>)

  datatype Event =
    | Tick(elapsed: Millis)
    | Iterate(pid: Pid, detections: Option<nat>)
    | CreateLock(pid: Pid)
    | OpenError(pid: Pid)
    | StatLock(pid: Pid, readable: bool)
    | UnlinkStale(pid: Pid)
    | RetryOrGiveUp(pid: Pid)
    | ReadCounter(pid: Pid)
    | WriteCounter(pid: Pid, ok: bool)
    | FinishRequest(pid: Pid)
    | Release(pid: Pid)
    | Crash(pid: Pid)

  /** The number an absent or unparsable counter file stands for is zero. */
  function CounterValue(counter: Option<nat>): nat {
    if counter.Some? then counter.value else 0
  }

  function Move(s: State, p: Pid, ph: Phase): State
    requires p < |s.procs|
  {
    s.(procs := s.procs[p := s.procs[p].(phase := ph)])
  }

  predicate LockIsStale(s: State) {
    s.lock.Some? && s.clock > s.lock.value.modified + STALE_AFTER
  }

  /** One atomic step; `None` when the event is not possible in this state. */
  function Next(cfg: seq<Settings>, s: State, e: Event): (r: Option<State>)
    requires |cfg| == |s.procs|
    ensures r.Some? ==> |r.value.procs| == |s.procs|
  {
    if e.Tick? then Some(s.(clock := s.clock + e.elapsed))
    else if e.pid >= |s.procs| || s.procs[e.pid].phase.Dead? then None
    else if e.Crash? then Some(Move(s, e.pid, Dead))
    else
      var p := e.pid;
      match (s.procs[p].phase, e)
      case (Idle, Iterate(_, detections)) =>
        var proc := s.procs[p].(iteration := s.procs[p].iteration + 1);
        var claims := ShouldRunVlm(cfg[p], proc.iteration, detections, proc.samples) && GlobalLimit(cfg[p]) > 0;
        Some(s.(procs := s.procs[p := if claims then proc.(phase := Opening(s.clock)) else proc]))
      case (Opening(started), CreateLock(_)) =>
        Some(if s.lock.Some? then Move(s, p, Checking(started))
             else Move(s, p, Reading(s.clock)).(lock := Some(LockFile(s.clock, p))))
      case (Opening(_), OpenError(_)) => Some(Move(s, p, Idle))
      case (Checking(started), StatLock(_, readable)) =>
        Some(Move(s, p, if readable && LockIsStale(s) then Removing(started) else Waiting(started)))
      case (Removing(started), UnlinkStale(_)) => Some(Move(s, p, Waiting(started)).(lock := None))
      case (Waiting(started), RetryOrGiveUp(_)) =>
        Some(Move(s, p, if s.clock > started + WAIT_LIMIT then Idle else Opening(started)))
      case (Reading(since), ReadCounter(_)) =>
        var count := CounterValue(s.counter);
        Some(Move(s, p, if count >= GlobalLimit(cfg[p]) then Releasing(since) else Writing(since, count + 1)))
      case (Writing(since, next), WriteCounter(_, ok)) =>
        Some(if !ok then Move(s, p, Releasing(since))
             else s.(counter := Some(next),
                     procs := s.procs[p := s.procs[p].(phase := Requesting(since, next), samples := s.procs[p].samples + 1)],
                     grants := s.grants + [Grant(p, next)]))
      case (Requesting(since, _), FinishRequest(_)) => Some(Move(s, p, Releasing(since)))
      case (Releasing(_), Release(_)) => Some(Move(s, p, Idle).(lock := None))
      case _ => None
  }

  /** A start of the load test: no lock file, any left-over counter, nobody running yet. */
  predicate Initial(cfg: seq<Settings>, s: State) {
    && s.lock.None?
    && s.grants == []
    && |s.procs| == |cfg|
    && forall p :: 0 <= p < |s.procs| ==> s.procs[p] == Process(Idle, 0, 0)
  }

  /** `states` is the run that `events` drives from `states[0]`. */
  ghost predicate IsRun(cfg: seq<Settings>, states: seq<State>, events: seq<Event>) {
    && |states| == |events| + 1
    && Initial(cfg, states[0])
    && (forall i :: 0 <= i < |states| ==> |states[i].procs| == |cfg|)
    && forall i :: 0 <= i < |events| ==> Next(cfg, states[i], events[i]) == Some(states[i + 1])
  }

  /** No process keeps its guard for longer than a lock file needs to become stale. */
  ghost predicate HoldsAreBounded(s: State) {
    forall p :: 0 <= p < |s.procs| && HoldsGuard(s.procs[p].phase) ==>
      s.clock <= s.procs[p].phase.since + STALE_AFTER
  }

  /** A step unlinks a lock file whose owner still holds its guard. */
  predicate IsTheft(s: State, e: Event) {
    && e.UnlinkStale? && e.pid < |s.procs| && s.procs[e.pid].phase.Removing?
    && s.lock.Some? && s.lock.value.owner < |s.procs|
    && HoldsGuard(s.procs[s.lock.value.owner].phase)
  }

  ghost predicate NoTheft(states: seq<State>, events: seq<Event>, n: nat)
    requires |states| == |events| + 1 && n <= |events|
  {
    forall i :: 0 <= i < n ==> !IsTheft(states[i], events[i])
  }

  /** Every process that holds its guard finds its own lock file in place. */
  ghost predicate LocksInPlace(s: State) {
    forall p :: 0 <= p < |s.procs| && HoldsGuard(s.procs[p].phase) ==>
      s.lock == Some(LockFile(s.procs[p].phase.since, p))
  }

  predicate KillsHolder(s: State, e: Event) {
    e.Crash? && e.pid < |s.procs| && HoldsGuard(s.procs[e.pid].phase)
  }

  /** The environment assumption: holds are bounded and no process dies while holding. */
  ghost predicate WellBehaved(states: seq<State>, events: seq<Event>)
    requires |states| == |events| + 1
  {
    && (forall i :: 0 <= i < |states| ==> HoldsAreBounded(states[i]))
    && forall i :: 0 <= i < |events| ==> !KillsHolder(states[i], events[i])
  }

  function GrantsOf(grants: seq<Grant>, p: Pid): nat {
    if grants == [] then 0
    else
      var last := |grants| - 1;
      GrantsOf(grants[..last], p) + if grants[last].pid == p then 1 else 0
  }

  function TotalSamples(procs: seq<Process>): nat {
    if procs == [] then 0 else TotalSamples(procs[..|procs| - 1]) + procs[|procs| - 1].samples
  }

  /** What the queue promises of one state, `base` being the counter the run started from. */
  ghost predicate Safe(cfg: seq<Settings>, base: nat, s: State)
    requires |cfg| == |s.procs|
  {
    // at most one process is inside a VLM request, or anywhere between lock and release
    && (forall p, q :: 0 <= p < q < |s.procs| ==>
          !HoldsGuard(s.procs[p].phase) || !HoldsGuard(s.procs[q].phase))
    // the counter counts the granted slots, and their numbers are base+1, base+2, ...
    && CounterValue(s.counter) == base + |s.grants|
    && (forall i :: 0 <= i < |s.grants| ==> s.grants[i].sample == base + 1 + i)
    // nobody was granted a slot beyond the budget it knows
    && (forall i :: 0 <= i < |s.grants| ==>
          s.grants[i].pid < |cfg| && s.grants[i].sample <= GlobalLimit(cfg[s.grants[i].pid]))
    // every process counts its own slots, never exceeds its own limit, and together they
    // account for the whole counter
    && (forall p :: 0 <= p < |s.procs| ==>
          s.procs[p].samples == GrantsOf(s.grants, p) <= cfg[p].maxSamples)
    && TotalSamples(s.procs) == |s.grants|
  }

  /** The inductive strengthening of `Safe`, process by process. */
  ghost predicate ProcessOk(c: Settings, s: State, p: Pid)
    requires p < |s.procs|
  {
    var ph := s.procs[p].phase;
    && (HoldsGuard(ph) ==> s.lock == Some(LockFile(ph.since, p)))
    && s.procs[p].samples == GrantsOf(s.grants, p) <= c.maxSamples
    && (Claiming(ph) ==> s.procs[p].samples < c.maxSamples)
    && (ph.Writing? ==> ph.next == CounterValue(s.counter) + 1 <= GlobalLimit(c))
  }

  ghost predicate Inv(cfg: seq<Settings>, base: nat, s: State) {
    && |cfg| == |s.procs|
    && (forall p :: 0 <= p < |s.procs| ==> ProcessOk(cfg[p], s, p))
    && (s.lock.Some? ==> s.lock.value.owner < |s.procs|)
    && CounterValue(s.counter) == base + |s.grants|
    && (forall i :: 0 <= i < |s.grants| ==> s.grants[i].sample == base + 1 + i)
    && (forall i :: 0 <= i < |s.grants| ==>
          s.grants[i].pid < |cfg| && s.grants[i].sample <= GlobalLimit(cfg[s.grants[i].pid]))
    && TotalSamples(s.procs) == |s.grants|
  }

  lemma {:induction false} TotalSamplesUpdate(procs: seq<Process>, p: nat, proc: Process)
    requires p < |procs|
    ensures TotalSamples(procs[p := proc]) == TotalSamples(procs) - procs[p].samples + proc.samples
  {
    var last := |procs| - 1;
    if p == last {
      assert procs[p := proc][..last] == procs[..last];
    } else {
      assert procs[p := proc][..last] == procs[..last][p := proc];
      TotalSamplesUpdate(procs[..last], p, proc);
    }
  }

  lemma {:induction false} NoSamplesAtStart(procs: seq<Process>)
    requires forall p :: 0 <= p < |procs| ==> procs[p].samples == 0
    ensures TotalSamples(procs) == 0
  {
    if procs != [] {
      NoSamplesAtStart(procs[..|procs| - 1]);
    }
  }

  lemma GrantsOfAppend(grants: seq<Grant>, g: Grant, p: Pid)
    ensures GrantsOf(grants + [g], p) == GrantsOf(grants, p) + if g.pid == p then 1 else 0
  {
  }

  /** A step that grants nothing keeps the invariant if it leaves its own process in order and
      touches the lock only when no other process holds it. */
  lemma MoveKeepsInv(cfg: seq<Settings>, base: nat, s: State, p: Pid, proc: Process, t: State)
    requires Inv(cfg, base, s)
    requires p < |s.procs| && proc.samples == s.procs[p].samples
    requires t == s.(procs := s.procs[p := proc], lock := t.lock)
    requires ProcessOk(cfg[p], t, p)
    requires t.lock == s.lock || s.lock.None? || s.lock.value.owner == p || !HoldsGuard(s.procs[s.lock.value.owner].phase)
    requires t.lock.Some? ==> t.lock.value.owner < |t.procs|
    ensures Inv(cfg, base, t)
  {
    TotalSamplesUpdate(s.procs, p, proc);
    forall q | 0 <= q < |s.procs| && q != p ensures ProcessOk(cfg[q], t, q) {
      assert ProcessOk(cfg[q], s, q);
    }
  }

  lemma OneHolder(cfg: seq<Settings>, base: nat, s: State, p: Pid, q: Pid)
    requires Inv(cfg, base, s) && p < |s.procs| && q < |s.procs| && p != q
    ensures !HoldsGuard(s.procs[p].phase) || !HoldsGuard(s.procs[q].phase)
  {
    assert ProcessOk(cfg[p], s, p) && ProcessOk(cfg[q], s, q);
  }

  lemma GrantKeepsProcess(cfg: seq<Settings>, base: nat, s: State, p: Pid, t: State, q: Pid)
    requires Inv(cfg, base, s)
    requires p < |s.procs| && s.procs[p].phase.Writing? && q < |s.procs|
    requires Next(cfg, s, WriteCounter(p, true)) == Some(t)
    ensures ProcessOk(cfg[q], t, q)
  {
    assert ProcessOk(cfg[q], s, q);
    GrantsOfAppend(s.grants, Grant(p, s.procs[p].phase.next), q);
    if q != p {
      OneHolder(cfg, base, s, p, q);
      assert t.procs[q] == s.procs[q];
    }
  }

  /** The counter write is the step that grants a slot. */
  lemma GrantKeepsInv(cfg: seq<Settings>, base: nat, s: State, p: Pid, t: State)
    requires Inv(cfg, base, s)
    requires p < |s.procs| && s.procs[p].phase.Writing?
    requires Next(cfg, s, WriteCounter(p, true)) == Some(t)
    ensures Inv(cfg, base, t)
  {
    assert ProcessOk(cfg[p], s, p);
    TotalSamplesUpdate(s.procs, p, t.procs[p]);
    forall q | 0 <= q < |s.procs| ensures ProcessOk(cfg[q], t, q) {
      GrantKeepsProcess(cfg, base, s, p, t, q);
    }
  }

  /** Each atomic step but a theft keeps the invariant, whatever crashes and however long a
      process holds its guard. */
  lemma StepKeepsInv(cfg: seq<Settings>, base: nat, s: State, e: Event, t: State)
    requires Inv(cfg, base, s) && !IsTheft(s, e)
    requires Next(cfg, s, e) == Some(t)
    ensures Inv(cfg, base, t)
  {
    if e.Tick? {
      forall q | 0 <= q < |s.procs| ensures ProcessOk(cfg[q], t, q) {
        assert ProcessOk(cfg[q], s, q);
      }
    } else {
      var p := e.pid;
      assert ProcessOk(cfg[p], s, p);
      if e.WriteCounter? && e.ok {
        GrantKeepsInv(cfg, base, s, p, t);
      } else {
        MoveKeepsInv(cfg, base, s, p, t.procs[p], t);
      }
    }
  }

  lemma InvImpliesSafe(cfg: seq<Settings>, base: nat, s: State)
    requires Inv(cfg, base, s)
    ensures Safe(cfg, base, s)
  {
    forall p, q | 0 <= p < q < |s.procs|
      ensures !HoldsGuard(s.procs[p].phase) || !HoldsGuard(s.procs[q].phase)
    {
      OneHolder(cfg, base, s, p, q);
    }
    forall p | 0 <= p < |s.procs|
      ensures s.procs[p].samples == GrantsOf(s.grants, p) <= cfg[p].maxSamples
    {
      assert ProcessOk(cfg[p], s, p);
    }
  }

  lemma {:induction false} RunKeepsInv(cfg: seq<Settings>, states: seq<State>, events: seq<Event>, n: nat)
    requires IsRun(cfg, states, events)
    requires n < |states| && NoTheft(states, events, n)
    ensures Inv(cfg, CounterValue(states[0].counter), states[n])
  {
    if n == 0 {
      NoSamplesAtStart(states[0].procs);
    } else {
      RunKeepsInv(cfg, states, events, n - 1);
      StepKeepsInv(cfg, CounterValue(states[0].counter), states[n - 1], events[n - 1], states[n]);
    }
  }

  /** Main result: in every interleaving of any number of processes, crashes and long holds
      included, every state up to the first theft is safe, whatever counter an earlier run
      left behind. */
  lemma SafeUntilTheft(cfg: seq<Settings>, states: seq<State>, events: seq<Event>, n: nat)
    requires IsRun(cfg, states, events)
    requires n < |states| && NoTheft(states, events, n)
    ensures Safe(cfg, CounterValue(states[0].counter), states[n])
    ensures LocksInPlace(states[n])
  {
    RunKeepsInv(cfg, states, events, n);
    InvImpliesSafe(cfg, CounterValue(states[0].counter), states[n]);
    forall p | 0 <= p < |cfg| && HoldsGuard(states[n].procs[p].phase)
      ensures states[n].lock == Some(LockFile(states[n].procs[p].phase.since, p))
    {
      assert ProcessOk(cfg[p], states[n], p);
    }
  }

  /** A theft leaves its victim inside without a lock file. */
  lemma TheftDisplaces(cfg: seq<Settings>, s: State, e: Event, t: State)
    requires |cfg| == |s.procs| && Next(cfg, s, e) == Some(t)
    requires IsTheft(s, e)
    ensures !LocksInPlace(t)
  {
    var victim := s.lock.value.owner;
    assert t.procs[victim] == s.procs[victim];
  }

  /** The exact condition: every holder's lock file is in place throughout a run if and only if
      nobody unlinks the lock file of a process that still holds its guard. */
  lemma LocksInPlaceIffNoTheft(cfg: seq<Settings>, states: seq<State>, events: seq<Event>, n: nat)
    requires IsRun(cfg, states, events) && n < |states|
    ensures (forall m :: 0 <= m <= n ==> LocksInPlace(states[m])) <==> NoTheft(states, events, n)
  {
    if NoTheft(states, events, n) {
      forall m | 0 <= m <= n ensures LocksInPlace(states[m]) {
        SafeUntilTheft(cfg, states, events, m);
      }
    } else {
      var i :| 0 <= i < n && IsTheft(states[i], events[i]);
      TheftDisplaces(cfg, states[i], events[i], states[i + 1]);
    }
  }

  // ----- a well-behaved environment -----

  /** Nobody is about to unlink, and the owner of the lock file holds its guard. */
  ghost predicate Undisturbed(s: State) {
    && (forall p :: 0 <= p < |s.procs| ==> !s.procs[p].phase.Removing?)
    && (s.lock.Some? ==> s.lock.value.owner < |s.procs| && HoldsGuard(s.procs[s.lock.value.owner].phase))
  }

  /** With bounded holds the lock file of a holder is never stale. */
  lemma LockNeverStale(cfg: seq<Settings>, base: nat, s: State)
    requires Inv(cfg, base, s) && Undisturbed(s) && HoldsAreBounded(s)
    ensures !LockIsStale(s)
  {
    if s.lock.Some? {
      assert ProcessOk(cfg[s.lock.value.owner], s, s.lock.value.owner);
    }
  }

  lemma NobodyUnlinks(cfg: seq<Settings>, s: State, e: Event, t: State, q: Pid)
    requires |cfg| == |s.procs| && q < |s.procs| && !LockIsStale(s) && !s.procs[q].phase.Removing?
    requires Next(cfg, s, e) == Some(t)
    ensures !t.procs[q].phase.Removing?
  {
  }

  lemma OwnerHolds(cfg: seq<Settings>, base: nat, s: State, e: Event, t: State)
    requires Inv(cfg, base, s) && Undisturbed(s) && !KillsHolder(s, e)
    requires Next(cfg, s, e) == Some(t)
    ensures t.lock.Some? ==> t.lock.value.owner < |t.procs| && HoldsGuard(t.procs[t.lock.value.owner].phase)
  {
    if !e.Tick? {
      assert ProcessOk(cfg[e.pid], s, e.pid);
    }
  }

  lemma StaysUndisturbed(cfg: seq<Settings>, base: nat, s: State, e: Event, t: State)
    requires Inv(cfg, base, s) && Undisturbed(s) && HoldsAreBounded(s) && !KillsHolder(s, e)
    requires Next(cfg, s, e) == Some(t)
    ensures Undisturbed(t) && !IsTheft(s, e)
  {
    LockNeverStale(cfg, base, s);
    OwnerHolds(cfg, base, s, e, t);
    forall q | 0 <= q < |s.procs| ensures !t.procs[q].phase.Removing? {
      NobodyUnlinks(cfg, s, e, t, q);
    }
  }

  lemma {:induction false} NoTheftWhenWellBehaved(cfg: seq<Settings>, states: seq<State>, events: seq<Event>, n: nat)
    requires IsRun(cfg, states, events) && WellBehaved(states, events)
    requires n < |states|
    ensures NoTheft(states, events, n) && Undisturbed(states[n])
  {
    if n > 0 {
      NoTheftWhenWellBehaved(cfg, states, events, n - 1);
      RunKeepsInv(cfg, states, events, n - 1);
      StaysUndisturbed(cfg, CounterValue(states[0].counter), states[n - 1], events[n - 1], states[n]);
    }
  }

  /** Hence every state of every run is safe in which no holder dies and no hold outlasts the
      staleness limit. */
  lemma EveryRunIsSafe(cfg: seq<Settings>, states: seq<State>, events: seq<Event>)
    requires IsRun(cfg, states, events) && WellBehaved(states, events)
    ensures forall n :: 0 <= n < |states| ==> Safe(cfg, CounterValue(states[0].counter), states[n])
  {
    forall n | 0 <= n < |states| ensures Safe(cfg, CounterValue(states[0].counter), states[n]) {
      NoTheftWhenWellBehaved(cfg, states, events, n);
      SafeUntilTheft(cfg, states, events, n);
    }
  }

  /** Under a shared budget the counter stays within it, unless it started beyond it. */
  lemma CounterWithinBudget(cfg: seq<Settings>, states: seq<State>, events: seq<Event>, budget: nat, n: nat)
    requires IsRun(cfg, states, events)
    requires n < |states| && NoTheft(states, events, n)
    requires forall p :: 0 <= p < |cfg| ==> GlobalLimit(cfg[p]) <= budget
    ensures CounterValue(states[n].counter) <= budget || states[n].counter == states[0].counter
  {
    SafeUntilTheft(cfg, states, events, n);
    var s := states[n];
    if s.grants != [] {
      assert s.grants[|s.grants| - 1].sample == CounterValue(s.counter);
    } else {
      CounterUntouchedWithoutGrant(cfg, states, events, n);
    }
  }

  /** With one configured maximum for all, the counter never exceeds it, whatever the processes'
      own limits, unless an earlier run left it beyond. */
  lemma SharedMaximumHolds(cfg: seq<Settings>, states: seq<State>, events: seq<Event>, maximum: nat, n: nat)
    requires IsRun(cfg, states, events)
    requires n < |states| && NoTheft(states, events, n)
    requires forall p :: 0 <= p < |cfg| ==> cfg[p].globalMax == Some(maximum)
    ensures CounterValue(states[n].counter) <= maximum || states[n].counter == states[0].counter
  {
    CounterWithinBudget(cfg, states, events, maximum, n);
  }

  /** Every slot was granted within the maximum its process was configured with: the global one,
      or its own number of samples when there is none. */
  lemma GrantsWithinConfiguredMaximum(cfg: seq<Settings>, states: seq<State>, events: seq<Event>, n: nat)
    requires IsRun(cfg, states, events)
    requires n < |states| && NoTheft(states, events, n)
    ensures forall g :: g in states[n].grants ==>
      && g.pid < |cfg|
      && (cfg[g.pid].globalMax.Some? ==> g.sample <= cfg[g.pid].globalMax.value)
      && (cfg[g.pid].globalMax.None? ==> g.sample <= cfg[g.pid].maxSamples)
  {
    SafeUntilTheft(cfg, states, events, n);
  }

  /** A process that reads the counter goes on to write exactly when the count is below that
      maximum, and then it writes the next number. */
  lemma ReaderDecides(cfg: seq<Settings>, s: State, p: Pid, count: nat)
    requires |cfg| == |s.procs| && p < |s.procs| && s.procs[p].phase.Reading?
    requires s.counter == Some(count) || (s.counter == None && count == 0)
    ensures var t := Next(cfg, s, ReadCounter(p));
      && t.Some?
      && (cfg[p].globalMax.Some? ==> (t.value.procs[p].phase.Writing? <==> count < cfg[p].globalMax.value))
      && (cfg[p].globalMax.None? ==> (t.value.procs[p].phase.Writing? <==> count < cfg[p].maxSamples))
      && (t.value.procs[p].phase.Writing? ==> t.value.procs[p].phase.next == count + 1)
      && (!t.value.procs[p].phase.Writing? ==> t.value.procs[p].phase.Releasing?)
  {
  }

  lemma {:induction false} CounterUntouchedWithoutGrant(cfg: seq<Settings>, states: seq<State>, events: seq<Event>, n: nat)
    requires IsRun(cfg, states, events)
    requires n < |states|
    ensures states[n].grants == [] ==> states[n].counter == states[0].counter
  {
    if n > 0 {
      CounterUntouchedWithoutGrant(cfg, states, events, n - 1);
      assert Next(cfg, states[n - 1], events[n - 1]) == Some(states[n]);
    }
  }

  ghost predicate TwoInsideRequest(s: State) {
    exists p, q :: 0 <= p < q < |s.procs| && s.procs[p].phase.Requesting? && s.procs[q].phase.Requesting?
  }

  /** Drives a run one event further. */
  lemma Extend(cfg: seq<Settings>, states: seq<State>, events: seq<Event>, e: Event)
    returns (states': seq<State>, events': seq<Event>)
    requires IsRun(cfg, states, events)
    requires Next(cfg, states[|events|], e).Some?
    ensures events' == events + [e]
    ensures states' == states + [Next(cfg, states[|events|], e).value]
    ensures IsRun(cfg, states', events')
  {
    events' := events + [e];
    states' := states + [Next(cfg, states[|events|], e).value];
  }

  /** The same by a step that is no theft. */
  lemma ExtendHonestly(cfg: seq<Settings>, states: seq<State>, events: seq<Event>, e: Event)
    returns (states': seq<State>, events': seq<Event>)
    requires IsRun(cfg, states, events) && NoTheft(states, events, |events|)
    requires Next(cfg, states[|events|], e).Some? && !IsTheft(states[|events|], e)
    ensures events' == events + [e]
    ensures states' == states + [Next(cfg, states[|events|], e).value]
    ensures IsRun(cfg, states', events') && NoTheft(states', events', |events'|)
  {
    states', events' := Extend(cfg, states, events, e);
  }

  /** A process claims a slot exactly when it wants one and the configured maximum is not zero; the
      wait is counted from then on. */
  lemma ClaimsIff(cfg: seq<Settings>, s: State, p: Pid, detections: Option<nat>)
    requires |cfg| == |s.procs| && p < |s.procs| && s.procs[p].phase.Idle?
    ensures var t := Next(cfg, s, Iterate(p, detections));
      var wants := ShouldRunVlm(cfg[p], s.procs[p].iteration + 1, detections, s.procs[p].samples);
      var maximum := if cfg[p].globalMax.Some? then cfg[p].globalMax.value else cfg[p].maxSamples;
      && t.Some? && t.value.procs[p].iteration == s.procs[p].iteration + 1
      && t.value.procs[p].phase == if wants && maximum > 0 then Opening(s.clock) else Idle
  {
  }

  predicate Acquiring(ph: Phase) {
    ph.Opening? || ph.Checking? || ph.Removing? || ph.Waiting?
  }

  /** When a process began to wait for the lock. */
  function WaitingSince(ph: Phase): Millis
    requires Acquiring(ph)
  {
    ph.started
  }

  /** While it waits, the start of its wait stays what it was; any other error than an existing
      lock file ends the attempt; only a lock file whose age can be read is ever removed. */
  lemma WaitKeepsStart(cfg: seq<Settings>, s: State, e: Event, t: State, p: Pid)
    requires |cfg| == |s.procs| && p < |s.procs| && Next(cfg, s, e) == Some(t)
    ensures Acquiring(s.procs[p].phase) && Acquiring(t.procs[p].phase) ==>
      WaitingSince(t.procs[p].phase) == WaitingSince(s.procs[p].phase)
    ensures e == OpenError(p) ==> t.procs[p].phase.Idle?
    ensures e == StatLock(p, false) ==> t.procs[p].phase.Waiting?
  {
  }

  /** In every run, thefts included: a process is inside a request only with a slot it was granted. */
  lemma {:induction false} RequestsAreGranted(cfg: seq<Settings>, states: seq<State>, events: seq<Event>, n: nat, p: Pid)
    requires IsRun(cfg, states, events) && n < |states| && p < |cfg|
    ensures var ph := states[n].procs[p].phase; ph.Requesting? ==> Grant(p, ph.sample) in states[n].grants
  {
    if n > 0 {
      RequestsAreGranted(cfg, states, events, n - 1, p);
      GrantsStay(cfg, states[n - 1], events[n - 1], states[n], p);
    }
  }

  lemma GrantsStay(cfg: seq<Settings>, s: State, e: Event, t: State, p: Pid)
    requires |cfg| == |s.procs| && p < |s.procs| && Next(cfg, s, e) == Some(t)
    ensures t.grants == s.grants || exists g :: t.grants == s.grants + [g]
    ensures t.procs[p].phase.Requesting? ==>
      t.procs[p].phase == s.procs[p].phase || Grant(p, t.procs[p].phase.sample) in t.grants
  {
    if e.WriteCounter? && t.grants != s.grants {
      assert t.grants == s.grants + [Grant(e.pid, s.procs[e.pid].phase.next)];
    }
  }

  /** The two time limits: a lock file counts as abandoned after ten minutes, and a waiter gives up
      after five. */
  lemma TimeLimits(cfg: seq<Settings>, s: State, p: Pid)
    requires |cfg| == |s.procs| && p < |s.procs|
    ensures s.procs[p].phase.Checking? && s.lock.Some? ==>
      var t := Next(cfg, s, StatLock(p, true));
      t.Some? && (t.value.procs[p].phase.Removing? <==> s.clock - s.lock.value.modified > 600_000)
    ensures s.procs[p].phase.Waiting? ==>
      var t := Next(cfg, s, RetryOrGiveUp(p));
      t.Some? && (t.value.procs[p].phase.Idle? <==> s.clock - s.procs[p].phase.started > 300_000)
  {
  }

  // ----- when a process asks for a slot -----

  /** How many of the first `n` iterations ask for a slot when nothing is detected and no sample
      has been taken. */
  function Asks(c: Settings, n: nat): nat {
    if n == 0 then 0 else Asks(c, n - 1) + if ShouldRunVlm(c, n, None, 0) then 1 else 0
  }

  lemma OnlyZeroBetween(x: int, d: int)
    requires d >= 0
    ensures -d < x * d < d ==> x == 0
  {
    if x >= 1 {
      assert (x - 1) * d >= 0;
    } else if x <= -1 {
      assert (-x - 1) * d >= 0;
    }
  }

  lemma DivisionIsUnique(n: nat, d: nat, q: nat, r: nat)
    requires r < d && n == q * d + r
    ensures n / d == q && n % d == r
  {
    var a, b := n / d, n % d;
    assert n == a * d + b;
    assert (a - q) * d == a * d - q * d;
    OnlyZeroBetween(a - q, d);
  }

  /** The quotient grows at the multiples. */
  lemma QuotientGrows(n: nat, d: nat)
    requires n > 0 && d > 0
    ensures n / d == (n - 1) / d + if n % d == 0 then 1 else 0
  {
    var q, r := (n - 1) / d, (n - 1) % d;
    assert n - 1 == q * d + r;
    if r + 1 < d {
      DivisionIsUnique(n, d, q, r + 1);
    } else {
      assert (q + 1) * d == q * d + d;
      DivisionIsUnique(n, d, q + 1, 0);
    }
  }

  lemma OneIsNoMultiple(d: nat)
    requires d > 1
    ensures 1 % d == 1 && 1 / d == 0
  {
    DivisionIsUnique(1, d, 0, 1);
  }

  lemma PeriodicAsk(c: Settings, n: nat, every: nat)
    requires c.enrich && c.maxSamples > 0 && n > 0
    requires every == if c.sampleEvery == 0 then 1 else c.sampleEvery
    ensures ShouldRunVlm(c, n, None, 0) <==> n % every == 0 || (c.policy.DetectionOrPeriodic? && n == 1)
  {
  }

  /** Without detections a process that may ask does so once every `sampleEvery` iterations (every
      iteration when that is 0), and under the mixed policy also in its very first one. */
  lemma {:induction false} AsksPeriodically(c: Settings, n: nat, every: nat)
    requires c.enrich && c.maxSamples > 0
    requires every == if c.sampleEvery == 0 then 1 else c.sampleEvery
    ensures Asks(c, n) == n / every + if c.policy.DetectionOrPeriodic? && n > 0 && every > 1 then 1 else 0
  {
    if n == 0 {
      DivisionIsUnique(0, every, 0, 0);
    } else {
      AsksPeriodically(c, n - 1, every);
      PeriodicAsk(c, n, every);
      QuotientGrows(n, every);
      if every > 1 {
        OneIsNoMultiple(every);
      } else {
        DivisionIsUnique(n, 1, n, 0);
      }
    }
  }

  /** A detection asks in every iteration under the mixed policy and never matters under the
      periodic one; nobody asks without enrichment or beyond its own number of samples. */
  lemma DetectionsAsk(c: Settings, iteration: nat, found: nat, samples: nat)
    ensures !c.enrich || samples >= c.maxSamples ==> !ShouldRunVlm(c, iteration, Some(found), samples)
    ensures c.policy.DetectionOrPeriodic? && c.enrich && samples < c.maxSamples && found > 0 ==>
      ShouldRunVlm(c, iteration, Some(found), samples)
    ensures c.policy.Periodic? || found == 0 ==>
      (ShouldRunVlm(c, iteration, Some(found), samples) <==> ShouldRunVlm(c, iteration, None, samples))
    ensures samples < c.maxSamples ==>
      (ShouldRunVlm(c, iteration, None, samples) <==> ShouldRunVlm(c, iteration, None, 0))
  {
  }

  /** Recovery: a waiter that meets the stale lock file of a process that no longer holds its
      guard gets the lock by five steps of its own, none of them a theft. */
  lemma StaleLockIsRecovered(cfg: seq<Settings>, states: seq<State>, events: seq<Event>, p: Pid)
    returns (states': seq<State>, events': seq<Event>)
    requires IsRun(cfg, states, events) && NoTheft(states, events, |events|)
    requires var s := states[|events|];
      && p < |cfg| && s.procs[p].phase.Opening? && s.clock <= s.procs[p].phase.started + WAIT_LIMIT
      && LockIsStale(s) && s.lock.value.owner < |cfg| && !HoldsGuard(s.procs[s.lock.value.owner].phase)
    ensures IsRun(cfg, states', events') && NoTheft(states', events', |events'|)
    ensures var s := states[|events|];
      states'[|events'|] == Move(s, p, Reading(s.clock)).(lock := Some(LockFile(s.clock, p)))
  {
    var s := states[|events|];
    states', events' := ExtendHonestly(cfg, states, events, CreateLock(p));
    states', events' := ExtendHonestly(cfg, states', events', StatLock(p, true));
    assert states'[|events'|] == Move(s, p, Removing(s.procs[p].phase.started));
    states', events' := ExtendHonestly(cfg, states', events', UnlinkStale(p));
    assert states'[|events'|] == Move(s, p, Waiting(s.procs[p].phase.started)).(lock := None);
    states', events' := ExtendHonestly(cfg, states', events', RetryOrGiveUp(p));
    states', events' := ExtendHonestly(cfg, states', events', CreateLock(p));
  }

  /** Every process may take up to four samples and nobody limits the total further. */
  const EAGER := Settings(true, DetectionOrPeriodic, 1, 4, None)

  ghost predicate AllBounded(states: seq<State>) {
    forall i :: 0 <= i < |states| ==> HoldsAreBounded(states[i])
  }

  ghost predicate NoCrash(events: seq<Event>) {
    forall i :: 0 <= i < |events| ==> !events[i].Crash?
  }

  /** A process that finds no lock file takes a slot. */
  lemma EnterFreeQueue(cfg: seq<Settings>, states: seq<State>, events: seq<Event>, p: Pid)
    returns (states': seq<State>, events': seq<Event>)
    requires IsRun(cfg, states, events)
    requires var s := states[|events|];
      p < |cfg| && cfg[p] == EAGER && s.procs[p].phase.Opening? && s.lock.None? && CounterValue(s.counter) < 4
    ensures IsRun(cfg, states', events')
    ensures var s := states[|events|];
      var k := CounterValue(s.counter) + 1;
      states'[|events'|] == s.(
        lock := Some(LockFile(s.clock, p)), counter := Some(k), grants := s.grants + [Grant(p, k)],
        procs := s.procs[p := s.procs[p].(phase := Requesting(s.clock, k), samples := s.procs[p].samples + 1)])
    ensures AllBounded(states) ==> AllBounded(states')
    ensures NoCrash(events) ==> NoCrash(events')
  {
    states', events' := Extend(cfg, states, events, CreateLock(p));
    states', events' := Extend(cfg, states', events', ReadCounter(p));
    states', events' := Extend(cfg, states', events', WriteCounter(p, true));
  }

  /** An idle process meets a stale lock file and decides to unlink it. */
  lemma DecideToUnlink(cfg: seq<Settings>, states: seq<State>, events: seq<Event>, p: Pid)
    returns (states': seq<State>, events': seq<Event>)
    requires IsRun(cfg, states, events)
    requires var s := states[|events|];
      p < |cfg| && cfg[p] == EAGER && s.procs[p] == Process(Idle, 0, 0) && LockIsStale(s)
    ensures IsRun(cfg, states', events')
    ensures var s := states[|events|];
      states'[|events'|] == s.(procs := s.procs[p := Process(Removing(s.clock), 1, 0)])
    ensures AllBounded(states) ==> AllBounded(states')
    ensures NoCrash(events) ==> NoCrash(events')
  {
    states', events' := Extend(cfg, states, events, Iterate(p, None));
    states', events' := Extend(cfg, states', events', CreateLock(p));
    states', events' := Extend(cfg, states', events', StatLock(p, true));
  }

  /** It unlinks whatever lock file is there now and takes a slot. */
  lemma UnlinkAndEnter(cfg: seq<Settings>, states: seq<State>, events: seq<Event>, p: Pid)
    returns (states': seq<State>, events': seq<Event>)
    requires IsRun(cfg, states, events)
    requires var s := states[|events|];
      p < |cfg| && cfg[p] == EAGER && s.procs[p].phase == Removing(s.clock) && CounterValue(s.counter) < 4
    ensures IsRun(cfg, states', events')
    ensures var s := states[|events|];
      var k := CounterValue(s.counter) + 1;
      states'[|events'|] == s.(
        lock := Some(LockFile(s.clock, p)), counter := Some(k), grants := s.grants + [Grant(p, k)],
        procs := s.procs[p := s.procs[p].(phase := Requesting(s.clock, k), samples := s.procs[p].samples + 1)])
    ensures AllBounded(states) ==> AllBounded(states')
    ensures NoCrash(events) ==> NoCrash(events')
  {
    states', events' := Extend(cfg, states, events, UnlinkStale(p));
    states', events' := Extend(cfg, states', events', RetryOrGiveUp(p));
    states', events' := EnterFreeQueue(cfg, states', events', p);
  }

  /** From the start to the first process being inside its request. */
  lemma FirstProcessRequests(n: nat)
    returns (cfg: seq<Settings>, states: seq<State>, events: seq<Event>)
    requires n > 0
    ensures cfg == seq(n, _ => EAGER) && IsRun(cfg, states, events)
    ensures states[|events|] == State(0, Some(LockFile(0, 0)), Some(1),
                                      seq(n, _ => Process(Idle, 0, 0))[0 := Process(Requesting(0, 1), 1, 1)],
                                      [Grant(0, 1)])
    ensures AllBounded(states) && NoCrash(events)
  {
    cfg := seq(n, _ => EAGER);
    states, events := [State(0, None, None, seq(n, _ => Process(Idle, 0, 0)), [])], [];
    states, events := Extend(cfg, states, events, Iterate(0, None));
    states, events := EnterFreeQueue(cfg, states, events, 0);
  }

  /** Bounded holds are needed: a request that outlives the staleness limit lets a second
      process unlink the live lock and enter, although nothing crashed. */
  lemma SlowHolderBreaksExclusion() returns (cfg: seq<Settings>, states: seq<State>, events: seq<Event>)
    ensures IsRun(cfg, states, events) && NoCrash(events)
    ensures TwoInsideRequest(states[|events|])
  {
    cfg, states, events := FirstProcessRequests(2);
    states, events := Extend(cfg, states, events, Tick(STALE_AFTER + 1));
    states, events := DecideToUnlink(cfg, states, events, 1);
    states, events := UnlinkAndEnter(cfg, states, events, 1);
    assert states[|events|].procs[0].phase.Requesting? && states[|events|].procs[1].phase.Requesting?;
  }

  /** After a holder died, two waiters both decide to unlink its lock. */
  lemma TwoDecideToUnlink() returns (cfg: seq<Settings>, states: seq<State>, events: seq<Event>)
    ensures cfg == seq(3, _ => EAGER) && IsRun(cfg, states, events) && AllBounded(states)
    ensures var s := states[|events|];
      && CounterValue(s.counter) == 1
      && s.procs[1].phase == s.procs[2].phase == Removing(s.clock)
  {
    cfg, states, events := FirstProcessRequests(3);
    states, events := Extend(cfg, states, events, Crash(0));
    states, events := Extend(cfg, states, events, Tick(STALE_AFTER + 1));
    states, events := DecideToUnlink(cfg, states, events, 1);
    states, events := DecideToUnlink(cfg, states, events, 2);
  }

  /** Holders that do not die are needed: the second of the two waiters then unlinks the lock
      the first has just created.  No process keeps its guard too long in this run. */
  lemma CrashedHolderBreaksExclusion() returns (cfg: seq<Settings>, states: seq<State>, events: seq<Event>)
    ensures IsRun(cfg, states, events) && AllBounded(states)
    ensures TwoInsideRequest(states[|events|])
  {
    cfg, states, events := TwoDecideToUnlink();
    states, events := UnlinkAndEnter(cfg, states, events, 1);
    states, events := UnlinkAndEnter(cfg, states, events, 2);
    assert states[|events|].procs[1].phase.Requesting? && states[|events|].procs[2].phase.Requesting?;
  }
}
